/**
 `Capacitor`: a growing byte store cut into chunks that are drawn from, and given back to, one shared ring of
 sixteen buffers.
 */
module Buffers {
  import opened Wrappers

  /** `after` is `before` with `part` written from `offset` on. */
  ghost predicate Spliced(before: seq<Byte>, after: seq<Byte>, offset: nat, part: seq<Byte>) {
    && |after| == |before| && offset + |part| <= |before|
    && forall k :: 0 <= k < |before| ==>
         after[k] == if offset <= k < offset + |part| then part[k - offset] else before[k]
  }

  const CHUNK := 256
  const SLOTS := 16

  /** Who may use a buffer: a slot of the ring, or the chunk of one capacitor, or nobody. */
  datatype Owner = InRing(slot: int) | Held(holder: Capacitor, chunk: int) | Lost

  /** The part of `java.nio.ByteBuffer` in use here, of a fixed capacity. */
  class ByteBuffer {
    var store: seq<Byte>
    var position: int
    var limit: int
    ghost var owner: Owner

    ghost predicate Valid()
      reads this
    {
      |store| == CHUNK && 0 <= position <= limit <= CHUNK
    }

    constructor (ghost owner: Owner)
      ensures Valid() && position == 0 && limit == CHUNK && this.owner == owner
    {
      store := seq(CHUNK, _ => 0);
      position, limit := 0, CHUNK;
      this.owner := owner;
    }

    function Remaining(): int
      reads this
    {
      limit - position
    }

    twostate predicate Same()
      reads this
    {
      store == old(store) && position == old(position) && limit == old(limit) && owner == old(owner)
    }

    method Clear()
      requires Valid()
      modifies this`position, this`limit
      ensures Valid() && position == 0 && limit == CHUNK
    {
      position, limit := 0, CHUNK;
    }

    method Flip()
      requires Valid()
      modifies this`position, this`limit
      ensures Valid() && position == 0 && limit == old(position)
    {
      limit := position;
      position := 0;
    }

    method Put(a: array<Byte>, offset: nat, n: nat)
      requires Valid() && offset + n <= a.Length && n <= Remaining()
      modifies this`store, this`position
      ensures Valid() && position == old(position) + n
      ensures forall j :: 0 <= j < CHUNK ==>
                store[j] ==
                if old(position) <= j < old(position) + n then a[offset + j - old(position)] else old(store)[j]
    {
      store := store[..position] + a[offset..offset + n] + store[position + n..];
      position := position + n;
    }

    method Get(a: array<Byte>, offset: nat, n: nat)
      requires Valid() && offset + n <= a.Length && n <= Remaining()
      modifies this`position, a
      ensures Valid() && position == old(position) + n
      ensures Spliced(old(a[..]), a[..], offset, store[old(position)..old(position) + n])
    {
      forall k | 0 <= k < n {
        a[offset + k] := store[position + k];
      }
      position := position + n;
    }
  }

  /** The slot after the one given. */
  function After(slot: int): int {
    if slot + 1 > 15 then 0 else slot + 1
  }

  /** Buffers put back one after the other, from slot `end` on: the slots then, and the slot for the next one. */
  ghost function PutBack(slots: seq<ByteBuffer?>, end: int, bbs: seq<ByteBuffer>): (r: (seq<ByteBuffer?>, int))
    requires |slots| == 16 && 0 <= end < 16
    ensures |r.0| == 16 && 0 <= r.1 < 16
    decreases bbs
  {
    if bbs == [] then (slots, end) else PutBack(slots[end := bbs[0]], After(end), bbs[1..])
  }

  lemma {:induction false} PutBackSnoc(slots: seq<ByteBuffer?>, end: int, bbs: seq<ByteBuffer>, bb: ByteBuffer)
    requires |slots| == 16 && 0 <= end < 16
    ensures var r := PutBack(slots, end, bbs);
            PutBack(slots, end, bbs + [bb]) == (r.0[r.1 := bb], After(r.1))
    decreases bbs
  {
    var all := bbs + [bb];
    if bbs == [] {
      assert all == [bb] && all[1..] == [];
    } else {
      assert all[1..] == bbs[1..] + [bb];
      PutBackSnoc(slots[end := bbs[0]], After(end), bbs[1..], bb);
    }
  }

  lemma NothingBack(slots: seq<ByteBuffer?>, end: int)
    requires |slots| == 16 && 0 <= end < 16
    ensures PutBack(slots, end, []) == (slots, end)
  {
  }

  lemma OneMoreBack(slots: seq<ByteBuffer?>, end: int, bbs: seq<ByteBuffer>, i: nat)
    requires |slots| == 16 && 0 <= end < 16 && i < |bbs|
    ensures var r := PutBack(slots, end, bbs[..i]);
            PutBack(slots, end, bbs[..i + 1]) == (r.0[r.1 := bbs[i]], After(r.1))
  {
    assert bbs[..i + 1] == bbs[..i] + [bbs[i]];
    PutBackSnoc(slots, end, bbs[..i], bbs[i]);
  }

  /** What `n` requests for a buffer find in the slots from `start` on: null when a new one has to be made. */
  ghost function Found(slots: seq<ByteBuffer?>, start: int, n: nat): (r: seq<ByteBuffer?>)
    requires |slots| == 16 && 0 <= start < 16
    ensures |r| == n
    decreases n
  {
    if n == 0 then []
    else
      [slots[start]] + if slots[start] == null then Found(slots, start, n - 1)
                       else Found(slots[start := null], After(start), n - 1)
  }

  /** How many slots `s` is after `from`. */
  function Distance(from: int, s: int): int {
    if s >= from then s - from else s + 16 - from
  }

  /** Up to sixteen buffers put back lie one after the other, and the other slots are as they were. */
  lemma {:induction false} PutBackAt(slots: seq<ByteBuffer?>, end: int, bbs: seq<ByteBuffer>, s: int)
    requires |slots| == 16 && 0 <= end < 16 && 0 <= s < 16 && |bbs| <= 16
    ensures var d := Distance(end, s);
            PutBack(slots, end, bbs).0[s] == if d < |bbs| then bbs[d] else slots[s]
    decreases bbs
  {
    if bbs != [] {
      PutBackAt(slots[end := bbs[0]], After(end), bbs[1..], s);
    }
  }

  /** The slots hold these buffers from `start` on. */
  ghost predicate Queue(slots: seq<ByteBuffer?>, start: int, bbs: seq<ByteBuffer>) {
    && |slots| == 16 && 0 <= start < 16 && |bbs| <= 16
    && forall s :: 0 <= s < 16 ==>
         slots[s] == if Distance(start, s) < |bbs| then bbs[Distance(start, s)] else null
  }

  lemma {:induction false} QueueFound(slots: seq<ByteBuffer?>, start: int, bbs: seq<ByteBuffer>)
    requires Queue(slots, start, bbs)
    ensures Found(slots, start, |bbs|) == bbs
    decreases bbs
  {
    if bbs != [] {
      assert slots[start] == bbs[0];
      QueueFound(slots[start := null], After(start), bbs[1..]);
    }
  }

  /**
   What the ring is for: into an empty ring, whose two ends meet, buffers are put back to be found again. All of them
   are found, in the order in which they were put back, exactly when there are at most sixteen. The seventeenth takes
   the place of the first, which is lost.
   */
  lemma ReusedIff(start: int, bbs: seq<ByteBuffer>)
    requires 0 <= start < 16 && forall i, j :: 0 <= i < j < |bbs| ==> bbs[i] != bbs[j]
    ensures var empty: seq<ByteBuffer?> := seq(16, _ => null);
            Found(PutBack(empty, start, bbs).0, start, |bbs|) == bbs <==> |bbs| <= 16
  {
    var empty: seq<ByteBuffer?> := seq(16, _ => null);
    if |bbs| <= 16 {
      forall s | 0 <= s < 16
        ensures PutBack(empty, start, bbs).0[s] ==
                if Distance(start, s) < |bbs| then bbs[Distance(start, s)] else null
      {
        PutBackAt(empty, start, bbs, s);
      }
      QueueFound(PutBack(empty, start, bbs).0, start, bbs);
    } else {
      FirstLost(empty, start, bbs);
    }
  }

  lemma {:induction false} PutBackConcat(slots: seq<ByteBuffer?>, end: int, a: seq<ByteBuffer>, b: seq<ByteBuffer>)
    requires |slots| == 16 && 0 <= end < 16
    ensures var r := PutBack(slots, end, a); PutBack(slots, end, a + b) == PutBack(r.0, r.1, b)
    decreases a
  {
    if a == [] {
      assert a + b == b;
    } else {
      assert (a + b)[1..] == a[1..] + b;
      PutBackConcat(slots[end := a[0]], After(end), a[1..], b);
    }
  }

  /** Every slot that is put to after a while holds one of the later buffers. */
  lemma {:induction false} PutBackLater(slots: seq<ByteBuffer?>, end: int, bbs: seq<ByteBuffer>, s: int)
    requires |slots| == 16 && 0 <= end < 16 && 0 <= s < 16
    ensures PutBack(slots, end, bbs).0[s] == slots[s] || PutBack(slots, end, bbs).0[s] in bbs
    ensures |bbs| > Distance(end, s) ==> PutBack(slots, end, bbs).0[s] in bbs[Distance(end, s)..]
    decreases bbs
  {
    if bbs != [] {
      PutBackLater(slots[end := bbs[0]], After(end), bbs[1..], s);
      if end == s {
        assert bbs[0..] == bbs;
      } else if |bbs| > Distance(end, s) {
        assert bbs[1..][Distance(end, s) - 1..] == bbs[Distance(end, s)..];
      }
    }
  }

  lemma FirstLost(slots: seq<ByteBuffer?>, start: int, bbs: seq<ByteBuffer>)
    requires |slots| == 16 && 0 <= start < 16 && |bbs| > 16
    requires forall i, j :: 0 <= i < j < |bbs| ==> bbs[i] != bbs[j]
    ensures PutBack(slots, start, bbs).0[start] != bbs[0]
    ensures Found(PutBack(slots, start, bbs).0, start, |bbs|)[0] != bbs[0]
  {
    var first, rest := bbs[..16], bbs[16..];
    assert bbs == first + rest;
    PutBackConcat(slots, start, first, rest);
    FullTurn(slots, start, first);
    PutBackLater(PutBack(slots, start, first).0, start, rest, start);
    assert rest[0..] == rest;
  }

  lemma FullTurn(slots: seq<ByteBuffer?>, start: int, bbs: seq<ByteBuffer>)
    requires |slots| == 16 && 0 <= start < 16 && |bbs| == 16
    ensures PutBack(slots, start, bbs).1 == start
  {
    EndAfter(slots, start, bbs);
  }

  lemma {:induction false} EndAfter(slots: seq<ByteBuffer?>, end: int, bbs: seq<ByteBuffer>)
    requires |slots| == 16 && 0 <= end < 16 && |bbs| <= 16
    ensures PutBack(slots, end, bbs).1 == if end + |bbs| < 16 then end + |bbs| else end + |bbs| - 16
    decreases bbs
  {
    if bbs != [] {
      EndAfter(slots[end := bbs[0]], After(end), bbs[1..]);
    }
  }

  /** The ring shared by all capacitors. */
  class Ring {
    const slots: array<ByteBuffer?>
    var start: int
    var end: int
    ghost var buffers: set<ByteBuffer>
    ghost var capacitors: set<Capacitor>

    /** What is in a slot is owned by that slot, and what a capacitor has in its list is held by it, at that place. */
    ghost predicate Valid()
      reads this, slots, buffers, capacitors
    {
      && SlotsOwned()
      && (forall b :: b in buffers ==> b.Valid())
      && forall c :: c in capacitors ==> Holds(c)
    }

    ghost predicate SlotsOwned()
      reads this, slots, buffers
    {
      && slots.Length == SLOTS && 0 <= start < SLOTS && 0 <= end < SLOTS
      && forall s :: 0 <= s < SLOTS && slots[s] != null ==> slots[s] in buffers && slots[s].owner == InRing(s)
    }

    ghost predicate Holds(c: Capacitor)
      reads this, c, buffers
    {
      c.ring == this && forall i :: 0 <= i < |c.bbs| ==> c.bbs[i] in buffers && c.bbs[i].owner == Held(c, i)
    }

    constructor ()
      ensures Valid() && buffers == {} && capacitors == {} && fresh(slots)
      ensures start == end == 0 && forall s :: 0 <= s < 16 ==> slots[s] == null
    {
      slots := new ByteBuffer?[SLOTS](_ => null);
      start, end := 0, 0;
      buffers, capacitors := {}, {};
    }

    /** As `Valid`, while the chunks of `c` before `from` are on their way back to the ring. */
    ghost predicate ValidBut(c: Capacitor, from: int)
      reads this, slots, buffers, capacitors, c
    {
      && SlotsOwned()
      && (forall b :: b in buffers ==> b.Valid())
      && (forall d :: d in capacitors && d != c ==> Holds(d))
      && c.ring == this && forall i :: 0 <= from <= i < |c.bbs| ==> c.bbs[i] in buffers && c.bbs[i].owner == Held(c, i)
    }

    /** A buffer back into the ring; whatever is in the slot is dropped. */
    method RingPut(bb: ByteBuffer, ghost c: Capacitor, ghost i: int)
      requires ValidBut(c, i) && 0 <= i < |c.bbs| && bb == c.bbs[i]
      modifies this`end, slots, bb`owner
      ensures ValidBut(c, i + 1) && end == After(old(end))
      ensures slots[..] == old(slots[..])[old(end) := bb] && bb.owner == InRing(old(end))
    {
      slots[end] := bb;
      bb.owner := InRing(end);
      end := if end + 1 > 15 then 0 else end + 1;
    }

    /** A buffer from the ring, or a new one when the next slot is empty, for the next chunk of `c`. */
    method RingGet(ghost c: Capacitor) returns (bb: ByteBuffer)
      requires Valid() && c in capacitors
      modifies this`start, this`buffers, slots, set s | 0 <= s < slots.Length && slots[s] != null :: slots[s]
      ensures Valid() && capacitors == old(capacitors) && old(buffers) <= buffers && bb in buffers
      ensures fresh(buffers - old(buffers))
      ensures bb.position == 0 && bb.limit == CHUNK && bb.owner == Held(c, |c.bbs|)
      ensures bb in old(buffers) ==> old(bb.owner).InRing?
      ensures forall b :: b in old(buffers) && b != bb ==> b.Same()
      ensures if old(slots[start]) == null then fresh(bb) && start == old(start) && slots[..] == old(slots[..])
              else bb == old(slots[start]) && start == After(old(start))
                   && slots[..] == old(slots[..])[old(start) := null]
    {
      var taken := slots[start];
      if taken != null {
        slots[start] := null;
        start := if start + 1 > 15 then 0 else start + 1;
        bb := taken;
        bb.Clear();
        bb.owner := Held(c, |c.bbs|);
      } else {
        bb := new ByteBuffer(Held(c, |c.bbs|));
        buffers := buffers + {bb};
      }
    }
  }

  /** No buffer is in two places: two slots, two capacitors, two chunks of one, or a slot and a capacitor. */
  lemma NoSharing(ring: Ring)
    requires ring.Valid()
    ensures forall s, t :: 0 <= s < t < SLOTS && ring.slots[s] != null ==> ring.slots[s] != ring.slots[t]
    ensures forall c, s, i :: c in ring.capacitors && 0 <= s < SLOTS && 0 <= i < |c.bbs| ==> ring.slots[s] != c.bbs[i]
    ensures forall c, d, i, j ::
              c in ring.capacitors && d in ring.capacitors && 0 <= i < |c.bbs| && 0 <= j < |d.bbs| ==>
              (c.bbs[i] == d.bbs[j] ==> c == d && i == j)
  {
  }

  class Capacitor {
    const ring: Ring
    var bbs: seq<ByteBuffer>
    var curr: ByteBuffer?
    var idx: int
    ghost var contents: seq<Byte>

    /** The chunks hold the contents, 256 bytes each. */
    ghost predicate Stores()
      reads this, bbs
    {
      && (forall i :: 0 <= i < |bbs| ==> bbs[i].Valid() && bbs[i].owner == Held(this, i))
      && |contents| <= CHUNK * |bbs|
      && forall i, j :: 0 <= i < |bbs| && 0 <= j < CHUNK && CHUNK * i + j < |contents| ==>
          bbs[i].store[j] == contents[CHUNK * i + j]
    }

    /** Storage mode: all chunks but the last are full, the last is the current one. */
    ghost predicate Writing()
      reads this, bbs
    {
      && Stores()
      && (|bbs| == 0 ==> curr == null)
      && (|bbs| > 0 ==> curr == bbs[|bbs| - 1] && |contents| == CHUNK * (|bbs| - 1) + curr.position)
      && (forall i :: 0 <= i < |bbs| ==> bbs[i].limit == CHUNK && (i < |bbs| - 1 ==> bbs[i].position == CHUNK))
    }

    /** How much of the contents lies in chunk `i`. */
    ghost function Filled(i: int): int
      reads this
    {
      if CHUNK * (i + 1) <= |contents| then CHUNK else |contents| - CHUNK * i
    }

    /** Read mode: the chunks before the current one are used up, those after it untouched. */
    ghost predicate Reading()
      reads this, bbs
    {
      && Stores()
      && (|bbs| == 0 ==> curr == null)
      && (|bbs| > 0 ==> 1 <= idx <= |bbs| && curr == bbs[idx - 1] && CHUNK * (|bbs| - 1) <= |contents|)
      && (forall i :: 0 <= i < |bbs| ==> bbs[i].limit == Filled(i))
      && (forall i :: 0 <= i < |bbs| ==>
          (i < idx - 1 ==> bbs[i].position == bbs[i].limit) && (i >= idx ==> bbs[i].position == 0))
    }

    /** How many bytes have been read in read mode. */
    ghost function Cursor(): int
      reads this, bbs
    {
      if 1 <= idx <= |bbs| then CHUNK * (idx - 1) + bbs[idx - 1].position else 0
    }

    /** In read mode: what is still to be read. */
    ghost function Unread(): seq<Byte>
      reads this, bbs
    {
      if 0 <= Cursor() <= |contents| then contents[Cursor()..] else []
    }

    /** The ring has got back the chunks that the capacitor had. */
    twostate predicate GaveBack()
      reads this, ring, ring.slots
    {
      && ring.slots.Length == 16 && 0 <= old(ring.end) < 16
      && (ring.slots[..], ring.end) == PutBack(old(ring.slots[..]), old(ring.end), old(bbs))
    }

    /** The ring knows this capacitor. */
    ghost predicate Joined()
      reads this, ring, ring.slots, ring.buffers, ring.capacitors
    {
      ring.Valid() && this in ring.capacitors
    }

    /** The current chunk, if there is one, is in the list, whatever the mode. */
    ghost predicate CurrOurs()
      reads this
    {
      curr != null ==> curr in bbs
    }

    /** Buffers held by others are left alone, and the ring keeps its members. */
    twostate predicate Spares()
      reads this, ring, ring.buffers
    {
      && ring.capacitors == old(ring.capacitors) && old(ring.buffers) <= ring.buffers
          && fresh(ring.buffers - old(ring.buffers))
      && forall b :: b in old(ring.buffers) && old(b.owner).Held? && old(b.owner).holder != this ==> b.Same()
    }

    constructor (ring: Ring)
      requires ring.Valid()
      modifies ring`capacitors
      ensures this.ring == ring && bbs == [] && contents == []
      ensures Joined() && Writing() && ring.capacitors == old(ring.capacitors) + {this}
    {
      this.ring := ring;
      bbs, curr, idx, contents := [], null, 0, [];
      new;
      ring.capacitors := ring.capacitors + {this};
    }

    /** Moving positions and limits of its own buffers, a capacitor disturbs nobody. */
    twostate lemma OnlyMoved()
      requires old(Joined()) && bbs == old(bbs)
      requires unchanged(ring) && unchanged(ring.slots)
                 && forall c :: c in ring.capacitors && c != this ==> unchanged(c)
      requires forall b :: b in ring.buffers ==> b.owner == old(b.owner)
      requires forall b :: b in ring.buffers && b !in bbs ==> b.Same()
      requires forall b :: b in bbs ==> b.Valid()
      ensures Joined() && Spares()
    {
    }

    /** One more chunk at the end. */
    method NextChunk()
      requires Joined() && (Writing() ==> curr == null || curr.Remaining() == 0)
      modifies this`bbs, this`curr, ring`start, ring`buffers, ring.slots, ring.buffers
      ensures Joined() && CurrOurs() && Spares() && contents == old(contents)
      ensures old(Writing()) ==> Writing()
      ensures curr != null && curr in ring.buffers && curr.Remaining() == CHUNK && |bbs| == old(|bbs|) + 1
    {
      var bb := ring.RingGet(this);
      if old(Writing()) {
        StillWriting();
      }
      AddChunk(bb);
    }

    /** A buffer from the ring becomes the last chunk. */
    method AddChunk(bb: ByteBuffer)
      requires Joined() && (Writing() ==> curr == null || curr.Remaining() == 0)
      requires bb in ring.buffers && bb.owner == Held(this, |bbs|) && bb.position == 0 && bb.limit == CHUNK
      modifies this`bbs, this`curr
      ensures Joined() && curr == bb && bbs == old(bbs) + [bb]
      ensures old(Writing()) ==> Writing()
    {
      curr := bb;
      bbs := bbs + [bb];
    }

    /** Fetching a buffer changes none of the chunks. */
    twostate lemma StillWriting()
      requires old(Joined() && Writing()) && unchanged(this) && Joined()
      requires forall b :: b in old(ring.buffers) && old(b.owner).Held? ==> b.Same()
      ensures Writing() && (curr != null ==> curr.Same())
    {
    }

    /** As many chunks of 256 bytes as the contents need, or one more when they fill the others. */
    lemma ChunksNeeded()
      requires Writing()
      ensures 256 * (|bbs| - 1) <= |contents| <= 256 * |bbs|
      ensures forall i :: 0 <= i < |bbs| ==> bbs[i].Valid()
      ensures forall k :: 0 <= k < |contents| ==> k / 256 < |bbs| && bbs[k / 256].Valid()
                                                  && bbs[k / 256].store[k % 256] == contents[k]
    {
    }

    /** Nothing depends on what is outside the own chunks. */
    twostate lemma Untouched()
      requires unchanged(this) && forall i :: 0 <= i < |bbs| ==> bbs[i].Same()
      ensures old(Writing()) ==> Writing()
      ensures old(Reading()) ==> Reading() && Unread() == old(Unread())
    {
      assert old(Stores()) ==> Stores();
      hide Stores;
    }

    lemma ChunksAreOurs()
      requires Joined()
      ensures forall b :: b in bbs ==> b in ring.buffers && b.Valid()
      ensures Distinct()
    {
    }

    lemma CurrIsLast()
      requires Joined()
      ensures Writing() ==> CurrOurs() && (curr != null <==> |bbs| > 0)
      ensures CurrOurs() && curr != null ==> curr in ring.buffers && curr.Valid() && curr.Remaining() >= 0
    {
    }

    /** Bytes into the current chunk. */
    method PutPart(a: array<Byte>, offset: nat, n: nat)
      requires Joined() && CurrOurs() && curr != null && offset + n <= a.Length && n <= curr.Remaining()
      modifies this`contents, curr
      ensures Joined() && Spares()
      ensures old(Writing()) ==> Writing()
      ensures contents == old(contents) + a[..][offset..offset + n] && curr.Remaining() == old(curr.Remaining()) - n
    {
      hide Ring.Valid;
      ChunksAreOurs();
      curr.Put(a, offset, n);
      contents := contents + a[offset..offset + n];
      OnlyMoved();
    }

    /** As many bytes as the current chunk takes; a chunk that is filled up is followed by a new one. */
    method PutSome(a: array<Byte>, offset: nat, length: nat) returns (n: nat)
      requires Joined() && CurrOurs() && curr != null && 0 < curr.Remaining() && 0 < length
               && offset + length <= a.Length
      modifies this, ring`start, ring`buffers, ring.slots, ring.buffers
      ensures Joined() && CurrOurs() && Spares()
      ensures old(Writing()) ==> Writing()
      ensures 0 < n <= length && contents == old(contents) + a[..][offset..offset + n]
      ensures |bbs| > 0 && curr != null && 0 < curr.Remaining()
    {
      hide Ring.Valid;
      hide Writing;
      CurrIsLast();
      var len := curr.Remaining();
      if len > length {
        PutPart(a, offset, length);
        n := length;
      } else {
        PutPart(a, offset, len);
        NextChunk();
        n := len;
      }
    }

    method Put(a: array<Byte>, offset: nat, length: nat)
      requires Joined() && CurrOurs() && offset + length <= a.Length
      modifies this, ring`start, ring`buffers, ring.slots, ring.buffers
      ensures Joined() && CurrOurs() && Spares()
      ensures old(Writing()) ==> Writing()
      ensures contents == old(contents) + a[..][offset..offset + length] && |bbs| > 0
    {
      hide Ring.Valid;
      hide Writing;
      CurrIsLast();
      if curr == null || curr.Remaining() == 0 {
        NextChunk();
      }
      PutRest(a, offset, length);
    }

    /** The loop of `Put`: the bytes from `off` on. */
    method PutRest(a: array<Byte>, start: nat, length: nat)
      requires Joined() && CurrOurs() && start + length <= a.Length && curr != null && 0 < curr.Remaining()
      modifies this, ring`start, ring`buffers, ring.slots, ring.buffers
      ensures Joined() && CurrOurs() && Spares() && |bbs| > 0
      ensures old(Writing()) ==> Writing()
      ensures contents == old(contents) + a[..][start..start + length]
    {
      hide Ring.Valid;
      hide Writing;
      hide Joined;
      hide Stores;
      hide ByteBuffer.Remaining;
      CurrIsLast();
      var off := start;
      ghost var before, source := contents, a[..];
      assert before + source[start..start] == before;
      while off < start + length
        invariant start <= off <= start + length
        invariant Joined() && CurrOurs() && Spares() && (old(Writing()) ==> Writing())
        invariant |bbs| > 0 && curr != null && 0 < curr.Remaining()
        invariant contents == before + source[start..off]
      {
        var n := PutSome(a, off, start + length - off);
        AppendSlice(before, source, start, off, off + n);
        off := off + n;
      }
    }

    /** Every chunk from its start up to where it is filled. */
    ghost predicate Rewound()
      reads this, bbs
    {
      && Stores() && (|bbs| > 0 ==> CHUNK * (|bbs| - 1) <= |contents|)
      && forall k :: 0 <= k < |bbs| ==> bbs[k].position == 0 && bbs[k].limit == Filled(k)
    }

    /** No chunk is listed twice. */
    ghost predicate Distinct()
      reads this
    {
      forall i, j :: 0 <= i < j < |bbs| ==> bbs[i] != bbs[j]
    }

    method FlipChunks()
      requires Distinct() && forall k :: 0 <= k < |bbs| ==> bbs[k].Valid()
      modifies bbs`position, bbs`limit
      ensures forall k :: 0 <= k < |bbs| ==>
                bbs[k].Valid() && bbs[k].position == 0 && bbs[k].limit == old(bbs[k].position)
    {
      for i := 0 to |bbs|
        invariant forall k :: 0 <= k < i ==>
                    bbs[k].Valid() && bbs[k].position == 0 && bbs[k].limit == old(bbs[k].position)
        invariant forall k :: i <= k < |bbs| ==> bbs[k].Valid() && bbs[k].position == old(bbs[k].position)
      {
        bbs[i].Flip();
      }
    }

    method RewindChunks()
      requires Distinct() && forall k :: 0 <= k < |bbs| ==> bbs[k].Valid()
      modifies bbs`position
      ensures forall k :: 0 <= k < |bbs| ==> bbs[k].Valid() && bbs[k].position == 0
    {
      for i := 0 to |bbs|
        invariant forall k :: 0 <= k < |bbs| ==> bbs[k].Valid() && (k < i ==> bbs[k].position == 0)
      {
        bbs[i].position := 0;
      }
    }

    /** The bytes stored do not depend on positions and limits. */
    twostate lemma StillStored()
      requires old(Stores()) && unchanged(this) && forall k :: 0 <= k < |bbs| ==> bbs[k].Valid()
      requires forall k :: 0 <= k < |bbs| ==> bbs[k].store == old(bbs[k].store) && bbs[k].owner == old(bbs[k].owner)
      ensures Stores()
    {
    }

    method FlipAll()
      requires Joined()
      modifies bbs`position, bbs`limit
      ensures forall b :: b in bbs ==> b.Valid()
      ensures old(Writing()) ==> Rewound()
    {
      hide Stores, Writing, Ring.Valid;
      ChunksAreOurs();
      if Writing() {
        FilledChunks();
      }
      FlipChunks();
      if old(Writing()) {
        StillStored();
      }
    }

    lemma FilledChunks()
      requires Writing()
      ensures Stores() && forall k :: 0 <= k < |bbs| ==> bbs[k].Valid() && bbs[k].position == Filled(k)
      ensures |bbs| > 0 ==> CHUNK * (|bbs| - 1) <= |contents|
    {
    }

    lemma LimitedChunks()
      requires Reading()
      ensures Stores() && forall k :: 0 <= k < |bbs| ==> bbs[k].limit == Filled(k)
      ensures |bbs| > 0 ==> CHUNK * (|bbs| - 1) <= |contents|
    {
    }

    method RewindAll()
      requires Joined()
      modifies bbs`position
      ensures forall b :: b in bbs ==> b.Valid()
      ensures old(Reading()) ==> Rewound()
    {
      hide Stores, Reading, Ring.Valid;
      ChunksAreOurs();
      if Reading() {
        LimitedChunks();
      }
      RewindChunks();
      if old(Reading()) {
        StillStored();
      }
    }

    method SetForRead()
      requires Joined()
      modifies this`curr, this`idx, bbs`position, bbs`limit
      ensures Joined() && CurrOurs() && Spares() && contents == old(contents) && bbs == old(bbs)
      ensures old(Writing()) ==> Reading() && Unread() == contents
    {
      hide Ring.Valid;
      hide Writing;
      hide Reading;
      hide Unread;
      ChunksAreOurs();
      FlipAll();
      Rewind();
      if Rewound() {
        RewoundIsUnread();
      }
      OnlyMoved();
    }

    method Reset()
      requires Joined()
      modifies this`curr, this`idx, bbs`position
      ensures Joined() && CurrOurs() && Spares() && contents == old(contents) && bbs == old(bbs)
      ensures old(Reading()) ==> Reading() && Unread() == contents
    {
      hide Ring.Valid;
      hide Writing;
      hide Reading;
      hide Unread;
      ChunksAreOurs();
      RewindAll();
      Rewind();
      if Rewound() {
        RewoundIsUnread();
      }
      OnlyMoved();
    }

    lemma RewoundIsUnread()
      requires Rewound() && if |bbs| == 0 then curr == null && idx == 0 else curr == bbs[0] && idx == 1
      ensures Reading() && Unread() == contents
    {
    }

    /** Back to the first chunk. */
    method Rewind()
      modifies this`curr, this`idx
      ensures |bbs| == 0 ==> curr == null && idx == 0
      ensures |bbs| > 0 ==> curr == bbs[0] && idx == 1
    {
      if |bbs| == 0 {
        curr, idx := null, 0;
      } else {
        curr, idx := bbs[0], 1;
      }
    }

    /** In read mode: exactly what is still to be read. */
    method Available() returns (count: int)
      requires Joined() && Reading()
      ensures count == |Unread()|
    {
      count := 0;
      for i := 0 to |bbs|
        invariant count == if i < idx then 0 else (if CHUNK * i <= |contents| then CHUNK * i else |contents|) - Cursor()
      {
        count := count + bbs[i].Remaining();
      }
    }

    /** Bytes out of the current chunk. */
    method GetPart(a: array<Byte>, offset: nat, n: nat)
      requires Reading() && curr != null && n <= curr.Remaining() && offset + n <= a.Length
      modifies curr`position, a
      ensures Reading() && n <= |old(Unread())| && Unread() == old(Unread())[n..]
      ensures curr.Remaining() == old(curr.Remaining()) - n
      ensures n <= |old(Unread())| && Spliced(old(a[..]), a[..], offset, old(Unread())[..n])
    {
      hide Unread;
      ChunkIsUnread();
      curr.Get(a, offset, n);
      StillReading(n);
      LessUnread(n);
    }

    /** The current chunk has moved on by `n` bytes, the others have not. */
    twostate predicate Moved(n: nat)
      reads this, bbs, if curr == null then {} else {curr}
    {
      && unchanged(this) && curr != null && 1 <= idx <= |bbs| && curr == bbs[idx - 1]
      && curr.position == old(curr.position) + n && curr.store == old(curr.store) && curr.limit == old(curr.limit)
      && curr.owner == old(curr.owner) && forall i :: 0 <= i < |bbs| && i != idx - 1 ==> bbs[i].Same()
    }

    twostate lemma StillReading(n: nat)
      requires old(Reading() && curr != null && n <= curr.Remaining()) && Moved(n)
      ensures Reading()
    {
    }

    twostate lemma LessUnread(n: nat)
      requires old(Reading() && curr != null && n <= curr.Remaining()) && Moved(n) && Reading()
      ensures n <= |old(Unread())| && Unread() == old(Unread())[n..]
    {
    }

    /** On to the next chunk. */
    method Advance()
      requires Reading() && curr != null && curr.Remaining() == 0 && idx < |bbs|
      modifies this`curr, this`idx
      ensures Reading() && curr != null && Unread() == old(Unread()) && idx == old(idx) + 1
    {
      curr := bbs[idx];
      idx := idx + 1;
    }

    /** What one round of the read loop delivers: from the current chunk only, which may be empty. */
    method ReadSome(a: array<Byte>, offset: nat, length: nat) returns (n: nat, stop: bool)
      requires Reading() && curr != null && 0 < length && offset + length <= a.Length
      modifies this`curr, this`idx, bbs`position, a
      ensures Reading() && curr != null
      ensures n <= length && n <= |old(Unread())| && Unread() == old(Unread())[n..]
      ensures n <= |old(Unread())| && Spliced(old(a[..]), a[..], offset, old(Unread())[..n])
      ensures old(idx) <= idx <= |bbs|
      ensures if stop then n == length || Unread() == [] else old(idx) < idx
    {
      hide Stores;
      CurrIsAmong();
      ChunkIsUnread();
      var len := curr.Remaining();
      if len > length {
        GetPart(a, offset, length);
        n, stop := length, true;
      } else {
        GetPart(a, offset, len);
        n := len;
        stop := idx >= |bbs|;
        if stop {
          ChunkIsUnread();
        } else {
          Advance();
        }
      }
    }

    lemma CurrIsAmong()
      requires Reading() && curr != null
      ensures curr in bbs && 1 <= idx <= |bbs| && curr.Remaining() >= 0
    {
    }

    /** The rest of the current chunk is what is to be read first, and all there is when it is the last. */
    lemma ChunkIsUnread()
      requires Reading() && curr != null
      ensures curr.Remaining() <= |Unread()|
      ensures forall n :: 0 <= n <= curr.Remaining() ==> curr.store[curr.position..curr.position + n] == Unread()[..n]
      ensures idx == |bbs| ==> curr.Remaining() == |Unread()|
    {
    }

    /**
     Bulk read: -1 without any chunk, otherwise as much as asked for or as there is, across chunks, empty ones
     included.
     */
    method Read(a: array<Byte>, offset: nat, length: nat) returns (count: int)
      requires Joined() && Reading() && offset + length <= a.Length
      modifies this`curr, this`idx, bbs`position, a
      ensures Joined() && Reading() && Spares()
      ensures count == if |bbs| == 0 then -1 else if length <= |old(Unread())| then length else |old(Unread())|
      ensures count < 0 ==> old(Unread()) == Unread() == [] && a[..] == old(a[..])
      ensures count >= 0 ==> Unread() == old(Unread())[count..]
      ensures count >= 0 ==> Spliced(old(a[..]), a[..], offset, old(Unread())[..count])
    {
      if curr == null {
        return -1;
      }
      count := ReadLoop(a, offset, length);
      OnlyMoved();
    }

    method ReadLoop(a: array<Byte>, offset: nat, length: nat) returns (count: nat)
      requires Reading() && curr != null && offset + length <= a.Length
      modifies this`curr, this`idx, bbs`position, a
      ensures Reading()
      ensures count == if length <= |old(Unread())| then length else |old(Unread())|
      ensures Unread() == old(Unread())[count..]
      ensures Spliced(old(a[..]), a[..], offset, old(Unread())[..count])
    {
      hide Reading;
      hide Unread;
      hide Spliced;
      ghost var all, was := Unread(), a[..];
      count := 0;
      var stop := length == 0;
      CurrIsAmong();
      NotSpliced(was, offset, all);
      while !stop
        invariant Reading() && curr != null && idx <= |bbs|
        invariant count <= length && count <= |all| && Unread() == all[count..]
        invariant Spliced(was, a[..], offset, all[..count])
        invariant stop ==> count == length || Unread() == []
        invariant !stop ==> count < length
        decreases length - count, |bbs| - idx, !stop
      {
        ghost var before := a[..];
        var n, done := ReadSome(a, offset + count, length - count);
        SplicedOn(was, before, a[..], offset, all, count, n);
        count := count + n;
        stop := done || count == length;
      }
    }

    /** All chunks go back to the ring. */
    method Done()
      requires Joined()
      modifies this`bbs, this`curr, this`contents, ring`end, ring.slots, bbs`owner
      ensures Joined() && Writing() && Spares() && bbs == [] && contents == []
      ensures GaveBack()
    {
      hide PutBack, After;
      ghost var slots, end := ring.slots[..], ring.end;
      NothingBack(slots, end);
      for i := 0 to |bbs|
        invariant bbs == old(bbs) && ring.ValidBut(this, i)
        invariant |slots| == 16 && 0 <= end < 16 && (ring.slots[..], ring.end) == PutBack(slots, end, bbs[..i])
      {
        OneMoreBack(slots, end, bbs, i);
        ring.RingPut(bbs[i], this, i);
      }
      assert bbs[..|bbs|] == bbs;
      bbs, curr, contents := [], null, [];
    }

    /** One byte; a chunk that is filled up is followed by a new one only with the next byte. */
    method PutByte(b: Byte)
      requires Joined() && CurrOurs()
      modifies this, ring`start, ring`buffers, ring.slots, ring.buffers
      ensures Joined() && CurrOurs() && Spares() && contents == old(contents) + [b] && |bbs| > 0
      ensures old(Writing()) ==> Writing()
    {
      hide Ring.Valid;
      hide Writing;
      CurrIsLast();
      if curr == null || curr.Remaining() == 0 {
        NextChunk();
      }
      var one := new Byte[1](_ => b);
      CurrIsLast();
      PutPart(one, 0, 1);
      assert one[..][0..1] == [b];
    }
  }

  /** What one capacitor does leaves every other one, and what it still has to deliver, as it was. */
  twostate lemma OthersUndisturbed(c: Capacitor, d: Capacitor)
    requires old(c.Joined() && d.Joined()) && c != d && c.ring == d.ring && c.Spares() && unchanged(d)
    ensures old(d.Writing()) ==> d.Writing()
    ensures old(d.Reading()) ==> d.Reading() && d.Unread() == old(d.Unread())
  {
    assert forall i :: 0 <= i < |d.bbs| ==> old(d.bbs[i].owner) == Held(d, i);
    d.Untouched();
  }

  lemma NotSpliced(before: seq<Byte>, offset: nat, all: seq<Byte>)
    requires offset <= |before|
    ensures Spliced(before, before, offset, all[..0])
  {
  }

  /** Writing one slice after the other is writing both. */
  lemma SplicedOn(before: seq<Byte>, mid: seq<Byte>, after: seq<Byte>, offset: nat, all: seq<Byte>, i: nat, n: nat)
    requires i + n <= |all| && Spliced(before, mid, offset, all[..i]) && Spliced(mid, after, offset + i, all[i..][..n])
    ensures Spliced(before, after, offset, all[..i + n]) && all[i..][n..] == all[i + n..]
  {
  }

  lemma AppendSlice(s: seq<Byte>, t: seq<Byte>, i: nat, j: nat, k: nat)
    requires i <= j <= k <= |t|
    ensures s + t[i..j] + t[j..k] == s + t[i..k]
  {
    assert t[i..j] + t[j..k] == t[i..k];
  }
}
