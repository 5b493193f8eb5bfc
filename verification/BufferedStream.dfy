/**
 `BufferedServletInputStream`: an input stream that can be marked and replayed, the bytes in between being kept in
 a capacitor.
 */
module BufferedStream {
  import opened Wrappers
  import opened Buffers

  /** The stream underneath: it may deliver less than asked for, but something as long as there is anything. */
  class ByteSource {
    var rest: seq<Byte>

    constructor (rest: seq<Byte>)
      ensures this.rest == rest
    {
      this.rest := rest;
    }

    method Read(b: array<Byte>, off: nat, len: nat) returns (count: int)
      requires off + len <= b.Length
      modifies this, b
      ensures len == 0 ==> count == 0
      ensures len > 0 && old(rest) == [] ==> count == -1
      ensures len > 0 && old(rest) != [] ==> 0 < count <= len && count <= |old(rest)|
      ensures count <= 0 ==> rest == old(rest) && b[..] == old(b[..])
      ensures count > 0 ==> rest == old(rest)[count..] && Spliced(old(b[..]), b[..], off, old(rest)[..count])
    {
      if len == 0 {
        return 0;
      }
      if |rest| == 0 {
        return -1;
      }
      var n: nat :| 0 < n <= len && n <= |rest|;
      forall k | 0 <= k < n {
        b[off + k] := rest[k];
      }
      rest := rest[n..];
      count := n;
    }
  }

  datatype State = NONE | STORE | READ

  /** The result of a call; `Thrown` stands for any exception. */
  datatype Outcome<T> = Returned(value: T) | Thrown

  class BufferedServletInputStream {
    const input: ByteSource
    const ring: Ring
    var state: State
    var capacitor: Capacitor?

    ghost predicate Valid()
      reads this, input, ring, ring.slots, ring.buffers, ring.capacitors, capacitor,
            if capacitor == null then [] else capacitor.bbs
    {
      && ring.Valid()
      && (state == NONE ==> capacitor == null) && (state == STORE ==> capacitor != null)
      && (capacitor != null ==>
            && capacitor.ring == ring && capacitor.Joined() && (capacitor.bbs == [] <==> capacitor.contents == [])
            && if state == STORE then capacitor.Writing() else capacitor.Reading())
    }

    /** Being read from the kept bytes. */
    ghost predicate Replaying()
      reads this
    {
      state == READ && capacitor != null
    }

    /** The bytes kept since the mark. */
    ghost function Kept(): seq<Byte>
      reads this, capacitor
    {
      if capacitor == null then [] else capacitor.contents
    }

    /** The kept bytes that are still to be replayed. */
    ghost function ToReplay(): seq<Byte>
      reads this, capacitor, if capacitor == null then [] else capacitor.bbs
    {
      if Replaying() then capacitor.Unread() else []
    }

    /** What the caller is still to read. */
    ghost function Future(): seq<Byte>
      reads this, input, capacitor, if capacitor == null then [] else capacitor.bbs
    {
      ToReplay() + input.rest
    }

    constructor (input: ByteSource, ring: Ring)
      requires ring.Valid()
      ensures Valid() && state == NONE && this.input == input && this.ring == ring && Future() == input.rest
    {
      this.input, this.ring := input, ring;
      state, capacitor := NONE, null;
    }

    /**
     What a read of `len` bytes into `b[off..]` does: -1 only at the end, otherwise the next bytes that are due, at
     least one of them if any are wanted and there.
     */
    twostate predicate Delivers(b: array<Byte>, off: nat, len: nat, count: int)
      reads this, b, input, capacitor, if capacitor == null then [] else capacitor.bbs
    {
      && (count < 0 ==> count == -1 && len > 0 && old(Future()) == Future() == [] && b[..] == old(b[..]))
      && (count >= 0 ==> count <= len && count <= |old(Future())| && Future() == old(Future())[count..])
      && (count >= 0 ==> count <= |old(Future())| && Spliced(old(b[..]), b[..], off, old(Future())[..count]))
      && (count == 0 ==> len == 0)
    }

    /**
     What a read during replay does, whatever the offset: the next bytes that are due, the kept ones from `b[off]` on,
     but those from underneath from `b[c]` on, with `c` the number of kept ones.
     */
    twostate predicate Continues(b: array<Byte>, off: nat, len: nat, count: int)
      reads this, b, input, capacitor, if capacitor == null then [] else capacitor.bbs
    {
      && (count < 0 ==> count == -1 && old(Future()) == Future() == [] && b[..] == old(b[..]))
      && (count >= 0 ==>
            && 0 < count <= len && count <= |old(Future())| && Future() == old(Future())[count..]
            && FromBoth(old(b[..]), b[..], off, old(ToReplay()), old(input.rest), len, count))
    }

    /** Nothing kept any more, or nothing kept yet: straight from the source. */
    method ReadPlain(b: array<Byte>, off: nat, len: nat) returns (count: int)
      requires Valid() && capacitor == null && off + len <= b.Length
      modifies input, b
      ensures Valid() && Delivers(b, off, len, count)
      ensures input.rest == if count <= 0 then old(input.rest) else old(input.rest)[count..]
    {
      hide Ring.Valid;
      assert Future() == input.rest;
      count := input.Read(b, off, len);
      assert Future() == input.rest;
    }

    /** After the mark: what is read is kept. */
    method ReadStoring(b: array<Byte>, off: nat, len: nat) returns (count: int)
      requires Valid() && state == STORE && off + len <= b.Length
      modifies input, b, capacitor, ring`start, ring`buffers, ring.slots, ring.buffers
      ensures Valid() && Delivers(b, off, len, count) && fresh(ring.buffers - old(ring.buffers))
      ensures Kept() + Future() == old(Kept() + Future()) && |Kept()| == old(|Kept()|) + if count < 0 then 0 else count
    {
      hide Ring.Valid;
      hide Capacitor.Writing;
      assert Future() == input.rest;
      count := input.Read(b, off, len);
      if count > 0 {
        assert b[..][off..off + count] == old(input.rest)[..count];
        capacitor.CurrIsLast();
        capacitor.Put(b, off, count);
      }
      assert Future() == input.rest;
    }

    /** The kept bytes are given back to the ring; what was not replayed of them is skipped. */
    method DropBuffer()
      requires Valid() && Replaying()
      modifies this`capacitor, capacitor, ring`end, ring.slots, ring.buffers
      ensures Valid() && capacitor == null && Future() == input.rest
      ensures old(capacitor).GaveBack()
    {
      hide Ring.Valid;
      hide Capacitor.Reading;
      var c := capacitor;
      c.ChunksAreOurs();
      c.Done();
      capacitor := null;
    }

    /** From the kept bytes alone: as many as asked for or as there are; -1 when nothing was kept. */
    method ReadKept(b: array<Byte>, off: nat, len: nat) returns (count: int)
      requires Valid() && Replaying() && off + len <= b.Length
      modifies b, capacitor, ring.buffers
      ensures Valid() && Kept() == old(Kept()) && capacitor.bbs == old(capacitor.bbs)
      ensures count < 0 <==> Kept() == []
      ensures count < 0 ==> ToReplay() == old(ToReplay()) == [] && b[..] == old(b[..])
      ensures count >= 0 ==> count == if len <= |old(ToReplay())| then len else |old(ToReplay())|
      ensures count >= 0 ==>
                ToReplay() == old(ToReplay())[count..] && Spliced(old(b[..]), b[..], off, old(ToReplay())[..count])
    {
      hide Ring.Valid;
      hide Capacitor.Reading;
      hide Capacitor.Unread;
      hide Spliced;
      capacitor.ChunksAreOurs();
      count := capacitor.Read(b, off, len);
    }

    /** As `ReadKept`, but with the kept bytes given back as soon as none comes out. */
    method ReadFirst(b: array<Byte>, off: nat, len: nat) returns (count: int)
      requires Valid() && Replaying() && off + len <= b.Length
      modifies this`capacitor, b, capacitor, ring`end, ring.slots, ring.buffers
      ensures Valid() && (capacitor == null || capacitor == old(capacitor)) && (Replaying() ==> Kept() == old(Kept()))
      ensures count < 0 <==> old(Kept()) == []
      ensures count < 0 ==> old(ToReplay()) == [] && !Replaying() && b[..] == old(b[..])
      ensures count >= 0 ==> count == if len <= |old(ToReplay())| then len else |old(ToReplay())|
      ensures count >= 0 ==> Spliced(old(b[..]), b[..], off, old(ToReplay())[..count])
      ensures count >= 0 ==> ToReplay() == if len == 0 then [] else old(ToReplay())[count..]
      ensures capacitor == null <==> len == 0 || old(ToReplay()) == []
      ensures capacitor == null ==> old(capacitor).GaveBack()
    {
      hide Ring.Valid;
      hide Capacitor.Reading;
      hide Capacitor.Unread;
      hide Spliced;
      hide PutBack;
      count := ReadKept(b, off, len);
      ghost var mid := b[..];
      if count <= 0 {
        DropBuffer();
        assert b[..] == mid;
      }
    }

    /** After the last kept bytes, `part`: more from the stream underneath, after the same number of bytes in `b`. */
    method ReadOn(b: array<Byte>, off: nat, len: nat, count: nat, ghost was: seq<Byte>, ghost part: seq<Byte>)
      returns (total: int)
      requires Valid() && state == READ && ToReplay() == [] && count == |part| < len <= b.Length
      requires Spliced(was, b[..], off, part)
      modifies input, b
      ensures Valid() && Kept() == old(Kept()) && -1 <= total <= len && total != 0
      ensures total < 0 <==> part == old(input.rest) == []
      ensures total == count ==> input.rest == old(input.rest)
      ensures total < 0 ==> Future() == [] && b[..] == was
      ensures total >= 0 ==> count <= total <= count + |old(input.rest)| && Future() == old(input.rest)[total - count..]
      ensures total >= 0 ==> count <= total <= count + |old(input.rest)|
                             && Placed(was, b[..], off, part, old(input.rest)[..total - count])
    {
      hide Ring.Valid;
      hide Capacitor.Reading;
      hide Spliced;
      ghost var mid, rest := b[..], input.rest;
      total := count;
      var temp := input.Read(b, count, len - count);
      NothingFollows(was, mid, off, part);
      if temp > 0 {
        total := total + temp;
        BothPlaced(was, mid, b[..], off, part, rest[..temp]);
      } else if total <= 0 {
        NothingSpliced(was, mid, off, part);
        total := temp;
      }
    }

    /**
     After the reset: the kept bytes first, into `b[off..]`, and when they do not suffice the stream underneath, into
     `b[n..]` with `n` the number of kept bytes, wherever `off` is. With nothing kept it throws. Asking for nothing
     skips all kept bytes.
     */
    method ReadReplaying(b: array<Byte>, off: nat, len: nat) returns (result: Outcome<int>)
      requires Valid() && Replaying() && off + len <= b.Length
      modifies this`capacitor, input, b, capacitor, ring`end, ring.slots, ring.buffers
      ensures Valid() && (capacitor == null || capacitor == old(capacitor))
      ensures result.Thrown? <==> old(Kept()) == []
      ensures result.Thrown? ==> !Replaying() && Future() == old(Future()) && b[..] == old(b[..])
      ensures result.Returned? && len == 0 ==> result.value == 0 && Future() == old(input.rest) && b[..] == old(b[..])
      ensures result.Returned? && len > 0 ==> Continues(b, off, len, result.value)
      ensures Replaying() ==> Kept() == old(Kept())
      ensures Replaying() && result.value <= |old(ToReplay())| ==> input.rest == old(input.rest)
      ensures capacitor == null <==> len == 0 || old(ToReplay()) == []
      ensures capacitor == null ==> old(capacitor).GaveBack()
    {
      hide Valid;
      hide Capacitor.Reading;
      hide Capacitor.Unread;
      hide Capacitor.GaveBack;
      hide Spliced;
      hide Placed;
      hide Delivers;
      ghost var was, kept, rest := b[..], ToReplay(), input.rest;
      var count := ReadFirst(b, off, len);
      if count < 0 {
        return Thrown;
      }
      if count < len {
        assert kept[..count] == kept;
        count := ReadOn(b, off, len, count, was, kept);
        assert count > 0 ==> (kept + rest)[count..] == rest[count - |kept|..];
      } else {
        WithinKept(was, b[..], off, kept, rest, count);
      }
      result := Returned(count);
    }

    /** The same where every byte is where it belongs: at offset 0, or within the kept bytes. */
    method ReadInPlace(b: array<Byte>, off: nat, len: nat) returns (result: Outcome<int>)
      requires Valid() && Replaying() && off + len <= b.Length
      modifies this`capacitor, input, b, capacitor, ring`end, ring.slots, ring.buffers
      ensures Valid() && (capacitor == null || capacitor == old(capacitor))
      ensures result.Thrown? <==> old(Kept()) == []
      ensures result.Thrown? ==> !Replaying() && Future() == old(Future()) && b[..] == old(b[..])
      ensures result.Returned? && len == 0 ==> result.value == 0 && Future() == old(input.rest) && b[..] == old(b[..])
      ensures result.Returned? && len > 0 ==> Continues(b, off, len, result.value)
      ensures result.Returned? && len > 0 && (off == 0 || len <= |old(ToReplay())|) ==>
                Delivers(b, off, len, result.value)
      ensures Replaying() ==> Kept() == old(Kept())
      ensures Replaying() && result.value <= |old(ToReplay())| ==> input.rest == old(input.rest)
      ensures capacitor == null <==> len == 0 || old(ToReplay()) == []
      ensures capacitor == null ==> old(capacitor).GaveBack()
    {
      hide Valid;
      hide Capacitor.Unread;
      hide Capacitor.GaveBack;
      hide Spliced;
      hide Placed;
      ghost var was, kept, rest := b[..], ToReplay(), input.rest;
      result := ReadReplaying(b, off, len);
      if result.Returned? && result.value > 0 && len > 0 && (off == 0 || len <= |kept|) {
        InPlace(was, b[..], off, kept, rest, len, result.value);
      }
    }

    method Read(b: array<Byte>, off: nat, len: nat) returns (result: Outcome<int>)
      requires Valid() && off + len <= b.Length
      modifies this`capacitor, input, b, capacitor, ring`start, ring`end, ring`buffers, ring.slots, ring.buffers
      ensures Valid() && fresh(ring.buffers - old(ring.buffers)) && (capacitor == null || capacitor == old(capacitor))
      ensures result.Thrown? <==> old(Replaying() && Kept() == [])
      ensures result.Thrown? ==> !Replaying() && Future() == old(Future()) && b[..] == old(b[..])
      ensures result.Returned? && (!old(Replaying()) || (len > 0 && (off == 0 || len <= |old(ToReplay())|))) ==>
                Delivers(b, off, len, result.value)
      ensures result.Returned? && old(Replaying()) && len > 0 ==> Continues(b, off, len, result.value)
      ensures old(Replaying()) && result.Returned? && len == 0 ==>
                result.value == 0 && Future() == old(input.rest) && b[..] == old(b[..])
      ensures state == STORE ==> Kept() + Future() == old(Kept() + Future()) && result.Returned?
      ensures state == STORE ==> |Kept()| == old(|Kept()|) + if result.value < 0 then 0 else result.value
      ensures Replaying() ==> old(Replaying()) && Kept() == old(Kept())
      ensures Replaying() && result.value <= |old(ToReplay())| ==> input.rest == old(input.rest)
      ensures old(Replaying()) ==> (capacitor == null <==> len == 0 || old(ToReplay()) == [])
      ensures old(capacitor) != null && capacitor == null ==> old(capacitor).GaveBack()
    {
      hide Capacitor.GaveBack;
      hide Ring.Valid;
      hide Capacitor.Reading;
      hide Capacitor.Writing;
      hide Spliced;
      hide Delivers;
      hide Continues;
      hide Future;
      if capacitor == null {
        var count := ReadPlain(b, off, len);
        result := Returned(count);
      } else if state == STORE {
        var count := ReadStoring(b, off, len);
        result := Returned(count);
      } else {
        result := ReadInPlace(b, off, len);
      }
    }

    /**
     Bytes read from here on are kept. A second mark while storing does not move the mark; a mark during replay
     forgets the bytes not yet replayed; a mark after it throws.
     */
    method Mark() returns (result: Outcome<()>)
      requires Valid()
      modifies this`state, this`capacitor, capacitor, ring`capacitors, ring`end, ring.slots, ring.buffers
      ensures Valid()
      ensures result.Thrown? <==> old(state == READ && capacitor == null)
      ensures result.Thrown? ==> state == old(state) && Future() == old(Future())
      ensures capacitor == old(capacitor) || fresh(capacitor)
      ensures result.Returned? ==> state == STORE && Future() == old(input.rest)
      ensures result.Returned? ==> Kept() == if old(state) == STORE then old(Kept()) else []
      ensures result.Returned? && old(state) == READ ==> capacitor == old(capacitor) && capacitor.GaveBack()
    {
      hide Ring.Valid;
      hide Capacitor.Reading;
      hide Capacitor.Writing;
      match state {
        case NONE =>
          capacitor := new Capacitor(ring);
        case STORE =>
        case READ =>
          if capacitor == null {
            return Thrown;
          }
          capacitor.ChunksAreOurs();
          capacitor.Done();
      }
      state := STORE;
      result := Returned(());
    }

    /** Back to the mark: all kept bytes again, and then what the stream underneath has left. */
    method Reset() returns (result: Outcome<()>)
      requires Valid()
      modifies this`state, capacitor, ring.buffers
      ensures Valid() && Kept() == old(Kept()) && capacitor == old(capacitor) && input.rest == old(input.rest)
      ensures result.Thrown? <==> capacitor == null
      ensures result.Thrown? ==> state == old(state)
      ensures result.Returned? ==> state == READ && Future() == Kept() + input.rest
    {
      hide Ring.Valid;
      hide Capacitor.Reading;
      hide Capacitor.Writing;
      hide Capacitor.Unread;
      hide Capacitor.Stores;
      if capacitor == null {
        return Thrown;
      }
      capacitor.ChunksAreOurs();
      match state {
        case STORE =>
          capacitor.SetForRead();
          state := READ;
        case READ =>
          capacitor.Reset();
      }
      result := Returned(());
    }
  }

  lemma NothingSpliced(was: seq<Byte>, now: seq<Byte>, off: nat, part: seq<Byte>)
    requires part == [] && Spliced(was, now, off, part)
    ensures was == now
  {
  }

  /** As many kept bytes as wanted, and then bytes from underneath. */
  ghost predicate FromBoth(was: seq<Byte>, now: seq<Byte>, off: nat, kept: seq<Byte>, rest: seq<Byte>, len: nat,
                           count: nat) {
    var c := if len <= |kept| then len else |kept|;
    c <= count <= c + |rest| && Placed(was, now, off, kept[..c], rest[..count - c])
  }

  /** `first` is written from `off` on, and then `second` from the length of `first` on. */
  ghost predicate Placed(was: seq<Byte>, now: seq<Byte>, off: nat, first: seq<Byte>, second: seq<Byte>) {
    && |now| == |was| && off + |first| <= |was| && |first + second| <= |was|
    && forall k :: 0 <= k < |was| ==>
         now[k] == if |first| <= k < |first| + |second| then second[k - |first|]
                   else if off <= k < off + |first| then first[k - off] else was[k]
  }

  lemma BothPlaced(was: seq<Byte>, mid: seq<Byte>, now: seq<Byte>, off: nat, first: seq<Byte>, second: seq<Byte>)
    requires Spliced(was, mid, off, first) && Spliced(mid, now, |first|, second)
    ensures Placed(was, now, off, first, second)
  {
  }

  lemma NothingFollows(was: seq<Byte>, now: seq<Byte>, off: nat, first: seq<Byte>)
    requires Spliced(was, now, off, first)
    ensures Placed(was, now, off, first, [])
  {
  }

  /** Written from the front of the array on, or with nothing after it, all is in place. */
  lemma PlacedInOrder(was: seq<Byte>, now: seq<Byte>, off: nat, first: seq<Byte>, after: seq<Byte>, rest: seq<Byte>,
                      total: nat)
    requires |first| <= total <= |first| + |rest| && Placed(was, now, off, first, rest[..total - |first|])
    requires total == |first| || (off == 0 && after == [] + rest)
    ensures total <= |first + after| && Spliced(was, now, off, (first + after)[..total])
  {
    if total == |first| {
      assert (first + after)[..total] == first;
    } else {
      assert (first + after)[..total] == first + rest[..total - |first|];
    }
  }

  lemma InPlace(was: seq<Byte>, now: seq<Byte>, off: nat, kept: seq<Byte>, rest: seq<Byte>, len: nat, count: nat)
    requires FromBoth(was, now, off, kept, rest, len, count) && count <= len && (off == 0 || len <= |kept|)
    ensures count <= |kept + rest| && Spliced(was, now, off, (kept + rest)[..count])
  {
    var c := if len <= |kept| then len else |kept|;
    assert kept[..c] + (kept[c..] + rest) == kept + rest;
    assert c == |kept| ==> kept[c..] + rest == [] + rest;
    PlacedInOrder(was, now, off, kept[..c], kept[c..] + rest, rest, count);
  }

  /** As long as the kept bytes suffice, they are what is due. */
  lemma WithinKept(was: seq<Byte>, now: seq<Byte>, off: nat, kept: seq<Byte>, rest: seq<Byte>, n: nat)
    requires n <= |kept| && Spliced(was, now, off, kept[..n])
    ensures Placed(was, now, off, kept[..n], rest[..0])
    ensures kept[n..] + rest == (kept + rest)[n..]
    ensures n == 0 ==> was == now
  {
    assert (kept + rest)[..n] == kept[..n];
  }

  lemma StoringReadsOn(s: BufferedServletInputStream)
    requires s.Valid() && s.state == STORE
    ensures s.capacitor != null && s.Future() == s.input.rest
  {
  }

  /** One read of `size` bytes into an array of that size. */
  method ReadOne(s: BufferedServletInputStream, size: nat) returns (got: seq<Byte>, ended: bool)
    requires s.Valid() && !(s.Replaying() && s.Kept() == []) && size > 0
    modifies s`capacitor, s.input, s.capacitor, s.ring`start, s.ring`end, s.ring`buffers, s.ring.slots, s.ring.buffers
    ensures s.Valid() && fresh(s.ring.buffers - old(s.ring.buffers))
            && (s.capacitor == null || s.capacitor == old(s.capacitor))
    ensures !(s.Replaying() && s.Kept() == [])
    ensures got + s.Future() == old(s.Future())
    ensures if ended then got == s.Future() == [] else got != []
    ensures s.state == STORE ==> s.Kept() == old(s.Kept()) + got
  {
    hide BufferedServletInputStream.Valid;
    hide BufferedServletInputStream.ToReplay;
    hide BufferedServletInputStream.Future;
    hide Capacitor.Unread;
    ghost var due, kept := s.Future(), s.Kept();
    var b := new Byte[size](_ => 0);
    var result := s.Read(b, 0, size);
    ended := result.value < 0;
    if ended {
      got := [];
    } else {
      got := b[..result.value];
      assert got == due[..result.value];
      assert s.state == STORE ==> s.Kept() == (kept + due)[..|kept| + result.value];
    }
  }

  /** Reads of the given sizes, one after the other, until the end. */
  method ReadAll(s: BufferedServletInputStream, sizes: seq<nat>) returns (got: seq<Byte>, ended: bool)
    requires s.Valid() && !(s.Replaying() && s.Kept() == []) && forall n :: n in sizes ==> n > 0
    modifies s`capacitor, s.input, s.capacitor, s.ring`start, s.ring`end, s.ring`buffers, s.ring.slots, s.ring.buffers
    ensures s.Valid() && fresh(s.ring.buffers - old(s.ring.buffers))
            && (s.capacitor == null || s.capacitor == old(s.capacitor))
    ensures got + s.Future() == old(s.Future())
    ensures ended ==> s.Future() == []
    ensures !ended ==> |got| >= |sizes|
    ensures s.state == STORE ==> s.Kept() == old(s.Kept()) + got
  {
    hide BufferedServletInputStream.Valid;
    hide BufferedServletInputStream.ToReplay;
    hide BufferedServletInputStream.Kept;
    hide BufferedServletInputStream.Future;
    got, ended := [], false;
    var i := 0;
    while i < |sizes| && !ended
      invariant 0 <= i <= |sizes| && s.Valid() && got + s.Future() == old(s.Future())
      invariant !(s.Replaying() && s.Kept() == [])
      invariant fresh(s.ring.buffers - old(s.ring.buffers)) && (s.capacitor == null || s.capacitor == old(s.capacitor))
      invariant ended ==> s.Future() == []
      invariant !ended ==> |got| >= i
      invariant s.state == STORE ==> s.Kept() == old(s.Kept()) + got
    {
      assert sizes[i] in sizes;
      var part, done := ReadOne(s, sizes[i]);
      got, ended := got + part, done;
      i := i + 1;
    }
  }

  /**
   The purpose of the class: mark a fresh stream, read some, reset, and read on. What comes after the reset is what
   came before it and then the rest; read to the end, it is the whole stream once more.
   */
  method Replayed(input: ByteSource, ring: Ring, before: seq<nat>, after: seq<nat>)
      returns (first: seq<Byte>, second: seq<Byte>, ended: bool)
    requires ring.Valid() && input.rest != [] && before != []
    requires (forall n :: n in before ==> n > 0) && forall n :: n in after ==> n > 0
    modifies input, ring`start, ring`end, ring`buffers, ring`capacitors, ring.slots, ring.buffers
    ensures first <= old(input.rest) && second <= old(input.rest)
    ensures !ended ==> |second| >= |after|
    ensures ended ==> second == old(input.rest)
  {
    hide BufferedServletInputStream.Valid;
    hide BufferedServletInputStream.Kept;
    hide BufferedServletInputStream.ToReplay;
    hide BufferedServletInputStream.Future;
    var s := new BufferedServletInputStream(input, ring);
    var marked := s.Mark();
    var over;
    first, over := ReadAll(s, before);
    StoringReadsOn(s);
    assert first + s.Future() == old(input.rest);
    var reset := s.Reset();
    assert s.Future() == old(input.rest);
    second, ended := ReadAll(s, after);
    assert second + s.Future() == old(input.rest);
  }
}
