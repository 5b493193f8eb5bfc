/**
 Deriving a new codeset from a key (`Symm.obtain(byte[])`): key bytes, read in strides, name slots; each
 remaining character goes to the nearest open slot, to the right and to the left in turn.
 */
module KeyShuffle {
  import opened Wrappers
  import opened Codeset

  /** The least key that a stride can be read from. */
  const MIN_KEY := 13

  /** The least key that is taken from a key file: 2048 bits of base64. */
  const FILE_KEY := 0x88

  const OPEN: Char16 := 0

  // ---------------------------------------------------------------- the draws

  function Modulo(a: nat, n: nat): (r: nat)
    requires n > 0
    ensures r < n && r <= a
  {
    a % n
  }

  /**
   The stride through the key: the magnitude of its thirteenth byte from the end, or one more, so that it differs from
   the key length in parity.
   */
  function Stride(key: seq<Byte>): (r: nat)
    requires |key| >= MIN_KEY
    ensures r <= 129 && r % 2 != |key| % 2
    ensures var skip := AbsByte(key[|key| - 13]); |key| > 128 ==> skip <= r <= skip + 1
    ensures var skip := AbsByte(key[|key| - 13]) % |key|; skip <= r <= skip + 1
  {
    var skip := Modulo(AbsByte(key[|key| - 13]), |key|);
    if |key| % 2 == skip % 2 then skip + 1 else skip
  }

  /** Java's remainder, which takes the sign of the dividend. */
  function JavaRem(p: int, n: int): int
    requires n > 0
  {
    if p >= 0 then p % n else -((-p) % n)
  }

  /**
   `Obtain.next`: the slot drawn with counter `last`; None when the `int` product has turned into a negative index.
   */
  function Draw(key: seq<Byte>, last: nat, length: nat): (r: Option<nat>)
    requires |key| >= MIN_KEY && length > 0
    ensures r.Some? ==> r.value < length
  {
    var index := JavaRem(Int32(last * Stride(key)), |key|);
    if index < 0 then None else Some(AbsByte(key[index]) % length)
  }

  /** A stream of draws, indexed by the counter; None ends the run. */
  type Draws = nat -> Option<nat>

  ghost predicate Below(draws: Draws, length: nat) {
    forall last: nat :: draws(last).Some? ==> draws(last).value < length
  }

  function KeyDraws(key: seq<Byte>, length: nat): (r: Draws)
    requires |key| >= MIN_KEY && length > 0
    ensures Below(r, length)
  {
    (last: nat) => Draw(key, last, length)
  }

  /** The last counter whose product still fits an `int`. */
  function LastFitting(skip: nat): nat
    requires skip > 0
  {
    0x7FFF_FFFF / skip
  }

  lemma FittingBounds(skip: nat)
    requires skip > 0
    ensures var p := (LastFitting(skip) + 1) * skip; 0x7FFF_FFFF < p <= 0x7FFF_FFFF + skip
  {
    var l := LastFitting(skip);
    assert 0x7FFF_FFFF == skip * l + 0x7FFF_FFFF % skip;
    assert (l + 1) * skip == skip * l + skip;
  }

  /** A product between 2^31 and 2^32 draws nothing unless its complement is a multiple of the key length. */
  lemma OverflowedDraw(key: seq<Byte>, last: nat, length: nat, p: nat)
    requires |key| >= MIN_KEY && length > 0 && last * Stride(key) == p
    requires 0x8000_0000 <= p < 0x1_0000_0000
    ensures Draw(key, last, length).Some? <==> (0x1_0000_0000 - p) % |key| == 0
  {
    Wrapped(p);
  }

  /** Once the product overflows, at most one more draw succeeds. */
  lemma DrawsEnd(key: seq<Byte>, length: nat)
    requires |key| >= MIN_KEY && length > 0 && Stride(key) > 0
    ensures var l := LastFitting(Stride(key)); Draw(key, l + 1, length).Some? ==> Draw(key, l + 2, length).None?
  {
    var skip := Stride(key);
    var l := LastFitting(skip);
    var p := (l + 1) * skip;
    FittingBounds(skip);
    OverflowedDraw(key, l + 1, length, p);
    assert (l + 2) * skip == p + skip;
    OverflowedDraw(key, l + 2, length, p + skip);
    var a, b := 0x1_0000_0000 - p, 0x1_0000_0000 - p - skip;
    if a % |key| == 0 && b % |key| == 0 {
      DividesDifference(a, b, |key|);
    }
  }

  lemma Wrapped(p: int)
    requires 0x8000_0000 <= p < 0x1_0000_0000
    ensures Int32(p) == p - 0x1_0000_0000
  {
  }

  lemma MultipleAtLeast(n: nat, d: int)
    requires n > 0 && n * d > 0
    ensures n * d >= n
  {
    assert d > 0;
    assert n * d == n + n * (d - 1);
  }

  lemma DividesDifference(a: nat, b: nat, n: nat)
    requires n > 0 && b < a && a % n == 0 && b % n == 0
    ensures a - b >= n
  {
    var p, q := a / n, b / n;
    assert a == n * p by { assert a == n * (a / n) + a % n; }
    assert b == n * q by { assert b == n * (b / n) + b % n; }
    assert n * (p - q) == n * p - n * q;
    MultipleAtLeast(n, p - q);
  }

  // ---------------------------------------------------------------- the slots

  /** The nearest open slot at or after `j`. */
  function NearestRight(slots: seq<Char16>, j: nat): (r: Option<nat>)
    requires j <= |slots|
    ensures r.Some? ==>
              && j <= r.value < |slots| && slots[r.value] == OPEN
              && forall k :: j <= k < r.value ==> slots[k] != OPEN
    ensures r.None? <==> forall k :: j <= k < |slots| ==> slots[k] != OPEN
    decreases |slots| - j
  {
    if j == |slots| then None else if slots[j] == OPEN then Some(j) else NearestRight(slots, j + 1)
  }

  /** The nearest open slot at or before `j`. */
  function NearestLeft(slots: seq<Char16>, j: int): (r: Option<nat>)
    requires -1 <= j < |slots|
    ensures r.Some? ==> r.value <= j && slots[r.value] == OPEN && forall k :: r.value < k <= j ==> slots[k] != OPEN
    ensures r.None? <==> forall k :: 0 <= k <= j ==> slots[k] != OPEN
    decreases j + 1
  {
    if j < 0 then None else if slots[j] == OPEN then Some(j) else NearestLeft(slots, j - 1)
  }

  function Nearest(slots: seq<Char16>, index: nat, right: bool): (r: Option<nat>)
    requires index < |slots|
    ensures r.Some? ==> r.value < |slots| && slots[r.value] == OPEN
  {
    if right then NearestRight(slots, index) else NearestLeft(slots, index)
  }

  datatype State = State(slots: seq<Char16>, filled: int, right: bool, last: nat) | Crashed

  /** Between rounds: as many slots are open as characters remain. */
  ghost predicate WellFormed(cs: seq<Char16>, st: State) {
    st.State? ==> |st.slots| == |cs| && -1 <= st.filled < |cs|
  }

  function Start(cs: seq<Char16>): State {
    State(seq(|cs|, _ => OPEN), |cs| - 1, true, 17 + |cs| % 59)
  }

  predicate Stopped(st: State) {
    st.Crashed? || st.filled < 0
  }

  /** One round of the fill loop. */
  function Round(cs: seq<Char16>, draws: Draws, st: State): (r: State)
    requires |cs| > 0 && Below(draws, |cs|) && WellFormed(cs, st)
    ensures WellFormed(cs, r)
  {
    if Stopped(st) then st
    else
      match draws(st.last + 1)
      case None => Crashed
      case Some(index) =>
        match Nearest(st.slots, index, st.right)
        case None => State(st.slots, st.filled, !st.right, st.last + 1)
        case Some(j) => State(st.slots[j := cs[st.filled]], st.filled - 1, !st.right, st.last + 1)
  }

  function After(cs: seq<Char16>, draws: Draws, n: nat): (r: State)
    requires |cs| > 0 && Below(draws, |cs|)
    ensures WellFormed(cs, r)
  {
    if n == 0 then Start(cs) else Round(cs, draws, After(cs, draws, n - 1))
  }

  // ---------------------------------------------------------------- what the rounds keep

  /** The characters placed so far, and as many open slots as characters remain. */
  ghost predicate Conserves(cs: seq<Char16>, st: State) {
    st.State? && -1 <= st.filled < |cs| ==> multiset(st.slots) == multiset(cs[st.filled + 1..])[OPEN := st.filled + 1]
  }

  ghost predicate NoNul(cs: seq<Char16>) {
    OPEN !in cs
  }

  lemma {:induction false} ZerosMultiset(n: nat)
    ensures multiset(seq(n, _ => OPEN)) == multiset{}[OPEN := n]
  {
    if n > 0 {
      ZerosMultiset(n - 1);
      assert seq(n, _ => OPEN) == seq(n - 1, _ => OPEN) + [OPEN];
    }
  }

  /** Placing one character swaps an open slot for it in the multiset of slots. */
  lemma PlaceConserves(cs: seq<Char16>, slots: seq<Char16>, filled: nat, j: nat)
    requires NoNul(cs) && filled < |cs| && j < |slots| && slots[j] == OPEN
    requires multiset(slots) == multiset(cs[filled + 1..])[OPEN := filled + 1]
    ensures multiset(slots[j := cs[filled]]) == multiset(cs[filled..])[OPEN := filled]
  {
    var c := cs[filled];
    assert c in cs;
    assert cs[filled..] == [c] + cs[filled + 1..];
    assert multiset(slots[j := c]) == multiset(slots) - multiset{OPEN} + multiset{c};
  }

  lemma PlacedConserves(cs: seq<Char16>, st: State, j: nat, right: bool, last: nat)
    requires NoNul(cs) && WellFormed(cs, st) && Conserves(cs, st) && st.State? && 0 <= st.filled
    requires j < |st.slots| && st.slots[j] == OPEN
    ensures Conserves(cs, State(st.slots[j := cs[st.filled]], st.filled - 1, right, last))
  {
    PlaceConserves(cs, st.slots, st.filled, j);
  }

  lemma RoundConserves(cs: seq<Char16>, draws: Draws, st: State)
    requires |cs| > 0 && Below(draws, |cs|) && NoNul(cs) && WellFormed(cs, st) && Conserves(cs, st)
    ensures Conserves(cs, Round(cs, draws, st))
  {
    hide NoNul;
    hide Nearest;
    if !Stopped(st) && draws(st.last + 1).Some? {
      var index := draws(st.last + 1).value;
      match Nearest(st.slots, index, st.right)
      case None => assert Conserves(cs, State(st.slots, st.filled, !st.right, st.last + 1));
      case Some(j) => PlacedConserves(cs, st, j, !st.right, st.last + 1);
    }
  }

  /** After any number of rounds the slots hold exactly the characters placed so far. */
  lemma {:induction false} AfterConserves(cs: seq<Char16>, draws: Draws, n: nat)
    requires |cs| > 0 && Below(draws, |cs|) && NoNul(cs)
    ensures Conserves(cs, After(cs, draws, n))
  {
    if n == 0 {
      ZerosMultiset(|cs|);
      assert cs[|cs|..] == [];
    } else {
      AfterConserves(cs, draws, n - 1);
      RoundConserves(cs, draws, After(cs, draws, n - 1));
    }
  }

  /** A finished fill is a permutation of the codeset. */
  lemma FilledIsPermutation(cs: seq<Char16>, draws: Draws, n: nat)
    requires |cs| > 0 && Below(draws, |cs|) && NoNul(cs)
    requires After(cs, draws, n).State? && After(cs, draws, n).filled < 0
    ensures multiset(After(cs, draws, n).slots) == multiset(cs)
  {
    AfterConserves(cs, draws, n);
    assert cs[0..] == cs;
    assert multiset(cs)[OPEN := 0] == multiset(cs);
  }

  /** A round that draws a slot leaves everything as it is exactly when every slot on its side is taken. */
  lemma RoundMissesIff(cs: seq<Char16>, draws: Draws, st: State)
    requires |cs| > 0 && Below(draws, |cs|) && WellFormed(cs, st) && NoNul(cs) && !Stopped(st)
    requires draws(st.last + 1).Some?
    ensures var next, index := Round(cs, draws, st), draws(st.last + 1).value;
            && next.State? && next.filled in {st.filled, st.filled - 1}
            && (next.filled == st.filled <==> next.slots == st.slots)
            && (next.filled == st.filled <==>
                forall k :: 0 <= k < |cs| && (if st.right then index <= k else k <= index) ==> st.slots[k] != OPEN)
  {
    assert cs[st.filled] in cs;
  }

  lemma {:induction false} StaysStopped(cs: seq<Char16>, draws: Draws, n: nat, m: nat)
    requires |cs| > 0 && Below(draws, |cs|) && n <= m && Stopped(After(cs, draws, n))
    ensures After(cs, draws, m) == After(cs, draws, n)
    decreases m
  {
    if n < m {
      StaysStopped(cs, draws, n, m - 1);
    }
  }

  /** However long the loop is run, it can stop in one state only. */
  lemma StopsOnce(cs: seq<Char16>, draws: Draws, n: nat, m: nat)
    requires |cs| > 0 && Below(draws, |cs|) && Stopped(After(cs, draws, n)) && Stopped(After(cs, draws, m))
    ensures After(cs, draws, n) == After(cs, draws, m)
  {
    if n <= m {
      StaysStopped(cs, draws, n, m);
    } else {
      StaysStopped(cs, draws, m, n);
    }
  }

  /** A slot once taken keeps its character. */
  lemma {:induction false} TakenStays(cs: seq<Char16>, draws: Draws, n: nat, m: nat, k: nat)
    requires |cs| > 0 && Below(draws, |cs|) && n <= m && k < |cs|
    requires After(cs, draws, m).State?
    ensures After(cs, draws, n).State?
    ensures After(cs, draws, n).slots[k] != OPEN ==>
              After(cs, draws, m).slots[k] == After(cs, draws, n).slots[k]
    decreases m
  {
    if n < m {
      TakenStays(cs, draws, n, m - 1, k);
    }
  }

  // ---------------------------------------------------------------- which keys finish

  /** The counter of round `i`. */
  function Counter(length: nat, i: nat): nat {
    18 + length % 59 + i
  }

  lemma RoundShape(cs: seq<Char16>, draws: Draws, st: State)
    requires |cs| > 0 && Below(draws, |cs|) && WellFormed(cs, st) && !Stopped(Round(cs, draws, st))
    ensures var next := Round(cs, draws, st);
            !Stopped(st) && next.last == st.last + 1 && next.right == !st.right && draws(next.last).Some?
  {
  }

  /** Round `n` of any run draws from its counter. */
  lemma {:induction false} AfterCounter(cs: seq<Char16>, draws: Draws, n: nat)
    requires |cs| > 0 && Below(draws, |cs|) && !Stopped(After(cs, draws, n))
    ensures After(cs, draws, n).last + 1 == Counter(|cs|, n)
  {
    hide Round;
    hide WellFormed;
    if n > 0 {
      RoundShape(cs, draws, After(cs, draws, n - 1));
      AfterCounter(cs, draws, n - 1);
    }
  }

  /** Even rounds go right, odd rounds left. */
  lemma {:induction false} AfterDirection(cs: seq<Char16>, draws: Draws, n: nat)
    requires |cs| > 0 && Below(draws, |cs|) && !Stopped(After(cs, draws, n))
    ensures After(cs, draws, n).right <==> n % 2 == 0
  {
    hide Round;
    hide WellFormed;
    if n > 0 {
      RoundShape(cs, draws, After(cs, draws, n - 1));
      AfterDirection(cs, draws, n - 1);
      assert n % 2 == 0 <==> (n - 1) % 2 != 0;
    }
  }

  /** While the product fits an `int`, the draw is the magnitude of the key byte that many strides on. */
  lemma FittingDraw(key: seq<Byte>, last: nat, length: nat, p: nat)
    requires |key| >= MIN_KEY && length > 0 && last * Stride(key) == p && p <= 0x7FFF_FFFF
    ensures p % |key| < |key| && Draw(key, last, length) == Some(AbsByte(key[p % |key|]) % length)
  {
    DrawAt(key, last, length, p);
    assert Int32(p) == p;
  }

  /** There is no open slot from `a` up to but not including `b`. */
  ghost predicate AllTaken(slots: seq<Char16>, a: int, b: int) {
    forall k :: a <= k < b && 0 <= k < |slots| ==> slots[k] != OPEN
  }

  /**
   Round `n` of the fill loop, read off the key: it starts from slot `c`, the magnitude of the key byte at the counter
   `18 + |cs| % 59 + n` times the stride, and puts the next character, counted from the end of the codeset, into the
   nearest open slot, from `c` upwards in even rounds and from `c` downwards in odd ones.
   */
  lemma RoundFromKey(cs: seq<Char16>, key: seq<Byte>, n: nat)
    requires |key| >= MIN_KEY && |cs| > 0 && !Stopped(After(cs, KeyDraws(key, |cs|), n))
    requires (18 + |cs| % 59 + n) * Stride(key) <= 0x7FFF_FFFF
    ensures var st, next := After(cs, KeyDraws(key, |cs|), n), After(cs, KeyDraws(key, |cs|), n + 1);
            var c := AbsByte(key[(18 + |cs| % 59 + n) * Stride(key) % |key|]) % |cs|;
            && next.State?
            && ((if n % 2 == 0 then AllTaken(st.slots, c, |cs|) else AllTaken(st.slots, 0, c + 1)) ==>
                  next.slots == st.slots && next.filled == st.filled)
            && forall j :: 0 <= j < |cs| && st.slots[j] == OPEN
                           && (if n % 2 == 0 then c <= j && AllTaken(st.slots, c, j)
                               else j <= c && AllTaken(st.slots, j + 1, c + 1)) ==>
                 next.slots == st.slots[j := cs[st.filled]] && next.filled == st.filled - 1
  {
    hide Stride, Draw, Round, AbsByte;
    var draws := KeyDraws(key, |cs|);
    AfterCounter(cs, draws, n);
    AfterDirection(cs, draws, n);
    FittingDraw(key, Counter(|cs|, n), |cs|, Counter(|cs|, n) * Stride(key));
    RoundPlaces(cs, draws, After(cs, draws, n));
  }

  /** What a round that draws a slot does: the next character into the nearest open slot on its side. */
  lemma RoundPlaces(cs: seq<Char16>, draws: Draws, st: State)
    requires |cs| > 0 && Below(draws, |cs|) && WellFormed(cs, st) && !Stopped(st) && draws(st.last + 1).Some?
    ensures var c, next := draws(st.last + 1).value, Round(cs, draws, st);
            && next.State?
            && ((if st.right then AllTaken(st.slots, c, |cs|) else AllTaken(st.slots, 0, c + 1)) ==>
                  next.slots == st.slots && next.filled == st.filled)
            && forall j :: 0 <= j < |cs| && st.slots[j] == OPEN
                           && (if st.right then c <= j && AllTaken(st.slots, c, j)
                               else j <= c && AllTaken(st.slots, j + 1, c + 1)) ==>
                 next.slots == st.slots[j := cs[st.filled]] && next.filled == st.filled - 1
  {
    hide NearestRight, NearestLeft;
  }

  /** The last character of the codeset goes to the slot that the first draw names, and stays there. */
  lemma FirstPlaced(cs: seq<Char16>, key: seq<Byte>, n: nat, r: seq<Char16>)
    requires |key| >= MIN_KEY && |cs| > 0 && NoNul(cs) && Outcome(cs, key, n, Some(r))
    ensures |r| == |cs|
    ensures r[AbsByte(key[(18 + |cs| % 59) * Stride(key) % |key|]) % |cs|] == cs[|cs| - 1]
  {
    hide Stride, Draw, Round;
    var draws := KeyDraws(key, |cs|);
    SmallProduct(18 + |cs| % 59, Stride(key));
    RoundFromKey(cs, key, 0);
    var c := AbsByte(key[(18 + |cs| % 59) * Stride(key) % |key|]) % |cs|;
    assert Start(cs).slots[c] == OPEN && AllTaken(Start(cs).slots, c, c);
    assert After(cs, draws, 1).slots[c] == cs[|cs| - 1];
    assert cs[|cs| - 1] in cs;
    if n > 0 {
      TakenStays(cs, draws, 1, n, c);
    }
  }

  lemma SmallProduct(a: nat, b: nat)
    requires a <= 0xFF && b <= 129
    ensures a * b <= 0x7FFF_FFFF
  {
    assert a * b <= 0xFF * b;
  }

  /** Round `i`, if it is reached, would fill slot `k` or another one in its stead. */
  predicate Reaches(draws: Draws, length: nat, i: nat, k: nat)
    requires length > 0
  {
    match draws(Counter(length, i))
    case None => false
    case Some(index) => if i % 2 == 0 then index <= k else k <= index
  }

  /** How many of the first `n` rounds reach slot `k`. */
  function Hits(draws: Draws, length: nat, n: nat, k: nat): nat
    requires length > 0
  {
    if n == 0 then 0 else Hits(draws, length, n - 1, k) + if Reaches(draws, length, n - 1, k) then 1 else 0
  }

  lemma OpenSlotRound(cs: seq<Char16>, draws: Draws, st: State, k: nat)
    requires |cs| > 0 && Below(draws, |cs|) && NoNul(cs) && k < |cs| && WellFormed(cs, st)
    requires !Stopped(Round(cs, draws, st)) && Round(cs, draws, st).slots[k] == OPEN
    ensures !Stopped(st) && st.slots[k] == OPEN && draws(st.last + 1).Some?
    ensures var next, index := Round(cs, draws, st), draws(st.last + 1).value;
            && next.filled <= st.filled
            && ((if st.right then index <= k else k <= index) ==> next.filled == st.filled - 1)
  {
    assert st.filled >= 0 ==> cs[st.filled] in cs;
  }

  /** Round `n` places a character when it reaches a slot that stays open. */
  lemma OpenSlotStep(cs: seq<Char16>, draws: Draws, n: nat, k: nat)
    requires |cs| > 0 && Below(draws, |cs|) && NoNul(cs) && k < |cs|
    requires !Stopped(After(cs, draws, n + 1)) && After(cs, draws, n + 1).slots[k] == OPEN
    ensures !Stopped(After(cs, draws, n)) && After(cs, draws, n).slots[k] == OPEN
    ensures After(cs, draws, n + 1).filled <= After(cs, draws, n).filled - if Reaches(draws, |cs|, n, k) then 1 else 0
  {
    var st := After(cs, draws, n);
    OpenSlotRound(cs, draws, st, k);
    AfterCounter(cs, draws, n);
    AfterDirection(cs, draws, n);
    assert draws(Counter(|cs|, n)) == draws(st.last + 1);
  }

  /** While a slot stays open, every round that reaches it places a character. */
  lemma {:induction false} OpenSlotBound(cs: seq<Char16>, draws: Draws, n: nat, k: nat)
    requires |cs| > 0 && Below(draws, |cs|) && NoNul(cs) && k < |cs|
    requires !Stopped(After(cs, draws, n)) && After(cs, draws, n).slots[k] == OPEN
    ensures Hits(draws, |cs|, n, k) <= |cs| - 1 - After(cs, draws, n).filled
  {
    if n == 0 {
      assert After(cs, draws, 0) == Start(cs);
    } else {
      OpenSlotStep(cs, draws, n - 1, k);
      OpenSlotBound(cs, draws, n - 1, k);
      assert Hits(draws, |cs|, n, k) == Hits(draws, |cs|, n - 1, k) + if Reaches(draws, |cs|, n - 1, k) then 1 else 0;
    }
  }

  lemma OpenSlotExists(cs: seq<Char16>, draws: Draws, n: nat) returns (k: nat)
    requires |cs| > 0 && Below(draws, |cs|) && NoNul(cs) && !Stopped(After(cs, draws, n))
    ensures k < |cs| && After(cs, draws, n).slots[k] == OPEN
  {
    AfterConserves(cs, draws, n);
    var st := After(cs, draws, n);
    assert OPEN in multiset(st.slots);
    k :| 0 <= k < |st.slots| && st.slots[k] == OPEN;
  }

  /**
   A key whose draws reach every slot as often as there are characters, before the product overflows,
   fills the whole codeset.
   */
  lemma CoveringKeyFinishes(cs: seq<Char16>, draws: Draws, n: nat)
    requires |cs| > 0 && Below(draws, |cs|) && NoNul(cs)
    requires forall i: nat :: i < n ==> draws(Counter(|cs|, i)).Some?
    requires forall k: nat :: k < |cs| ==> Hits(draws, |cs|, n, k) >= |cs|
    ensures After(cs, draws, n).State? && After(cs, draws, n).filled < 0
  {
    NeverCrashes(cs, draws, n, n);
    if !Stopped(After(cs, draws, n)) {
      var k := OpenSlotExists(cs, draws, n);
      OpenSlotBound(cs, draws, n, k);
    }
  }

  lemma RoundCrashes(cs: seq<Char16>, draws: Draws, st: State)
    requires |cs| > 0 && Below(draws, |cs|) && WellFormed(cs, st) && st.State?
    ensures Round(cs, draws, st).Crashed? ==> !Stopped(st) && draws(st.last + 1).None?
  {
  }

  lemma {:induction false} NeverCrashes(cs: seq<Char16>, draws: Draws, n: nat, m: nat)
    requires |cs| > 0 && Below(draws, |cs|) && m <= n
    requires forall i: nat :: i < n ==> draws(Counter(|cs|, i)).Some?
    ensures After(cs, draws, m).State?
  {
    hide Round;
    hide WellFormed;
    if m > 0 {
      NeverCrashes(cs, draws, n, m - 1);
      var st := After(cs, draws, m - 1);
      RoundCrashes(cs, draws, st);
      if !Stopped(st) {
        AfterCounter(cs, draws, m - 1);
        assert draws(Counter(|cs|, m - 1)).Some?;
      }
      AfterNext(cs, draws, m - 1);
    }
  }

  /** A legal key that always draws slot 60 when going right and slot 3 when going left. */
  function StuckKey(): (key: seq<Byte>)
    ensures |key| == FILE_KEY && forall i :: 0 <= i < FILE_KEY ==> key[i] == if i % 2 == 1 then 60 else 3
  {
    seq(FILE_KEY, i => if i % 2 == 1 then 60 else 3)
  }

  lemma EvenShift(a: int, m: int)
    ensures (a - 2 * m) % 2 == a % 2
  {
  }

  lemma WrapParity(p: int)
    ensures Int32(p) % 2 == p % 2
  {
    var q := (p + 0x8000_0000) / 0x1_0000_0000;
    var m := q * 0x8000_0000;
    assert Int32(p) == p - 2 * m;
    EvenShift(p, m);
  }

  lemma RemParity(w: int)
    ensures JavaRem(w, FILE_KEY) % 2 == w % 2
  {
    var n := if w >= 0 then w else -w;
    var q := n / FILE_KEY;
    var m := n % FILE_KEY;
    assert m == n - 2 * (68 * q);
    EvenShift(n, 68 * q);
    SameParity(m);
    SameParity(n);
  }

  lemma SameParity(n: int)
    ensures (-n) % 2 == n % 2
  {
  }

  lemma DrawAt(key: seq<Byte>, last: nat, length: nat, p: nat)
    requires |key| >= MIN_KEY && length > 0 && last * Stride(key) == p
    ensures var index := JavaRem(Int32(p), |key|);
            && index < |key|
            && Draw(key, last, length) == if index < 0 then None else Some(AbsByte(key[index]) % length)
  {
  }

  lemma StuckDraw(last: nat)
    ensures var d := Draw(StuckKey(), last, 64); d.Some? ==> d.value == if last % 2 == 1 then 60 else 3
  {
    var key := StuckKey();
    assert Stride(key) == 61;
    WrapParity(last * 61);
    EvenShift(last * 61, last * 30);
    RemParity(Int32(last * 61));
    DrawAt(key, last, 64, last * 61);
  }

  /** The two slots such a stream alternates between. */
  ghost predicate Alternates(draws: Draws) {
    forall last: nat :: draws(last).Some? ==> draws(last).value == if last % 2 == 1 then 60 else 3
  }

  ghost predicate Stuck(st: State) {
    st.State? ==>
      && |st.slots| == 64 && (st.right <==> st.last % 2 == 0)
      && forall k :: 4 <= k < 60 ==> st.slots[k] == OPEN
  }

  lemma StuckRound(cs: seq<Char16>, draws: Draws, st: State)
    requires |cs| == 64 && Below(draws, 64) && Alternates(draws) && WellFormed(cs, st) && Stuck(st)
    ensures Stuck(Round(cs, draws, st))
  {
    if !Stopped(st) && draws(st.last + 1).Some? {
      var index := draws(st.last + 1).value;
      assert index == if st.right then 60 else 3;
      var j := Nearest(st.slots, index, st.right);
      assert j.Some? ==> j.value >= 60 || j.value <= 3;
    }
  }

  lemma {:induction false} StuckSlots(cs: seq<Char16>, draws: Draws, n: nat)
    requires |cs| == 64 && Below(draws, 64) && Alternates(draws)
    ensures Stuck(After(cs, draws, n))
  {
    if n > 0 {
      StuckSlots(cs, draws, n - 1);
      StuckRound(cs, draws, After(cs, draws, n - 1));
    }
  }

  /** With that key no codeset of 64 characters is ever filled, however long the loop runs. */
  lemma StuckKeyNeverFills(cs: seq<Char16>, n: nat)
    requires |cs| == 64 && NoNul(cs)
    ensures var st := After(cs, KeyDraws(StuckKey(), 64), n); st.State? ==> st.filled >= 0
  {
    var draws := KeyDraws(StuckKey(), 64);
    forall last: nat ensures draws(last).Some? ==> draws(last).value == if last % 2 == 1 then 60 else 3 {
      StuckDraw(last);
    }
    StuckSlots(cs, draws, n);
    AfterConserves(cs, draws, n);
    var st := After(cs, draws, n);
    if st.State? {
      assert st.slots[30] in multiset(st.slots);
    }
  }

  // ---------------------------------------------------------------- the loop ends

  /** Reaching round `n` takes all the draws before it. */
  lemma {:induction false} AllDrawn(cs: seq<Char16>, draws: Draws, n: nat, i: nat)
    requires |cs| > 0 && Below(draws, |cs|) && !Stopped(After(cs, draws, n)) && i < n
    ensures draws(Counter(|cs|, i)).Some?
  {
    RoundShape(cs, draws, After(cs, draws, n - 1));
    if i < n - 1 {
      AllDrawn(cs, draws, n - 1, i);
    } else {
      AfterCounter(cs, draws, n);
      assert Counter(|cs|, n) == Counter(|cs|, n - 1) + 1;
    }
  }

  /** A draw that never changes reaches every slot in one of any two rounds. */
  lemma {:induction false} ConstantHits(draws: Draws, length: nat, c: nat, m: nat, k: nat)
    requires length > 0 && forall last :: draws(last) == Some(c)
    ensures Hits(draws, length, 2 * m, k) >= m
  {
    if m > 0 {
      ConstantHits(draws, length, c, m - 1, k);
      var i := 2 * (m - 1);
      assert Reaches(draws, length, i, k) || Reaches(draws, length, i + 1, k);
      assert Hits(draws, length, i + 2, k) ==
             Hits(draws, length, i + 1, k) + if Reaches(draws, length, i + 1, k) then 1 else 0;
    }
  }

  lemma TimesZero(a: int, b: int)
    requires b == 0
    ensures a * b == 0
  {
  }

  lemma StillDraw(key: seq<Byte>, last: nat, length: nat)
    requires |key| >= MIN_KEY && length > 0 && Stride(key) == 0
    ensures Draw(key, last, length) == Some(AbsByte(key[0]) % length)
  {
    hide Stride, Draw, JavaRem, Int32;
    TimesZero(last, Stride(key));
    DrawAt(key, last, length, 0);
    ZeroIndex(|key|);
  }

  lemma ZeroIndex(n: int)
    requires n > 0
    ensures JavaRem(Int32(0), n) == 0
  {
    assert Int32(0) == 0;
  }

  lemma StillLoopEnds(cs: seq<Char16>, key: seq<Byte>)
    requires |key| >= MIN_KEY && |cs| > 0 && NoNul(cs) && Stride(key) == 0
    ensures Stopped(After(cs, KeyDraws(key, |cs|), 2 * |cs|))
  {
    var draws := KeyDraws(key, |cs|);
    var n := 2 * |cs|;
    if !Stopped(After(cs, draws, n)) {
      var c := AbsByte(key[0]) % |cs|;
      forall last: nat ensures draws(last) == Some(c) {
        StillDraw(key, last, |cs|);
      }
      var k := OpenSlotExists(cs, draws, n);
      ConstantHits(draws, |cs|, c, |cs|, k);
      OpenSlotBound(cs, draws, n, k);
    }
  }

  /** Two counters in a row cannot both draw near the overflow, so a run does not get past them. */
  lemma GapEnds(cs: seq<Char16>, draws: Draws, l: nat)
    requires |cs| > 0 && Below(draws, |cs|) && l >= 1000 && (draws(l + 1).None? || draws(l + 2).None?)
    ensures Stopped(After(cs, draws, l + 3))
  {
    if !Stopped(After(cs, draws, l + 3)) {
      var i := l + 1 - Counter(|cs|, 0);
      AllDrawn(cs, draws, l + 3, i);
      AllDrawn(cs, draws, l + 3, i + 1);
    }
  }

  lemma StridingLoopEnds(cs: seq<Char16>, key: seq<Byte>)
    requires |key| >= MIN_KEY && |cs| > 0 && Stride(key) > 0
    ensures Stopped(After(cs, KeyDraws(key, |cs|), LastFitting(Stride(key)) + 3))
  {
    DrawsEnd(key, |cs|);
    LastFittingLarge(Stride(key));
    GapEnds(cs, KeyDraws(key, |cs|), LastFitting(Stride(key)));
  }

  /** Whatever the key, the loop fills the codeset or runs into the overflow. */
  lemma LoopEnds(cs: seq<Char16>, key: seq<Byte>) returns (n: nat)
    requires |key| >= MIN_KEY && |cs| > 0 && NoNul(cs)
    ensures Stopped(After(cs, KeyDraws(key, |cs|), n))
  {
    if Stride(key) == 0 {
      StillLoopEnds(cs, key);
      n := 2 * |cs|;
    } else {
      StridingLoopEnds(cs, key);
      n := LastFitting(Stride(key)) + 3;
    }
  }

  lemma LastFittingLarge(skip: nat)
    requires 0 < skip <= 129
    ensures LastFitting(skip) >= 1000
  {
    QuotientAtLeast(0x7FFF_FFFF, skip, 1000);
  }

  lemma QuotientAtLeast(n: nat, d: nat, k: nat)
    requires d > 0 && d * k <= n
    ensures n / d >= k
  {
    var q := n / d;
    assert n == d * q + n % d;
    assert d * (q - k + 1) == d * q - d * k + d;
    Positive(d, q - k + 1);
  }

  lemma Positive(d: nat, m: int)
    requires d * m > 0
    ensures m > 0
  {
  }

  // ---------------------------------------------------------------- the loop itself

  /** The scan for an open slot, in the direction of this round; -1 when there is none. */
  method Search(slots: array<Char16>, index: nat, right: bool) returns (j: int)
    requires index < slots.Length
    ensures var near := Nearest(slots[..], index, right); j == if near.Some? then near.value else -1
  {
    j := index;
    if right {
      while j < slots.Length
        invariant index <= j <= slots.Length && NearestRight(slots[..], index) == NearestRight(slots[..], j)
      {
        if slots[j] == OPEN {
          return;
        }
        j := j + 1;
      }
      j := -1;
    } else {
      while j >= 0
        invariant -1 <= j <= index && NearestLeft(slots[..], index) == NearestLeft(slots[..], j)
      {
        if slots[j] == OPEN {
          return;
        }
        j := j - 1;
      }
    }
  }

  /** What the fill loop comes to, however many rounds it takes. */
  ghost predicate Outcome(cs: seq<Char16>, key: seq<Byte>, n: nat, r: Option<seq<Char16>>)
    requires |key| >= MIN_KEY && |cs| > 0
  {
    var st := After(cs, KeyDraws(key, |cs|), n);
    if r.Some? then st.State? && st.filled < 0 && st.slots == r.value else st.Crashed?
  }

  lemma NotYet(cs: seq<Char16>, draws: Draws, n: nat, limit: nat)
    requires |cs| > 0 && Below(draws, |cs|) && !Stopped(After(cs, draws, n)) && Stopped(After(cs, draws, limit))
    ensures n < limit
  {
    if limit <= n {
      StaysStopped(cs, draws, limit, n);
    }
  }

  /** One iteration of the fill loop; `go` is false when the draw throws. */
  method FillRound(cs: seq<Char16>, key: seq<Byte>, slots: array<Char16>, filled: nat, right: bool, last: nat)
    returns (go: bool, left: int)
    requires |key| >= MIN_KEY && filled < |cs| == slots.Length
    modifies slots
    ensures Round(cs, KeyDraws(key, |cs|), State(old(slots[..]), filled, right, last))
            == if go then State(slots[..], left, !right, last + 1) else Crashed
  {
    var index := Draw(key, last + 1, |cs|);
    if index.None? {
      return false, filled;
    }
    var j := Search(slots, index.value, right);
    if j >= 0 {
      slots[j] := cs[filled];
      return true, filled - 1;
    }
    return true, filled;
  }

  lemma AfterNext(cs: seq<Char16>, draws: Draws, n: nat)
    requires |cs| > 0 && Below(draws, |cs|)
    ensures After(cs, draws, n + 1) == Round(cs, draws, After(cs, draws, n))
  {
  }

  /** The fill loop of `obtain`; None when it ends in an ArrayIndexOutOfBoundsException. */
  method FillSlots(cs: seq<Char16>, key: seq<Byte>) returns (r: Option<seq<Char16>>)
    requires |key| >= MIN_KEY && |cs| > 0 && NoNul(cs)
    ensures exists n: nat :: Outcome(cs, key, n, r)
    ensures r.Some? ==> multiset(r.value) == multiset(cs)
  {
    ghost var draws := KeyDraws(key, |cs|);
    ghost var limit := LoopEnds(cs, key);
    ghost var n: nat := 0;
    var slots := new Char16[|cs|](_ => OPEN);
    var filled := |cs| - 1;
    var right := true;
    var last: nat := 17 + |cs| % 59;
    assert State(slots[..], filled, right, last) == Start(cs) == After(cs, draws, 0);
    while filled >= 0
      invariant -1 <= filled < |cs|
      invariant After(cs, draws, n) == State(slots[..], filled, right, last)
      decreases limit - n
    {
      NotYet(cs, draws, n, limit);
      AfterNext(cs, draws, n);
      var go, left := FillRound(cs, key, slots, filled, right, last);
      n := n + 1;
      if !go {
        r := None;
        assert Outcome(cs, key, n, r);
        return;
      }
      filled, right, last := left, !right, last + 1;
    }
    FilledIsPermutation(cs, draws, n);
    r := Some(slots[..]);
    assert Outcome(cs, key, n, r);
  }
}
