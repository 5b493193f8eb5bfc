/**
 Which keys fill a codeset. As long as the product of counter and stride fits an `int`, the draws repeat with the length
 of the key, so that twice that many rounds tell which slots are ever reached.
 */
module KeyCoverage {
  import opened Wrappers
  import opened Codeset
  import opened KeyShuffle

  const MAX_INT := 0x7FFF_FFFF

  /** The rounds up to `n` draw without overflow. */
  predicate Fits(key: seq<Byte>, length: nat, n: nat)
    requires |key| >= MIN_KEY
  {
    Counter(length, n) * Stride(key) <= MAX_INT
  }

  /** After so many rounds of the draws, every slot that is ever reached is taken. */
  function Rounds(key: seq<Byte>, length: nat): nat {
    2 * |key| * length
  }

  // ---------------------------------------------------------------- the draws repeat

  lemma Smaller(a: nat, b: nat, d: nat)
    requires a <= b
    ensures a * d <= b * d
  {
  }

  /** All earlier rounds fit as well. */
  lemma FitsBefore(key: seq<Byte>, length: nat, i: nat, n: nat)
    requires |key| >= MIN_KEY && i <= n && Fits(key, length, n)
    ensures Fits(key, length, i)
  {
    Smaller(Counter(length, i), Counter(length, n), Stride(key));
  }

  lemma Shift(c: nat, length: nat, q: nat, s: nat)
    requires length > 0
    ensures ((c + length * q) * s) % length == (c * s) % length
  {
    assert (c + length * q) * s == c * s + length * (q * s);
    Multiple(c * s, length, q * s);
  }

  lemma Multiple(a: nat, length: nat, m: nat)
    requires length > 0
    ensures (a + length * m) % length == a % length
  {
    var q, r := a / length, a % length;
    assert a + length * m == length * (q + m) + r;
    Remainder(a + length * m, length, q + m, r);
  }

  lemma Remainder(a: nat, length: nat, q: nat, r: nat)
    requires 0 <= r < length && a == length * q + r
    ensures a % length == r && a / length == q
  {
    var q', r' := a / length, a % length;
    assert a == length * q' + r';
    if q' < q {
      Gap(length, q', q);
    } else if q < q' {
      Gap(length, q, q');
    }
  }

  lemma Gap(length: nat, a: nat, b: nat)
    requires a < b
    ensures length * b >= length * a + length
  {
    AtLeastOnce(length, b - a);
    Split(length, a, b - a);
  }

  lemma AtLeastOnce(length: nat, d: nat)
    requires d >= 1
    ensures length * d >= length
  {
    Split(length, 1, d - 1);
  }

  lemma Split(length: nat, a: nat, b: nat)
    ensures length * (a + b) == length * a + length * b
  {
  }

  lemma Divided(i: nat, period: nat) returns (q: nat, r: nat)
    requires period > 0
    ensures i == period * q + r && r < period && r == i % period
  {
    q, r := i / period, i % period;
  }

  /** What a round reaches is what the same round of the first two passes through the key reaches. */
  lemma Periodic(key: seq<Byte>, length: nat, i: nat, k: nat)
    requires |key| >= MIN_KEY && length > 0 && Fits(key, length, i)
    ensures var draws := KeyDraws(key, length);
            Reaches(draws, length, i, k) <==> Reaches(draws, length, i % (2 * |key|), k)
  {
    hide Reaches;
    hide Fits;
    var period := 2 * |key|;
    var q, r := Divided(i, period);
    SameRound(key, length, i, r, q, k);
  }

  lemma SameRound(key: seq<Byte>, length: nat, i: nat, r: nat, q: nat, k: nat)
    requires |key| >= MIN_KEY && length > 0 && Fits(key, length, i) && i == 2 * |key| * q + r
    ensures var draws := KeyDraws(key, length); Reaches(draws, length, i, k) <==> Reaches(draws, length, r, k)
  {
    hide Draw;
    hide Stride;
    var s := Stride(key);
    FitsBefore(key, length, r, i);
    assert 2 * |key| * q == |key| * (2 * q);
    assert i == r + 2 * (|key| * q);
    SameParity(r, |key| * q);
    Shift(Counter(length, r), |key|, 2 * q, s);
    FittingDraw(key, Counter(length, i), length, Counter(length, i) * s);
    FittingDraw(key, Counter(length, r), length, Counter(length, r) * s);
  }

  lemma SameParity(r: nat, m: nat)
    ensures (r + 2 * m) % 2 == r % 2
  {
  }

  /** Some round of the first two passes through the key reaches slot `k`. */
  ghost predicate Reached(key: seq<Byte>, length: nat, k: nat)
    requires |key| >= MIN_KEY && length > 0
  {
    exists i: nat :: i < 2 * |key| && Reaches(KeyDraws(key, length), length, i, k)
  }

  ghost predicate AllReached(key: seq<Byte>, length: nat)
    requires |key| >= MIN_KEY && length > 0
  {
    forall k: nat :: k < length ==> Reached(key, length, k)
  }

  // ---------------------------------------------------------------- slots that are reached

  lemma {:induction false} HitsGrow(draws: Draws, length: nat, a: nat, b: nat, j: nat, k: nat)
    requires length > 0 && a <= j < b && Reaches(draws, length, j, k)
    ensures Hits(draws, length, b, k) >= Hits(draws, length, a, k) + 1
    decreases b
  {
    if j == b - 1 {
      HitsMonotone(draws, length, a, b - 1, k);
    } else {
      HitsGrow(draws, length, a, b - 1, j, k);
    }
  }

  lemma {:induction false} HitsMonotone(draws: Draws, length: nat, a: nat, b: nat, k: nat)
    requires length > 0 && a <= b
    ensures Hits(draws, length, b, k) >= Hits(draws, length, a, k)
    decreases b
  {
    if a < b {
      HitsMonotone(draws, length, a, b - 1, k);
    }
  }

  /** Every two passes through the key reach it once more. */
  lemma {:induction false} PassHits(key: seq<Byte>, length: nat, i: nat, m: nat, k: nat)
    requires |key| >= MIN_KEY && length > 0 && i < 2 * |key| && Fits(key, length, 2 * |key| * m)
    requires Reaches(KeyDraws(key, length), length, i, k)
    ensures Hits(KeyDraws(key, length), length, 2 * |key| * m, k) >= m
    decreases m
  {
    hide Reaches;
    hide Fits;
    if m > 0 {
      var period := 2 * |key|;
      var draws, start := KeyDraws(key, length), period * (m - 1);
      Split(period, m - 1, 1);
      FitsBefore(key, length, start, period * m);
      FitsBefore(key, length, start + i, period * m);
      PassHits(key, length, i, m - 1, k);
      SameRound(key, length, start + i, i, m - 1, k);
      HitsGrow(draws, length, start, period * m, start + i, k);
    }
  }

  lemma AllDraw(key: seq<Byte>, length: nat, n: nat)
    requires |key| >= MIN_KEY && length > 0 && Fits(key, length, n)
    ensures forall i: nat :: i <= n ==> KeyDraws(key, length)(Counter(length, i)).Some?
  {
    forall i: nat | i <= n ensures KeyDraws(key, length)(Counter(length, i)).Some? {
      FitsBefore(key, length, i, n);
      FittingDraw(key, Counter(length, i), length, Counter(length, i) * Stride(key));
    }
  }

  /** A slot that is reached is taken in time, unless all are. */
  lemma ReachedIsTaken(cs: seq<Char16>, key: seq<Byte>, k: nat)
    requires |key| >= MIN_KEY && |cs| > 0 && NoNul(cs) && Fits(key, |cs|, Rounds(key, |cs|)) && k < |cs|
             && Reached(key, |cs|, k)
    ensures var st := After(cs, KeyDraws(key, |cs|), Rounds(key, |cs|));
            st.State? && (!Stopped(st) ==> st.slots[k] != OPEN)
  {
    var draws, n := KeyDraws(key, |cs|), Rounds(key, |cs|);
    AllDraw(key, |cs|, n);
    NeverCrashes(cs, draws, n, n);
    var i: nat :| i < 2 * |key| && Reaches(draws, |cs|, i, k);
    PassHits(key, |cs|, i, |cs|, k);
    var st := After(cs, draws, n);
    if !Stopped(st) && st.slots[k] == OPEN {
      OpenSlotBound(cs, draws, n, k);
    }
  }

  // ---------------------------------------------------------------- slots that are not

  /** A slot that no round reaches stays open. */
  lemma {:induction false} UnreachedStaysOpen(cs: seq<Char16>, draws: Draws, n: nat, k: nat)
    requires |cs| > 0 && Below(draws, |cs|) && k < |cs|
    requires forall i: nat :: i < n ==> !Reaches(draws, |cs|, i, k)
    ensures After(cs, draws, n).State? ==> After(cs, draws, n).slots[k] == OPEN
    decreases n
  {
    hide Round;
    hide WellFormed;
    hide Reaches;
    if n > 0 {
      UnreachedStaysOpen(cs, draws, n - 1, k);
      AfterNext(cs, draws, n - 1);
      MissedRound(cs, draws, n - 1, k);
    }
  }

  lemma MissedRound(cs: seq<Char16>, draws: Draws, n: nat, k: nat)
    requires |cs| > 0 && Below(draws, |cs|) && k < |cs| && !Reaches(draws, |cs|, n, k)
    requires After(cs, draws, n).State? ==> After(cs, draws, n).slots[k] == OPEN
    ensures var next := Round(cs, draws, After(cs, draws, n)); next.State? ==> next.slots[k] == OPEN
  {
    hide Round;
    hide WellFormed;
    var st := After(cs, draws, n);
    if !Stopped(st) {
      AfterCounter(cs, draws, n);
      AfterDirection(cs, draws, n);
    }
    PassedOver(cs, draws, st, k);
  }

  lemma PassedOver(cs: seq<Char16>, draws: Draws, st: State, k: nat)
    requires |cs| > 0 && Below(draws, |cs|) && k < |cs| && WellFormed(cs, st) && (st.State? ==> st.slots[k] == OPEN)
    requires !Stopped(st) && draws(st.last + 1).Some? ==>
               var index := draws(st.last + 1).value; if st.right then k < index else index < k
    ensures Round(cs, draws, st).State? ==> Round(cs, draws, st).slots[k] == OPEN
  {
  }

  lemma OpenIsUnfilled(cs: seq<Char16>, draws: Draws, n: nat, k: nat)
    requires |cs| > 0 && Below(draws, |cs|) && NoNul(cs) && k < |cs|
    requires After(cs, draws, n).State? && After(cs, draws, n).slots[k] == OPEN
    ensures After(cs, draws, n).filled >= 0
  {
    var st := After(cs, draws, n);
    assert st.slots[k] in multiset(st.slots);
    if st.filled < 0 {
      FilledIsPermutation(cs, draws, n);
    }
  }

  lemma UnreachedInFit(key: seq<Byte>, length: nat, n: nat, k: nat)
    requires |key| >= MIN_KEY && length > 0 && !Reached(key, length, k)
    requires forall i: nat :: i < n ==> Fits(key, length, i)
    ensures forall i: nat :: i < n ==> !Reaches(KeyDraws(key, length), length, i, k)
  {
    forall i: nat | i < n ensures !Reaches(KeyDraws(key, length), length, i, k) {
      Periodic(key, length, i, k);
      assert i % (2 * |key|) < 2 * |key|;
    }
  }

  /**
   Exactly which keys fill a codeset before the products overflow: those that reach every slot within two passes through
   the key.
   */
  lemma FillsIff(cs: seq<Char16>, key: seq<Byte>)
    requires |key| >= MIN_KEY && |cs| > 0 && NoNul(cs) && Fits(key, |cs|, Rounds(key, |cs|))
    ensures var st := After(cs, KeyDraws(key, |cs|), Rounds(key, |cs|));
            st.State? && (st.filled < 0 <==> AllReached(key, |cs|))
  {
    var draws, n := KeyDraws(key, |cs|), Rounds(key, |cs|);
    AllDraw(key, |cs|, n);
    NeverCrashes(cs, draws, n, n);
    var st := After(cs, draws, n);
    if AllReached(key, |cs|) {
      if !Stopped(st) {
        var k := OpenSlotExists(cs, draws, n);
        ReachedIsTaken(cs, key, k);
      }
    } else {
      var k: nat :| k < |cs| && !Reached(key, |cs|, k);
      forall i: nat | i < n ensures Fits(key, |cs|, i) {
        FitsBefore(key, |cs|, i, n);
      }
      UnreachedInFit(key, |cs|, n, k);
      UnreachedStaysOpen(cs, draws, n, k);
      OpenIsUnfilled(cs, draws, n, k);
    }
  }

  // ---------------------------------------------------------------- the last draw

  /** The round whose product is the first that does not fit an `int`. */
  function OverflowRound(key: seq<Byte>, length: nat): int
    requires |key| >= MIN_KEY && Stride(key) > 0
  {
    LastFitting(Stride(key)) + 1 - Counter(length, 0)
  }

  lemma FitsUntil(key: seq<Byte>, length: nat, i: nat)
    requires |key| >= MIN_KEY && Stride(key) > 0
    ensures Fits(key, length, i) <==> i < OverflowRound(key, length)
  {
    QuotientBound(MAX_INT, Stride(key), Counter(length, i));
  }

  lemma QuotientBound(n: nat, d: nat, c: nat)
    requires d > 0
    ensures c * d <= n <==> c <= n / d
  {
    var q, r := Divided(n, d);
    Remainder(n, d, q, r);
    if c <= q {
      Smaller(c, q, d);
    } else {
      Gap(d, q, c);
    }
  }

  /** Up to the first overflow, an unreached slot keeps the loop going. */
  lemma MissingKeepsOn(cs: seq<Char16>, key: seq<Byte>, n: nat, k: nat)
    requires |key| >= MIN_KEY && |cs| > 0 && NoNul(cs) && k < |cs| && !Reached(key, |cs|, k)
    requires n > 0 ==> Fits(key, |cs|, n - 1)
    ensures var st := After(cs, KeyDraws(key, |cs|), n); st.State? && !Stopped(st) && st.slots[k] == OPEN
  {
    var draws := KeyDraws(key, |cs|);
    forall i: nat | i < n ensures Fits(key, |cs|, i) {
      FitsBefore(key, |cs|, i, n - 1);
    }
    if n > 0 {
      AllDraw(key, |cs|, n - 1);
    }
    NeverCrashes(cs, draws, n, n);
    UnreachedInFit(key, |cs|, n, k);
    UnreachedStaysOpen(cs, draws, n, k);
    OpenIsUnfilled(cs, draws, n, k);
  }

  /** The overflowing draw that still succeeds is made with the first byte of the key. */
  lemma WrapsToFirst(key: seq<Byte>, last: nat, length: nat, p: nat)
    requires |key| >= MIN_KEY && length > 0 && last * Stride(key) == p && 0x8000_0000 <= p < 0x1_0000_0000
    requires Draw(key, last, length).Some?
    ensures (0x1_0000_0000 - p) % |key| == 0 && Draw(key, last, length) == Some(AbsByte(key[0]) % length)
  {
    hide Stride;
    OverflowedDraw(key, last, length, p);
    DrawAt(key, last, length, p);
    Wrapped(p);
  }

  /** A fitting round whose counter is a multiple of the key length is made with it, too. */
  lemma FirstByte(key: seq<Byte>, length: nat, i: nat)
    requires |key| >= MIN_KEY && length > 0 && Fits(key, length, i) && Counter(length, i) % |key| == 0
    ensures Draw(key, Counter(length, i), length) == Some(AbsByte(key[0]) % length)
  {
    hide Draw, Stride, Counter, AbsByte;
    var c, s := Counter(length, i), Stride(key);
    var q, r := Divided(c, |key|);
    ProductOfMultiple(c, |key|, q, s);
    Multiple(0, |key|, q * s);
    FittingDraw(key, c, length, c * s);
  }

  lemma ProductOfMultiple(c: nat, n: nat, q: nat, s: nat)
    requires c == n * q
    ensures c * s == 0 + n * (q * s)
  {
  }

  lemma EvenFactor(c: nat, s: nat)
    requires s % 2 == 1 && (c * s) % 2 == 0
    ensures c % 2 == 0
  {
    var h := s / 2;
    assert s == 2 * h + 1;
    assert c * s == c + 2 * (c * h);
    SameParity(c, c * h);
  }

  lemma EvenDivisor(a: nat, n: nat)
    requires n > 0 && n % 2 == 0 && a % n == 0
    ensures a % 2 == 0
  {
    var q, r := Divided(a, n);
    assert n == 2 * (n / 2);
    assert a == 0 + 2 * (n / 2 * q);
    SameParity(0, n / 2 * q);
  }

  lemma EvenComplement(p: nat)
    requires p <= 0x1_0000_0000 && (0x1_0000_0000 - p) % 2 == 0
    ensures p % 2 == 0
  {
  }

  /** A key of even length has an odd stride, so the overflowing draw has an even counter. */
  lemma EvenOverflow(key: seq<Byte>, last: nat, p: nat)
    requires |key| >= MIN_KEY && |key| % 2 == 0 && last * Stride(key) == p <= 0x1_0000_0000
    requires (0x1_0000_0000 - p) % |key| == 0
    ensures last % 2 == 0
  {
    hide Stride;
    EvenDivisor(0x1_0000_0000 - p, |key|);
    EvenComplement(p);
    EvenFactor(last, Stride(key));
  }

  lemma NextMultiple(c: nat, n: nat) returns (i: nat)
    requires n > 0
    ensures i < n && (c + i) % n == 0
  {
    var q, r := Divided(c, n);
    if r == 0 {
      i := 0;
    } else {
      i := n - r;
      Split(n, q, 1);
      Remainder(c + i, n, q + 1, 0);
    }
  }

  /** Within two passes some number of the same parity as `m` completes `c` to a multiple of the key length. */
  lemma MultipleAhead(c: nat, n: nat, m: nat) returns (i: nat)
    requires n > 0 && (n % 2 == 0 ==> (c + m) % 2 == 0)
    ensures i < 2 * n && i % 2 == m % 2 && (c + i) % n == 0
  {
    i := NextMultiple(c, n);
    if n % 2 == 0 {
      EvenDivisor(c + i, n);
      SameParities(c, i, m);
    } else if i % 2 != m % 2 {
      Multiple(c + i, n, 1);
      i := i + n;
    }
  }

  lemma SameParities(c: nat, i: nat, m: nat)
    requires (c + i) % 2 == 0 && (c + m) % 2 == 0
    ensures i % 2 == m % 2
  {
  }

  /** The first draw that overflows reaches nothing that no fitting one of the first two passes reaches. */
  lemma OverflowReachesNothingNew(key: seq<Byte>, length: nat, k: nat)
    requires |key| >= MIN_KEY && length > 0 && Stride(key) > 0 && OverflowRound(key, length) >= 0
    requires Fits(key, length, 2 * |key|) && !Reached(key, length, k)
    ensures !Reaches(KeyDraws(key, length), length, OverflowRound(key, length), k)
  {
    hide Stride;
    hide Draw;
    var m := OverflowRound(key, length);
    var last := Counter(length, m);
    var p := last * Stride(key);
    FittingBounds(Stride(key));
    if Draw(key, last, length).Some? {
      WrapsToFirst(key, last, length, p);
      if |key| % 2 == 0 {
        EvenOverflow(key, last, p);
      }
      var i := MultipleAhead(Counter(length, 0), |key|, m);
      FitsBefore(key, length, i, 2 * |key|);
      FirstByte(key, length, i);
      assert !Reaches(KeyDraws(key, length), length, i, k);
    }
  }

  /** A slot that is missing stays open through the overflow, and the loop never ends filled. */
  lemma MissingNeverFills(cs: seq<Char16>, key: seq<Byte>, n: nat, k: nat)
    requires |key| >= MIN_KEY && |cs| > 0 && NoNul(cs) && Fits(key, |cs|, 2 * |key|)
    requires k < |cs| && !Reached(key, |cs|, k)
    ensures !FilledAfter(cs, key, n)
  {
    hide Round;
    hide After;
    hide Draw;
    hide Stride;
    hide Fits;
    hide WellFormed;
    var draws := KeyDraws(key, |cs|);
    if Stride(key) == 0 {
      AlwaysFits(key, |cs|, n);
      MissingKeepsOn(cs, key, n, k);
    } else {
      var m := OverflowRound(key, |cs|);
      FitsUntil(key, |cs|, 2 * |key|);
      FitsUntil(key, |cs|, m - 1);
      MissingKeepsOn(cs, key, m, k);
      StillOpen(cs, key, m, k);
      if FilledAfter(cs, key, n) {
        if n <= m {
          StaysStopped(cs, draws, n, m);
        }
        DrawsEnd(key, |cs|);
        OverflowFills(cs, key, draws, m, n);
      }
    }
  }

  lemma StillOpen(cs: seq<Char16>, key: seq<Byte>, m: nat, k: nat)
    requires |key| >= MIN_KEY && |cs| > 0 && NoNul(cs) && Fits(key, |cs|, 2 * |key|)
    requires k < |cs| && !Reached(key, |cs|, k) && Stride(key) > 0 && m == OverflowRound(key, |cs|)
    ensures !FilledAfter(cs, key, m + 1)
  {
    hide Round;
    hide After;
    hide Draw;
    hide Stride;
    hide Fits;
    hide Reached;
    var draws := KeyDraws(key, |cs|);
    forall i: nat | i < m ensures Fits(key, |cs|, i) {
      FitsUntil(key, |cs|, i);
    }
    UnreachedInFit(key, |cs|, m, k);
    OverflowReachesNothingNew(key, |cs|, k);
    UnreachedStaysOpen(cs, draws, m + 1, k);
    if FilledAfter(cs, key, m + 1) {
      OpenIsUnfilled(cs, draws, m + 1, k);
    }
  }

  lemma AlwaysFits(key: seq<Byte>, length: nat, n: nat)
    requires |key| >= MIN_KEY && Stride(key) == 0
    ensures n > 0 ==> Fits(key, length, n - 1)
  {
    if n > 0 {
      TimesZero(Counter(length, n - 1), Stride(key));
    }
  }

  /** Past the first overflow there is one more round at most. */
  lemma OverflowFills(cs: seq<Char16>, key: seq<Byte>, draws: Draws, m: nat, n: nat)
    requires |cs| > 0 && Below(draws, |cs|) && m < n && !Stopped(After(cs, draws, m))
    requires draws(Counter(|cs|, m)).Some? ==> draws(Counter(|cs|, m) + 1).None?
    requires After(cs, draws, n).State? && After(cs, draws, n).filled < 0
    ensures After(cs, draws, m + 1).State? && After(cs, draws, m + 1).filled < 0
  {
    hide Round;
    hide After;
    hide WellFormed;
    if !Stopped(After(cs, draws, m + 1)) {
      if m + 1 < n {
        AfterCounter(cs, draws, m + 1);
        AllDrawnBefore(cs, draws, m);
        AfterNext(cs, draws, m + 1);
        NoDrawCrashes(cs, draws, After(cs, draws, m + 1));
        StaysStopped(cs, draws, m + 2, n);
      }
    } else {
      StaysStopped(cs, draws, m + 1, n);
    }
  }

  lemma AllDrawnBefore(cs: seq<Char16>, draws: Draws, m: nat)
    requires |cs| > 0 && Below(draws, |cs|) && !Stopped(After(cs, draws, m + 1))
    ensures draws(Counter(|cs|, m)).Some?
  {
    AllDrawn(cs, draws, m + 1, m);
  }

  lemma NoDrawCrashes(cs: seq<Char16>, draws: Draws, st: State)
    requires |cs| > 0 && Below(draws, |cs|) && WellFormed(cs, st) && !Stopped(st) && draws(st.last + 1).None?
    ensures Round(cs, draws, st).Crashed?
  {
  }

  ghost predicate FilledAfter(cs: seq<Char16>, key: seq<Byte>, n: nat)
    requires |key| >= MIN_KEY && |cs| > 0
  {
    var st := After(cs, KeyDraws(key, |cs|), n);
    st.State? && st.filled < 0
  }

  // ---------------------------------------------------------------- the condition in terms of two draws

  /** The slot drawn in round `i`, when that draws any. */
  function Drawn(key: seq<Byte>, length: nat, i: nat): nat
    requires |key| >= MIN_KEY && length > 0
  {
    var d := Draw(key, Counter(length, i), length);
    if d.Some? then d.value else 0
  }

  lemma DrawnReaches(key: seq<Byte>, length: nat, i: nat, k: nat)
    requires |key| >= MIN_KEY && length > 0 && Fits(key, length, i)
    ensures Drawn(key, length, i) < length
    ensures Reaches(KeyDraws(key, length), length, i, k) <==>
              if i % 2 == 0 then Drawn(key, length, i) <= k else k <= Drawn(key, length, i)
  {
    AllDraw(key, length, i);
    assert KeyDraws(key, length)(Counter(length, i)).Some?;
  }

  /** Going right, some round draws a slot at most one beyond one that another round draws going left. */
  predicate Meet(key: seq<Byte>, length: nat)
    requires |key| >= MIN_KEY && length > 0
  {
    exists i: nat, j: nat :: i < |key| && j < |key| && Meets(key, length, i, j)
  }

  predicate Meets(key: seq<Byte>, length: nat, i: nat, j: nat)
    requires |key| >= MIN_KEY && length > 0
  {
    Drawn(key, length, 2 * i) <= Drawn(key, length, 2 * j + 1) + 1
  }

  /** The largest slot drawn by the first `n` rounds going left. */
  lemma LargestLeft(key: seq<Byte>, length: nat, n: nat) returns (j: nat)
    requires |key| >= MIN_KEY && length > 0 && n > 0
    ensures j < n && forall i: nat :: i < n ==> Drawn(key, length, 2 * i + 1) <= Drawn(key, length, 2 * j + 1)
  {
    hide Drawn;
    j := 0;
    for m := 1 to n
      invariant j < m && forall i: nat :: i < m ==> Drawn(key, length, 2 * i + 1) <= Drawn(key, length, 2 * j + 1)
    {
      if Drawn(key, length, 2 * j + 1) < Drawn(key, length, 2 * m + 1) {
        j := m;
      }
    }
  }

  /** Every slot is reached exactly when the draws to the right and those to the left leave no gap between them. */
  lemma AllReachedIff(key: seq<Byte>, length: nat)
    requires |key| >= MIN_KEY && length > 0 && Fits(key, length, 2 * |key|)
    ensures AllReached(key, length) <==> Meet(key, length)
  {
    hide Drawn;
    hide Fits;
    hide Reaches;
    forall i: nat | i < 2 * |key| ensures Fits(key, length, i) {
      FitsBefore(key, length, i, 2 * |key|);
    }
    if Meet(key, length) {
      var i: nat, j: nat :| i < |key| && j < |key| && Meets(key, length, i, j);
      forall k: nat | k < length ensures Reached(key, length, k) {
        DrawnReaches(key, length, 2 * i, k);
        DrawnReaches(key, length, 2 * j + 1, k);
      }
    }
    if AllReached(key, length) {
      NoGap(key, length);
    }
  }

  lemma NoGap(key: seq<Byte>, length: nat)
    requires |key| >= MIN_KEY && length > 0 && AllReached(key, length)
    requires forall i: nat :: i < 2 * |key| ==> Fits(key, length, i)
    ensures Meet(key, length)
  {
    hide Drawn;
    hide Fits;
    hide Reaches;
    var j := LargestLeft(key, length, |key|);
    var k := Drawn(key, length, 2 * j + 1) + 1;
    DrawnReaches(key, length, 0, 0);
    if k >= length {
      assert Meets(key, length, 0, j);
    } else {
      assert Reached(key, length, k);
      var r: nat :| r < 2 * |key| && Reaches(KeyDraws(key, length), length, r, k);
      DrawnReaches(key, length, r, k);
      var i := r / 2;
      assert r == 2 * i || r == 2 * i + 1;
      assert r == 2 * i && Meets(key, length, i, j);
    }
  }

  // ---------------------------------------------------------------- which keys fill a codeset

  lemma TwoPassesFit(key: seq<Byte>, length: nat)
    requires |key| >= MIN_KEY && length > 0 && Fits(key, length, Rounds(key, length))
    ensures Fits(key, length, 2 * |key|)
  {
    AtLeastOnce(2 * |key|, length);
    FitsBefore(key, length, 2 * |key|, Rounds(key, length));
  }

  /** Exactly which keys ever fill a codeset: those that reach every slot, whose draws leave no gap. */
  lemma EverFillsIff(cs: seq<Char16>, key: seq<Byte>)
    requires |key| >= MIN_KEY && |cs| > 0 && NoNul(cs) && Fits(key, |cs|, Rounds(key, |cs|))
    ensures (exists n: nat :: FilledAfter(cs, key, n)) <==> AllReached(key, |cs|)
    ensures AllReached(key, |cs|) <==> Meet(key, |cs|)
  {
    TwoPassesFit(key, |cs|);
    AllReachedIff(key, |cs|);
    if AllReached(key, |cs|) {
      FillsIff(cs, key);
      assert FilledAfter(cs, key, Rounds(key, |cs|));
    } else if n: nat :| FilledAfter(cs, key, n) {
      var k: nat :| k < |cs| && !Reached(key, |cs|, k);
      MissingNeverFills(cs, key, n, k);
    }
  }

  /** The loop of `obtain` yields a codeset exactly for these keys, and throws for all others. */
  lemma OutcomeIff(cs: seq<Char16>, key: seq<Byte>, n: nat, r: Option<seq<Char16>>)
    requires |key| >= MIN_KEY && |cs| > 0 && NoNul(cs) && Fits(key, |cs|, Rounds(key, |cs|)) && Outcome(cs, key, n, r)
    ensures r.Some? <==> Meet(key, |cs|)
  {
    hide Meet;
    hide AllReached;
    EverFillsIff(cs, key);
    if Meet(key, |cs|) {
      var m: nat :| FilledAfter(cs, key, m);
      StopsOnce(cs, KeyDraws(key, |cs|), n, m);
    } else {
      assert r.Some? ==> FilledAfter(cs, key, n);
    }
  }

  /** Keys of up to 0x1_0000 bytes, and so all that are generated, keep to the bound for 64 characters. */
  lemma UsualKeysFit(key: seq<Byte>)
    requires MIN_KEY <= |key| <= 0x1_0000
    ensures Fits(key, 64, Rounds(key, 64)) && Fits(key, 64, 2 * |key|)
  {
    hide Stride;
    var c := Counter(64, Rounds(key, 64));
    Smaller(c, 9000000, Stride(key));
    FitsBefore(key, 64, 2 * |key|, Rounds(key, 64));
  }

  /** There are such keys of every length: it is enough that the first draw is slot 0. */
  lemma FirstDrawFills(key: seq<Byte>, length: nat)
    requires |key| >= MIN_KEY && length > 0 && Fits(key, length, 2 * |key|) && Drawn(key, length, 0) == 0
    ensures AllReached(key, length)
  {
    assert Meets(key, length, 0, 0);
    AllReachedIff(key, length);
  }

  lemma ZeroKeyFills(key: seq<Byte>, length: nat)
    requires |key| >= MIN_KEY && length > 0 && Fits(key, length, 2 * |key|)
               && forall i :: 0 <= i < |key| ==> key[i] == 0
    ensures AllReached(key, length)
  {
    hide Stride, Draw, Fits;
    FitsBefore(key, length, 0, 2 * |key|);
    ZeroDrawn(key, length);
    FirstDrawFills(key, length);
  }

  lemma ZeroDrawn(key: seq<Byte>, length: nat)
    requires |key| >= MIN_KEY && length > 0 && Fits(key, length, 0) && forall i :: 0 <= i < |key| ==> key[i] == 0
    ensures Drawn(key, length, 0) == 0
  {
    hide Stride, Draw;
    FittingDraw(key, Counter(length, 0), length, Counter(length, 0) * Stride(key));
    Remainder(0, length, 0, 0);
  }
}
