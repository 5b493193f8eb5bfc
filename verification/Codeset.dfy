/**
 Turning a character of a codeset back into its index: the linear search (`Unordered`),
 the range table (`Ordered`) and the constructor loop that compiles a codeset into ranges.
 */
module Codeset {
  import opened Wrappers

  datatype Range = Range(first: int, last: int, offset: int)

  datatype Convert = Ordered(range: seq<Range>) | Unordered(codec: seq<Char16>)

  /** The placeholder offset; a run with this very offset is dropped unless it is the last. */
  const NO_OFFSET := 32

  // ---------------------------------------------------------------- lookups

  /** Characters that yield -1, which the decoder ignores. */
  predicate Skipped(ordered: bool, read: int) {
    read == -1 || read == '=' as int || read == '\n' as int || read == '\r' as int || (ordered && read == ' ' as int)
  }

  /** The first range holding `read`; None stands for the IOException. */
  function InRanges(range: seq<Range>, read: int): Option<int> {
    if |range| == 0 then None
    else if range[0].first <= read <= range[0].last then Some(read - range[0].offset)
    else InRanges(range[1..], read)
  }

  /** The first position of `read` in `codec`, counted from `from`. */
  function Position(codec: seq<Char16>, read: int, from: nat): (r: Option<int>)
    requires from <= |codec|
    ensures r.Some? ==> from <= r.value < |codec| && codec[r.value] == read && read !in codec[from..r.value]
    ensures r.None? <==> read !in codec[from..]
    decreases |codec| - from
  {
    if from == |codec| then None
    else if codec[from] == read then Some(from)
    else
      var r := Position(codec, read, from + 1);
      assert codec[from..] == [codec[from]] + codec[from + 1..];
      assert r.Some? ==> codec[from..r.value] == [codec[from]] + codec[from + 1..r.value];
      r
  }

  /** What `Convert.convert` returns. */
  function Lookup(convert: Convert, read: int): Option<int> {
    if Skipped(convert.Ordered?, read) then Some(-1)
    else match convert
      case Ordered(range) => InRanges(range, read)
      case Unordered(codec) => Position(codec, read, 0)
  }

  method ConvertChar(convert: Convert, read: int) returns (r: Option<int>)
    ensures r == Lookup(convert, read)
  {
    if Skipped(convert.Ordered?, read) {
      return Some(-1);
    }
    var i := 0;
    match convert
    case Ordered(range) =>
      while i < |range|
        invariant 0 <= i <= |range|
        invariant InRanges(range, read) == InRanges(range[i..], read)
      {
        if range[i].first <= read <= range[i].last {
          return Some(read - range[i].offset);
        }
        i := i + 1;
      }
      return None;
    case Unordered(codec) =>
      while i < |codec|
        invariant 0 <= i <= |codec|
        invariant Position(codec, read, 0) == Position(codec, read, i)
      {
        if codec[i] == read {
          return Some(i);
        }
        i := i + 1;
      }
      return None;
  }

  // ---------------------------------------------------------------- the range table

  /** The ranges still to be added when the scan stands at `i` with the open range `first`, `prev`, `offset`. */
  function Scan(cs: seq<Char16>, i: nat, first: int, prev: int, offset: int): seq<Range>
    requires i <= |cs|
    decreases |cs| - i
  {
    if i == |cs| then [Range(first, if |cs| == 0 then 0 else cs[|cs| - 1], offset)]
    else if prev + 1 == cs[i] then Scan(cs, i + 1, first, cs[i], offset)
    else (if offset != NO_OFFSET then [Range(first, prev, offset)] else []) + Scan(cs, i + 1, cs[i], cs[i], cs[i] - i)
  }

  function Ranges(cs: seq<Char16>): seq<Range> {
    Scan(cs, 0, 0, 0, NO_OFFSET)
  }

  /** The algorithm the constructor settles for. */
  function Compile(cs: seq<Char16>): Convert {
    var la := Ranges(cs);
    if |la| > |cs| / 3 then Unordered(cs) else Ordered(la)
  }

  lemma ScanOne(cs: seq<Char16>, i: nat, first: int, prev: int, offset: int, la: seq<Range>)
    requires i < |cs|
    ensures la + Scan(cs, i, first, prev, offset) ==
              if prev + 1 == cs[i] then la + Scan(cs, i + 1, first, cs[i], offset)
              else (if offset != NO_OFFSET then la + [Range(first, prev, offset)] else la)
                   + Scan(cs, i + 1, cs[i], cs[i], cs[i] - i)
  {
  }

  lemma ScanEnd(cs: seq<Char16>, first: int, prev: int, offset: int)
    ensures Scan(cs, |cs|, first, prev, offset) == [Range(first, if |cs| == 0 then 0 else cs[|cs| - 1], offset)]
  {
  }

  /** The analysis loop of the constructor. */
  method CompileCodeset(cs: seq<Char16>) returns (convert: Convert)
    ensures convert == Compile(cs)
  {
    hide Scan;
    var prev, curr, first := 0, 0, 0;
    var offset := NO_OFFSET;
    var la: seq<Range> := [];
    for i := 0 to |cs|
      invariant curr == if i == 0 then 0 else cs[i - 1]
      invariant la + Scan(cs, i, first, prev, offset) == Ranges(cs)
    {
      ScanOne(cs, i, first, prev, offset, la);
      curr := cs[i];
      if prev + 1 == curr {
        prev := curr;
      } else {
        if offset != NO_OFFSET {
          la := la + [Range(first, prev, offset)];
        }
        first, prev := curr, curr;
        offset := curr - i;
      }
    }
    ScanEnd(cs, first, prev, offset);
    la := la + [Range(first, curr, offset)];
    if |la| > |cs| / 3 {
      convert := Unordered(cs);
    } else {
      convert := Ordered(la);
    }
  }

  // ---------------------------------------------------------------- when the table inverts the codeset

  ghost predicate Distinct(cs: seq<Char16>) {
    forall i, j :: 0 <= i < j < |cs| ==> cs[i] != cs[j]
  }

  /** Position `i` continues the run of the position before it. */
  predicate Continues(cs: seq<Char16>, i: int)
    requires 0 <= i < |cs|
  {
    i > 0 && cs[i - 1] as int + 1 == cs[i]
  }

  /** The run holding position `k` reaches the table: its offset is not the placeholder, or it is the last run. */
  ghost predicate Kept(cs: seq<Char16>, k: int)
    requires 0 <= k < |cs|
  {
    cs[k] - k != NO_OFFSET || forall j :: k < j < |cs| ==> Continues(cs, j)
  }

  /** `cs[s..i]` is one run of consecutive characters. */
  ghost predicate IsRun(cs: seq<Char16>, s: nat, i: nat) {
    s < i <= |cs| && forall k :: s <= k < i ==> cs[k] - k == cs[s] - s
  }

  lemma RunContinues(cs: seq<Char16>, s: nat, i: nat)
    requires IsRun(cs, s, i)
    ensures forall j :: s < j < i ==> Continues(cs, j)
  {
    forall j | s < j < i ensures Continues(cs, j) {
      assert cs[j] - j == cs[j - 1] - (j - 1);
    }
  }

  /** A run holds every code between its ends. */
  lemma RunHolds(cs: seq<Char16>, s: nat, i: nat, v: int)
    requires IsRun(cs, s, i) && cs[s] <= v <= cs[i - 1]
    ensures var k := v - (cs[s] - s); s <= k < i && cs[k] == v
  {
    assert cs[i - 1] - (i - 1) == cs[s] - s;
  }

  /** Whatever a part of the table answers is a genuine position whose run was kept. */
  lemma {:induction false} ScanSound(cs: seq<Char16>, s: nat, i: nat, read: int)
    requires IsRun(cs, s, i)
    ensures var r := InRanges(Scan(cs, i, cs[s], cs[i - 1], cs[s] - s), read);
            r.Some? ==> s <= r.value < |cs| && cs[r.value] == read && Kept(cs, r.value)
    decreases |cs| - i
  {
    hide InRanges, Kept, Continues;
    var r := Range(cs[s], cs[i - 1], cs[s] - s);
    NoRange(read);
    if i == |cs| {
      assert [r] + [] == [r];
      FirstRange(r, [], read);
      RunSound(cs, s, i, read);
    } else if Continues(cs, i) {
      RunGrows(cs, s, i);
      ScanSound(cs, s, i + 1, read);
    } else {
      ScanBreaks(cs, s, i);
      ScanSound(cs, i, i + 1, read);
      var rest := Scan(cs, i + 1, cs[i], cs[i], cs[i] - i);
      FirstRange(r, rest, read);
      if cs[s] - s != NO_OFFSET {
        RunSound(cs, s, i, read);
      }
    }
  }

  lemma NoRange(read: int)
    ensures InRanges([], read) == None
  {
  }

  lemma RunGrows(cs: seq<Char16>, s: nat, i: nat)
    requires IsRun(cs, s, i) && i < |cs| && Continues(cs, i)
    ensures IsRun(cs, s, i + 1) && cs[i - 1] + 1 == cs[i]
    ensures Scan(cs, i, cs[s], cs[i - 1], cs[s] - s) == Scan(cs, i + 1, cs[s], cs[i], cs[s] - s)
  {
  }

  lemma ScanBreaks(cs: seq<Char16>, s: nat, i: nat)
    requires IsRun(cs, s, i) && i < |cs| && !Continues(cs, i)
    ensures var rest := Scan(cs, i + 1, cs[i], cs[i], cs[i] - i);
            Scan(cs, i, cs[s], cs[i - 1], cs[s] - s) ==
            if cs[s] - s != NO_OFFSET then [Range(cs[s], cs[i - 1], cs[s] - s)] + rest else rest
  {
    var rest := Scan(cs, i + 1, cs[i], cs[i], cs[i] - i);
    assert [] + rest == rest;
  }

  /** What a run that is kept answers for a code between its ends. */
  lemma RunSound(cs: seq<Char16>, s: nat, i: nat, read: int)
    requires IsRun(cs, s, i) && (cs[s] - s != NO_OFFSET || i == |cs|)
    ensures cs[s] <= read <= cs[i - 1] ==>
              var k := read - (cs[s] - s); s <= k < |cs| && cs[k] == read && Kept(cs, k)
  {
    RunContinues(cs, s, i);
    if cs[s] <= read <= cs[i - 1] {
      RunHolds(cs, s, i, read);
    }
  }

  lemma FirstRange(r: Range, rest: seq<Range>, read: int)
    ensures InRanges([r] + rest, read) ==
              if r.first <= read <= r.last then Some(read - r.offset) else InRanges(rest, read)
  {
    assert ([r] + rest)[1..] == rest;
  }

  /** A run that has ended, and what comes after it. */
  lemma RunEnds(cs: seq<Char16>, s: nat, i: nat, k: nat, rest: seq<Range>)
    requires IsRun(cs, s, i) && s <= k < |cs| && Distinct(cs) && Kept(cs, k) && i < |cs| && !Continues(cs, i)
    requires k >= i ==> InRanges(rest, cs[k]) == Some(k)
    ensures InRanges((if cs[s] - s != NO_OFFSET then [Range(cs[s], cs[i - 1], cs[s] - s)] else []) + rest, cs[k]) ==
              Some(k)
  {
    if k >= i && cs[s] <= cs[k] <= cs[i - 1] {
      // no later character lies between the ends of this run
      RunHolds(cs, s, i, cs[k]);
    }
    if cs[s] - s != NO_OFFSET {
      FirstRange(Range(cs[s], cs[i - 1], cs[s] - s), rest, cs[k]);
    } else {
      assert [] + rest == rest;
    }
  }

  /** With distinct characters the table finds every kept position. */
  lemma {:induction false} ScanComplete(cs: seq<Char16>, s: nat, i: nat, k: nat)
    requires IsRun(cs, s, i) && s <= k < |cs| && Distinct(cs) && Kept(cs, k)
    ensures InRanges(Scan(cs, i, cs[s], cs[i - 1], cs[s] - s), cs[k]) == Some(k)
    decreases |cs| - i
  {
    hide Kept;
    hide Distinct;
    if i == |cs| {
      assert cs[s] <= cs[k] <= cs[i - 1];
    } else if Continues(cs, i) {
      ScanComplete(cs, s, i + 1, k);
    } else {
      var rest := Scan(cs, i + 1, cs[i], cs[i], cs[i] - i);
      if k >= i {
        ScanComplete(cs, i, i + 1, k);
      }
      RunEnds(cs, s, i, k, rest);
    }
  }

  /** A codeset that starts with code 1 opens a bogus first run, so its first character is never found. */
  lemma {:induction false} BogusFirstRun(cs: seq<Char16>, i: nat, read: int)
    requires 0 < i <= |cs| && cs[0] == 1 && IsRun(cs, 0, i)
    ensures var r := InRanges(Scan(cs, i, 0, cs[i - 1], NO_OFFSET), read);
            r.Some? ==> r.value < |cs| && (read == 1 ==> r.value != 0)
    decreases |cs| - i
  {
    if i == |cs| {
    } else if Continues(cs, i) {
      BogusFirstRun(cs, i + 1, read);
    } else {
      var rest := Scan(cs, i + 1, cs[i], cs[i], cs[i] - i);
      assert [] + rest == rest;
      ScanSound(cs, i, i + 1, read);
    }
  }

  /** The convert that goes with `ordered`. */
  function ConvertOf(cs: seq<Char16>, ordered: bool): Convert {
    if ordered then Ordered(Ranges(cs)) else Unordered(cs)
  }

  /** Every answer of a compiled table is below the length of the codeset, for whatever codeset. */
  lemma LookupBounded(cs: seq<Char16>, ordered: bool, read: int)
    requires |cs| > 0
    ensures var r := Lookup(ConvertOf(cs, ordered), read); r.Some? ==> r.value < |cs|
  {
    if cs[0] == 1 {
      BogusFirstRun(cs, 1, read);
    } else {
      ScanFromStart(cs);
      ScanSound(cs, 0, 1, read);
    }
  }

  /** What `OutputStream.write` keeps of a character. */
  function Low(c: Char16): Byte {
    c % 0x100
  }

  /** Position `i`, written as one byte and looked up again, is found. */
  predicate InvertsAt(cs: seq<Char16>, convert: Convert, i: int)
    requires 0 <= i < |cs|
  {
    Lookup(convert, Low(cs[i])) == Some(i)
  }

  ghost predicate Inverts(cs: seq<Char16>, convert: Convert) {
    forall i :: 0 <= i < |cs| ==> InvertsAt(cs, convert, i)
  }

  /** Position `i` holds a one-byte character that is not ignored and, in a range table, whose run is kept. */
  ghost predicate UsableAt(cs: seq<Char16>, ordered: bool, i: int)
    requires 0 <= i < |cs|
  {
    cs[i] < 0x100 && !Skipped(ordered, cs[i]) && (ordered ==> cs[0] != 1 && Kept(cs, i))
  }

  /** The check a caller can make beforehand. */
  ghost predicate Usable(cs: seq<Char16>, ordered: bool) {
    Distinct(cs) && forall i :: 0 <= i < |cs| ==> UsableAt(cs, ordered, i)
  }

  lemma InvertsAtSound(cs: seq<Char16>, ordered: bool, i: int)
    requires 0 <= i < |cs| && InvertsAt(cs, ConvertOf(cs, ordered), i)
    ensures ordered && i == 0 ==> cs[0] != 1
    ensures !ordered || cs[0] != 1 ==> UsableAt(cs, ordered, i)
  {
    hide Kept, InRanges;
    if ordered {
      if cs[0] == 1 {
        BogusFirstRun(cs, 1, 1);
      } else {
        ScanFromStart(cs);
        ScanSound(cs, 0, 1, Low(cs[i]));
      }
    }
  }

  lemma InvertsAtComplete(cs: seq<Char16>, ordered: bool, i: int)
    requires 0 <= i < |cs| && Usable(cs, ordered)
    ensures InvertsAt(cs, ConvertOf(cs, ordered), i)
  {
    hide Scan;
    hide InRanges;
    hide Position;
    assert UsableAt(cs, ordered, i);
    if ordered {
      ScanFromStart(cs);
      ScanComplete(cs, 0, 1, i);
    } else {
      PositionOf(cs, i);
    }
  }

  lemma PositionOf(cs: seq<Char16>, i: int)
    requires 0 <= i < |cs| && Distinct(cs)
    ensures Position(cs, cs[i], 0) == Some(i)
  {
    assert cs[0..][i] == cs[i];
  }

  lemma ScanFromStart(cs: seq<Char16>)
    requires |cs| > 0 && cs[0] != 1
    ensures Ranges(cs) == Scan(cs, 1, cs[0], cs[0], cs[0])
  {
    assert [] + Scan(cs, 1, cs[0], cs[0], cs[0]) == Scan(cs, 1, cs[0], cs[0], cs[0]);
  }

  /**
   Exactly when a lookup inverts the codeset, over all codesets. For the linear search: distinct one-byte
   characters outside the ignored ones. For the range table moreover: no space, a first character other than
   code 1, and no run but the last whose offset is the placeholder.
   */
  lemma InvertsIff(cs: seq<Char16>, ordered: bool)
    requires |cs| > 0
    ensures Inverts(cs, ConvertOf(cs, ordered)) <==> Usable(cs, ordered)
  {
    var convert := ConvertOf(cs, ordered);
    if Inverts(cs, convert) {
      assert InvertsAt(cs, convert, 0);
      forall i | 0 <= i < |cs| ensures UsableAt(cs, ordered, i) {
        assert InvertsAt(cs, convert, i);
        InvertsAtSound(cs, ordered, 0);
        InvertsAtSound(cs, ordered, i);
      }
      forall i, j | 0 <= i < j < |cs| ensures cs[i] != cs[j] {
        assert InvertsAt(cs, convert, i) && InvertsAt(cs, convert, j);
      }
    }
    if Usable(cs, ordered) {
      forall i | 0 <= i < |cs| ensures InvertsAt(cs, convert, i) {
        InvertsAtComplete(cs, ordered, i);
      }
    }
  }

  /** Position `i` by the codes: a byte that is not passed over, in a run that the table keeps. */
  lemma UsableByCode(cs: seq<Char16>, ordered: bool, i: int)
    requires 0 <= i < |cs|
    ensures UsableAt(cs, ordered, i) <==>
            && cs[i] < 256 && cs[i] != 61 && cs[i] != 10 && cs[i] != 13
            && (ordered ==>
                  && cs[i] != 32 && cs[0] != 1
                  && (cs[i] == i + 32 ==> forall j :: i < j < |cs| ==> cs[j] == cs[j - 1] as int + 1))
  {
    if cs[i] == i + 32 && Kept(cs, i) {
      forall j | i < j < |cs| ensures cs[j] == cs[j - 1] as int + 1 {
        assert Continues(cs, j);
      }
    }
  }

  /**
   The same condition by the codes. For either lookup the characters are distinct bytes, none of them one of '=', line
   feed and carriage return. For the range table moreover none is a blank, the first has not code 1, and of the runs of
   consecutive codes only the last may be one in which code and position differ by 32.
   */
  lemma InvertsByCodes(cs: seq<Char16>, ordered: bool)
    requires |cs| > 0
    ensures Inverts(cs, ConvertOf(cs, ordered)) <==>
            && (forall i, j :: 0 <= i < j < |cs| ==> cs[i] != cs[j])
            && forall i :: 0 <= i < |cs| ==>
                 && cs[i] < 256 && cs[i] != 61 && cs[i] != 10 && cs[i] != 13
                 && (ordered ==>
                       && cs[i] != 32 && cs[0] != 1
                       && (cs[i] == i + 32 ==> forall j :: i < j < |cs| ==> cs[j] == cs[j - 1] as int + 1))
  {
    hide Inverts, ConvertOf, UsableAt;
    InvertsIff(cs, ordered);
    forall i | 0 <= i < |cs| ensures UsableAt(cs, ordered, i) <==>
                                     && cs[i] < 256 && cs[i] != 61 && cs[i] != 10 && cs[i] != 13
                                     && (ordered ==>
                                           && cs[i] != 32 && cs[0] != 1
                                           && (cs[i] == i + 32 ==>
                                                 forall j :: i < j < |cs| ==> cs[j] == cs[j - 1] as int + 1))
    {
      UsableByCode(cs, ordered, i);
    }
  }

  /** A character outside a usable codeset is refused, unless it is one that the lookup passes over. */
  lemma OutsideIff(cs: seq<Char16>, ordered: bool, c: int)
    requires |cs| > 0 && Usable(cs, ordered) && forall i :: 0 <= i < |cs| ==> cs[i] != c
    ensures Lookup(ConvertOf(cs, ordered), c) ==
            if c == -1 || c == 61 || c == 10 || c == 13 || (ordered && c == 32) then Some(-1) else None
  {
    assert cs[0..] == cs;
    if ordered && c != 32 {
      OrderedAgreesWithUnordered(cs, c);
    }
    assert Position(cs, c, 0).None?;
  }

  /** The range table is taken when it has at most one range for every three characters. */
  lemma CompileIff(cs: seq<Char16>)
    ensures Compile(cs) == ConvertOf(cs, 3 * |Ranges(cs)| <= |cs|)
  {
  }

  /** On a usable codeset both algorithms agree on every input but the space. */
  lemma OrderedAgreesWithUnordered(cs: seq<Char16>, read: int)
    requires |cs| > 0 && Usable(cs, true) && read != ' ' as int
    ensures Lookup(Ordered(Ranges(cs)), read) == Lookup(Unordered(cs), read)
  {
    assert UsableAt(cs, true, 0);
    ScanFromStart(cs);
    ScanSound(cs, 0, 1, read);
    var p := Position(cs, read, 0);
    if p.Some? {
      assert UsableAt(cs, true, p.value);
      ScanComplete(cs, 0, 1, p.value);
    } else {
      assert cs[0..] == cs;
    }
  }
}
