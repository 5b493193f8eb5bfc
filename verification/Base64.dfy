/**
 What the streaming encoder and decoder of `Symm` are for: section 4 of RFC 4648 by 24-bit groups,
 independent of the carried bits, and the placing of line breaks.
 */
module Base64 {
  import opened Wrappers
  import opened Codeset

  /** A six-bit group. */
  type Sextet = x: int | 0 <= x < 64

  // ---------------------------------------------------------------- bytes to six-bit groups and back

  /** Three bytes read as one 24-bit number and cut into four six-bit groups. */
  function Group(a: Byte, b: Byte, c: Byte): (r: seq<Sextet>)
    ensures |r| == 4
  {
    var v := a * 0x1_0000 + b * 0x100 + c;
    [v / 0x4_0000, v / 0x1000 % 64, v / 64 % 64, v % 64]
  }

  /** Four six-bit groups read as one 24-bit number and cut into three bytes. */
  function Ungroup(p: Sextet, q: Sextet, r: Sextet, s: Sextet): (b: seq<Byte>)
    ensures |b| == 3
  {
    var v := p * 0x4_0000 + q * 0x1000 + r * 64 + s;
    [v / 0x1_0000, v / 0x100 % 0x100, v % 0x100]
  }

  /** The encoding as six-bit groups; a short last group is filled with zero bits on the right. */
  function Sextets(x: seq<Byte>): (r: seq<Sextet>)
    ensures |r| == |x| / 3 * 4 + (if |x| % 3 == 0 then 0 else |x| % 3 + 1)
  {
    if |x| == 0 then []
    else if |x| == 1 then Group(x[0], 0, 0)[..2]
    else if |x| == 2 then Group(x[0], x[1], 0)[..3]
    else Group(x[0], x[1], x[2]) + Sextets(x[3..])
  }

  /** The bytes carried by six-bit groups; leftover bits are dropped. */
  function Unsextets(s: seq<Sextet>): seq<Byte> {
    if |s| <= 1 then []
    else if |s| == 2 then Ungroup(s[0], s[1], 0, 0)[..1]
    else if |s| == 3 then Ungroup(s[0], s[1], s[2], 0)[..2]
    else Ungroup(s[0], s[1], s[2], s[3]) + Unsextets(s[4..])
  }

  /** Base-64 digits of a 24-bit number are unique. */
  lemma Digits64(v: nat, p: Sextet, q: Sextet, r: Sextet, s: Sextet)
    requires v == p * 0x4_0000 + q * 0x1000 + r * 64 + s
    ensures v / 0x4_0000 == p && v / 0x1000 % 64 == q && v / 64 % 64 == r && v % 64 == s
  {
    assert v / 0x1000 == p * 64 + q;
    assert v / 64 == (p * 64 + q) * 64 + r;
  }

  lemma Digits256(v: nat, a: Byte, b: Byte, c: Byte)
    requires v == a * 0x1_0000 + b * 0x100 + c
    ensures v / 0x1_0000 == a && v / 0x100 % 0x100 == b && v % 0x100 == c
  {
    assert v / 0x100 == a * 0x100 + b;
  }

  /** The bits the encoder shifts together are those of the 24-bit number. */
  lemma GroupBits(a: Byte, b: Byte, c: Byte)
    ensures Group(a, b, c) == [a / 4, a % 4 * 16 + b / 16, b % 16 * 4 + c / 64, c % 64]
  {
    Digits64(a * 0x1_0000 + b * 0x100 + c, a / 4, a % 4 * 16 + b / 16, b % 16 * 4 + c / 64, c % 64);
  }

  /** The byte written from carried bits and the high bits of the next group. */
  function Carry(prev: nat, bits: nat): Byte {
    (prev + bits) % 0x100
  }

  lemma RemainderIs(v: nat, q: nat, r: Byte)
    requires v == q * 0x100 + r
    ensures v % 0x100 == r
  {
  }

  lemma Halves16(p: Sextet, high: nat)
    requires high < 16
    ensures (p * 16 + high) % 0x100 == p % 16 * 16 + high
  {
    var a, b := p / 16, p % 16;
    assert p == 16 * a + b;
    RemainderIs(p * 16 + high, a, b * 16 + high);
  }

  lemma Halves4(p: Sextet, q: Sextet)
    ensures (p * 64 + q) % 0x100 == p % 4 * 64 + q
  {
    var a, b := p / 4, p % 4;
    assert p == 4 * a + b;
    RemainderIs(p * 64 + q, a, b * 64 + q);
  }

  lemma CarryBits(p: Sextet, q: Sextet)
    ensures Carry(p * 4, q / 16) == p * 4 + q / 16
    ensures Carry(p * 16, q / 4) == p % 16 * 16 + q / 4
    ensures Carry(p * 64, q) == p % 4 * 64 + q
  {
    Halves16(p, q / 4);
    Halves4(p, q);
  }

  /** The bits the decoder shifts together are those of the 24-bit number. */
  lemma UngroupBits(p: Sextet, q: Sextet, r: Sextet, s: Sextet)
    ensures Ungroup(p, q, r, s) == [p * 4 + q / 16, q % 16 * 16 + r / 4, r % 4 * 64 + s]
    ensures Ungroup(p, q, r, s) == [Carry(p * 4, q / 16), Carry(q * 16, r / 4), Carry(r * 64, s)]
  {
    CarryBits(p, q);
    CarryBits(q, r);
    CarryBits(r, s);
    Digits256(p * 0x4_0000 + q * 0x1000 + r * 64 + s, p * 4 + q / 16, q % 16 * 16 + r / 4, r % 4 * 64 + s);
  }

  lemma UngroupGroup(a: Byte, b: Byte, c: Byte)
    ensures var g := Group(a, b, c); Ungroup(g[0], g[1], g[2], g[3]) == [a, b, c]
  {
    GroupBits(a, b, c);
    UngroupDigits(a, b, c, a / 4, a % 4 * 16 + b / 16, b % 16 * 4 + c / 64, c % 64);
  }

  lemma UngroupDigits(a: Byte, b: Byte, c: Byte, p: Sextet, q: Sextet, r: Sextet, s: Sextet)
    requires a * 0x1_0000 + b * 0x100 + c == p * 0x4_0000 + q * 0x1000 + r * 64 + s
    ensures Ungroup(p, q, r, s) == [a, b, c]
  {
    Digits256(a * 0x1_0000 + b * 0x100 + c, a, b, c);
  }

  /** Whole groups in front are decoded on their own. */
  lemma UnsextetsGroup(g: seq<Sextet>, s: seq<Sextet>)
    requires |g| == 4
    ensures Unsextets(g + s) == Ungroup(g[0], g[1], g[2], g[3]) + Unsextets(s)
  {
    assert (g + s)[4..] == s;
  }

  lemma {:induction false} UnsextetsSextets(x: seq<Byte>)
    ensures Unsextets(Sextets(x)) == x
  {
    hide Group, Ungroup;
    if |x| == 0 {
    } else if |x| == 1 {
      UngroupGroup(x[0], 0, 0);
      GroupBits(x[0], 0, 0);
    } else if |x| == 2 {
      UngroupGroup(x[0], x[1], 0);
      GroupBits(x[0], x[1], 0);
    } else {
      UngroupGroup(x[0], x[1], x[2]);
      UnsextetsSextets(x[3..]);
      UnsextetsGroup(Group(x[0], x[1], x[2]), Sextets(x[3..]));
      assert x == [x[0], x[1], x[2]] + x[3..];
    }
  }

  /** `s[q..]` shows byte `b`, the `r`-th of its group, after the byte `prev`; `last` when the input ends with it. */
  ghost predicate Shows(s: seq<Sextet>, q: nat, r: nat, prev: Byte, b: Byte, last: bool) {
    && (r == 0 ==> q + 1 < |s| && s[q] == b / 4 && (last ==> q + 2 == |s| && s[q + 1] == b % 4 * 16))
    && (r == 1 ==>
          && q + 2 < |s| && s[q + 1] == prev % 4 * 16 + b / 16
          && (last ==> q + 3 == |s| && s[q + 2] == b % 16 * 4))
    && (r == 2 ==> q + 3 < |s| && s[q + 2] == prev % 16 * 4 + b / 64 && s[q + 3] == b % 64)
  }

  /** The first group of a text, missing bytes read as zero. */
  lemma SextetsHead(x: seq<Byte>)
    requires |x| > 0
    ensures var s, g := Sextets(x), Group(x[0], if |x| > 1 then x[1] else 0, if |x| > 2 then x[2] else 0);
            && (if |x| < 3 then |s| == |x| + 1 else |s| >= 4)
            && s[0] == g[0] && s[1] == g[1] && (|x| > 1 ==> s[2] == g[2]) && (|x| > 2 ==> s[3] == g[3])
  {
  }

  /** The first group, bit by bit. */
  lemma FirstGroup(x: seq<Byte>, i: nat)
    requires i < |x| && i < 3
    ensures Shows(Sextets(x), 0, i, if i > 0 then x[i - 1] else 0, x[i], i + 1 == |x|)
  {
    hide Group, Sextets;
    var a: Byte, b: Byte, c: Byte := x[0], if |x| > 1 then x[1] else 0, if |x| > 2 then x[2] else 0;
    GroupBits(a, b, c);
    SextetsHead(x);
    SmallParts(a, b, c);
    ShowsGroup(Sextets(x), a, b, c, |x|, i);
  }

  /** What a first group of these bytes shows. */
  lemma ShowsGroup(s: seq<Sextet>, a: Byte, b: Byte, c: Byte, n: nat, i: nat)
    requires i < n && i < 3 && (if n < 3 then |s| == n + 1 else |s| >= 4)
    requires s[0] == a / 4 && s[1] == a % 4 * 16 + b / 16
    requires n > 1 ==> s[2] == b % 16 * 4 + c / 64
    requires n > 2 ==> s[3] == c % 64
    requires n == 1 ==> a % 4 * 16 + b / 16 == a % 4 * 16
    requires n == 2 ==> b % 16 * 4 + c / 64 == b % 16 * 4
    requires n == 3 ==> |s| == 4
    ensures Shows(s, 0, i, if i == 0 then 0 else if i == 1 then a else b, if i == 0 then a else if i == 1 then b else c,
                  i + 1 == n)
  {
  }

  lemma SmallParts(a: Byte, b: Byte, c: Byte)
    ensures b == 0 ==> a % 4 * 16 + b / 16 == a % 4 * 16
    ensures c == 0 ==> b % 16 * 4 + c / 64 == b % 16 * 4
  {
  }

  /** The six-bit groups around byte `3 * q + r`, in terms of that byte and the one before. */
  lemma {:induction false} SextetAt(x: seq<Byte>, q: nat, r: nat)
    requires r < 3 && 3 * q + r < |x|
    ensures Shows(Sextets(x), 4 * q, r, if r > 0 then x[3 * q + r - 1] else 0, x[3 * q + r], 3 * q + r + 1 == |x|)
  {
    if q == 0 {
      FirstGroup(x, r);
    } else {
      var y := x[3..];
      SextetAt(y, q - 1, r);
      ShowsShift(Group(x[0], x[1], x[2]), Sextets(y), 4 * (q - 1), r,
                 if r > 0 then x[3 * q + r - 1] else 0, x[3 * q + r], 3 * q + r + 1 == |x|);
    }
  }

  lemma ShowsShift(g: seq<Sextet>, s: seq<Sextet>, q: nat, r: nat, prev: Byte, b: Byte, last: bool)
    requires |g| == 4 && r < 3 && Shows(s, q, r, prev, b, last)
    ensures Shows(g + s, q + 4, r, prev, b, last)
  {
  }

  /** What one more six-bit group adds to the decoded bytes. */
  function Increment(s: seq<Sextet>, t: Sextet): seq<Byte> {
    if |s| % 4 == 0 then [] else
    var last: int := s[|s| - 1];
    if |s| % 4 == 1 then [Carry(last * 4, t / 16)]
    else if |s| % 4 == 2 then [Carry(last * 16, t / 4)]
    else [Carry(last * 64, t)]
  }

  lemma {:induction false} UnsextetsSnoc(s: seq<Sextet>, t: Sextet)
    ensures Unsextets(s + [t]) == Unsextets(s) + Increment(s, t)
  {
    var u := s + [t];
    if |s| >= 4 {
      UnsextetsSnoc(s[4..], t);
      var g := Ungroup(s[0], s[1], s[2], s[3]);
      calc {
        Unsextets(u);
        { assert u[4..] == s[4..] + [t]; }
        g + Unsextets(s[4..] + [t]);
        g + (Unsextets(s[4..]) + Increment(s[4..], t));
        (g + Unsextets(s[4..])) + Increment(s[4..], t);
        { IncrementDrop(s, t); }
        Unsextets(s) + Increment(s, t);
      }
    } else if |s| == 1 {
      UngroupBits(s[0], t, 0, 0);
    } else if |s| == 2 {
      UngroupBits(s[0], s[1], 0, 0);
      UngroupBits(s[0], s[1], t, 0);
    } else if |s| == 3 {
      UngroupBits(s[0], s[1], s[2], 0);
      UngroupBits(s[0], s[1], s[2], t);
      assert Unsextets(u[4..]) == [];
    }
  }

  lemma IncrementDrop(s: seq<Sextet>, t: Sextet)
    requires |s| >= 4
    ensures Increment(s[4..], t) == Increment(s, t)
  {
    assert |s[4..]| % 4 == |s| % 4;
    if |s| > 4 {
      assert s[4..][|s[4..]| - 1] == s[|s| - 1];
    }
  }

  // ---------------------------------------------------------------- text

  /** The '=' signs that complete the last quartet. */
  function Padding(n: nat): (r: seq<Byte>)
    ensures |r| == (if n % 3 == 0 then 0 else 3 - n % 3)
  {
    if n % 3 == 0 then [] else if n % 3 == 1 then ['=' as int, '=' as int] else ['=' as int]
  }

  function Spell(cs: seq<Char16>, s: seq<Sextet>): (r: seq<Byte>)
    requires |cs| == 64
    ensures |r| == |s| && forall k :: 0 <= k < |s| ==> r[k] == Low(cs[s[k]])
  {
    seq(|s|, k requires 0 <= k < |s| => Low(cs[s[k]]))
  }

  /** The encoded text without line breaks. */
  function Text(cs: seq<Char16>, pad: bool, x: seq<Byte>): (r: seq<Byte>)
    requires |cs| == 64
  {
    Spell(cs, Sextets(x)) + if pad then Padding(|x|) else []
  }

  /** How many characters of the text are written before the end of input is seen. */
  function Body(n: nat): nat {
    n / 3 * 4 + n % 3
  }

  /** `n` characters in all: the body and, after a quartet left short, one to as many more as complete it. */
  ghost predicate Quartets(body: nat, n: nat) {
    if body % 4 == 0 then n == body else body < n <= body + 4 - body % 4
  }

  /** With padding whole quartets, without it as many characters as the bits of `n` bytes need. */
  lemma TextLength(cs: seq<Char16>, pad: bool, x: seq<Byte>)
    requires |cs| == 64
    ensures |Text(cs, pad, x)| == if pad then (|x| + 2) / 3 * 4 else (4 * |x| + 2) / 3
    ensures Body(|x|) <= |Text(cs, pad, x)| && Quartets(Body(|x|), |Text(cs, pad, x)|)
  {
    hide Sextets, Spell, Padding, Body;
    var q, r := |x| / 3, |x| % 3;
    BodyIs(q, r);
    SextetCount(|x|);
    assert |Text(cs, pad, x)| == q * 4 + (if r == 0 then 0 else r + 1) + (if pad then |Padding(|x|)| else 0);
  }

  lemma SextetCount(n: nat)
    ensures (4 * n + 2) / 3 == n / 3 * 4 + (if n % 3 == 0 then 0 else n % 3 + 1)
    ensures (n + 2) / 3 * 4 == (4 * n + 2) / 3 + (3 - n % 3) % 3
  {
    var q, r := n / 3, n % 3;
    assert n == 3 * q + r;
    assert (4 * n + 2) / 3 == 4 * q + (4 * r + 2) / 3;
    assert (n + 2) / 3 == q + (r + 2) / 3;
  }

  lemma BodyIs(q: nat, r: nat)
    requires r < 3
    ensures Body(3 * q + r) == q * 4 + r && Body(3 * q + r) % 4 == r
  {
    assert (3 * q + r) / 3 == q && (3 * q + r) % 3 == r;
  }

  /** Java's `++` on an `int`. */
  function Next(line: JavaInt): JavaInt {
    if line == 0x7FFF_FFFF then -0x8000_0000 else line + 1
  }

  /** Whether a line break comes before character `i`, written with `line` characters charged to the current line. */
  predicate BreakBefore(split: JavaInt, i: nat, line: JavaInt) {
    if i % 4 == 3 then line == Next(split) else line >= split
  }

  /** The characters from `i` on with their line breaks; none falls within the last, short quartet. */
  function Lay(text: seq<Byte>, body: nat, split: JavaInt, i: nat, line: JavaInt): seq<Byte>
    requires i <= body <= |text|
    decreases body - i
  {
    if i == body then text[i..]
    else if BreakBefore(split, i, line) then
      ['\n' as int, text[i]] + Lay(text, body, split, i + 1, if i % 4 == 3 then 2 else 1)
    else [text[i]] + Lay(text, body, split, i + 1, Next(line))
  }

  function Encoded(cs: seq<Char16>, split: JavaInt, pad: bool, x: seq<Byte>): seq<Byte>
    requires |cs| == 64
  {
    Lay(Text(cs, pad, x), Body(|x|), split, 0, 0)
  }

  // ---------------------------------------------------------------- decoding

  /** The six-bit groups a text stands for, ignored characters left out; None when a character is refused. */
  function Indices(convert: Convert, text: seq<Byte>): Option<seq<int>> {
    if |text| == 0 then Some([])
    else
      match (Lookup(convert, text[0]), Indices(convert, text[1..]))
      case (Some(v), Some(rest)) => Some((if v >= 0 then [v] else []) + rest)
      case _ => None
  }

  /** No lookup reaches beyond a six-bit group. */
  ghost predicate SixBit(convert: Convert) {
    forall c: int :: Lookup(convert, c).Some? ==> Lookup(convert, c).value < 64
  }

  lemma {:induction false} IndicesSixBit(convert: Convert, text: seq<Byte>)
    requires SixBit(convert)
    ensures var r := Indices(convert, text); r.Some? ==> forall k :: 0 <= k < |r.value| ==> 0 <= r.value[k] < 64
  {
    if |text| > 0 {
      IndicesSixBit(convert, text[1..]);
    }
  }

  lemma {:induction false} IndicesConcat(convert: Convert, a: seq<Byte>, b: seq<Byte>)
    ensures Indices(convert, a + b) ==
            match (Indices(convert, a), Indices(convert, b)) case (Some(p), Some(q)) => Some(p + q) case _ => None
  {
    if |a| == 0 {
      assert a + b == b;
      if Indices(convert, b).Some? {
        assert [] + Indices(convert, b).value == Indices(convert, b).value;
      }
    } else {
      assert (a + b)[1..] == a[1..] + b;
      IndicesConcat(convert, a[1..], b);
      var r := (Lookup(convert, a[0]), Indices(convert, a[1..]), Indices(convert, b));
      if r.0.Some? && r.1.Some? && r.2.Some? {
        var h := if r.0.value >= 0 then [r.0.value] else [];
        assert h + (r.1.value + r.2.value) == (h + r.1.value) + r.2.value;
      }
    }
  }

  function Decoded(convert: Convert, text: seq<Byte>): Option<seq<Byte>>
    requires SixBit(convert)
  {
    IndicesSixBit(convert, text);
    match Indices(convert, text)
    case Some(s) => Some(Unsextets(s))
    case None => None
  }

  /** A text is refused exactly for one of its characters. */
  lemma {:induction false} IndicesNoneIff(convert: Convert, text: seq<Byte>)
    ensures Indices(convert, text).None? <==> exists k :: 0 <= k < |text| && Lookup(convert, text[k]).None?
  {
    if |text| > 0 {
      IndicesNoneIff(convert, text[1..]);
      if k :| 0 <= k < |text[1..]| && Lookup(convert, text[1..][k]).None? {
        assert text[k + 1] == text[1..][k];
      }
      if k :| 0 < k < |text| && Lookup(convert, text[k]).None? {
        assert text[1..][k - 1] == text[k];
      }
    }
  }

  lemma DecodedNoneIff(convert: Convert, text: seq<Byte>)
    requires SixBit(convert)
    ensures Decoded(convert, text).None? <==> exists k :: 0 <= k < |text| && Lookup(convert, text[k]).None?
  {
    IndicesNoneIff(convert, text);
  }

  /** Line feeds, carriage returns and padding leave what is decoded as it is; with a range table blanks do, too. */
  lemma Ignored(convert: Convert, a: seq<Byte>, c: Byte, b: seq<Byte>)
    requires SixBit(convert)
    requires c == '\n' as int || c == '\r' as int || c == '=' as int || (convert.Ordered? && c == ' ' as int)
    ensures Decoded(convert, a + [c] + b) == Decoded(convert, a + b)
  {
    var none: seq<int> := [];
    IndicesConcat(convert, a + [c], b);
    IndicesConcat(convert, a, [c]);
    IndicesConcat(convert, a, b);
    assert [c][1..] == [] && Lookup(convert, c) == Some(-1);
    assert Indices(convert, []) == Some(none) && none + none == none;
    assert Indices(convert, [c]) == Some(none);
    if Indices(convert, a).Some? {
      assert Indices(convert, a).value + none == Indices(convert, a).value;
    }
  }

  // ---------------------------------------------------------------- decode(encode(x)) == x, and when

  /** Line breaks are invisible to the decoder. */
  lemma {:induction false} IndicesLay(convert: Convert, text: seq<Byte>, body: nat, split: JavaInt, i: nat,
                                      line: JavaInt)
    requires i <= body <= |text|
    ensures Indices(convert, Lay(text, body, split, i, line)) == Indices(convert, text[i..])
    decreases body - i
  {
    hide Indices, BreakBefore, Next;
    if i < body {
      var next := if !BreakBefore(split, i, line) then Next(line) else if i % 4 == 3 then 2 else 1;
      var rest := Lay(text, body, split, i + 1, next);
      IndicesLay(convert, text, body, split, i + 1, next);
      SameAfter(convert, text[i], rest, text[i + 1..]);
      assert text[i..] == [text[i]] + text[i + 1..];
      BreakSkipped(convert, [text[i]] + rest);
      assert ['\n' as int, text[i]] + rest == ['\n' as int] + ([text[i]] + rest);
    }
  }

  lemma SameAfter(convert: Convert, c: Byte, a: seq<Byte>, b: seq<Byte>)
    requires Indices(convert, a) == Indices(convert, b)
    ensures Indices(convert, [c] + a) == Indices(convert, [c] + b)
  {
    assert ([c] + a)[1..] == a && ([c] + b)[1..] == b;
  }

  lemma BreakSkipped(convert: Convert, text: seq<Byte>)
    ensures Indices(convert, ['\n' as int] + text) == Indices(convert, text)
  {
    var lf := '\n' as int;
    assert ([lf] + text)[1..] == text && Lookup(convert, lf) == Some(-1);
    var r := Indices(convert, text);
    assert r.Some? ==> [] + r.value == r.value;
  }

  lemma {:induction false} IndicesSpell(cs: seq<Char16>, convert: Convert, s: seq<Sextet>)
    requires |cs| == 64 && Inverts(cs, convert)
    ensures Indices(convert, Spell(cs, s)) == Some(s)
  {
    if |s| > 0 {
      IndicesSpell(cs, convert, s[1..]);
      assert Spell(cs, s)[1..] == Spell(cs, s[1..]);
      assert InvertsAt(cs, convert, s[0]);
      assert s == [s[0]] + s[1..];
    }
  }

  lemma IndicesPadding(convert: Convert, n: nat)
    ensures Indices(convert, Padding(n)) == Some([])
  {
    var eq := '=' as int;
    assert Lookup(convert, eq) == Some(-1);
    assert Indices(convert, []) == Some([]);
    var none: seq<int> := [];
    assert none + none == none;
    assert [eq][1..] == [] && [eq, eq][1..] == [eq];
    assert Indices(convert, [eq]) == Some(none);
  }

  /** The six-bit groups the decoder sees are those of the text. */
  lemma IndicesEncoded(cs: seq<Char16>, convert: Convert, split: JavaInt, pad: bool, x: seq<Byte>)
    requires |cs| == 64
    ensures Indices(convert, Encoded(cs, split, pad, x)) == Indices(convert, Spell(cs, Sextets(x)))
  {
    var spelled, tail := Spell(cs, Sextets(x)), if pad then Padding(|x|) else [];
    IndicesLay(convert, spelled + tail, Body(|x|), split, 0, 0);
    assert (spelled + tail)[0..] == spelled + tail;
    IndicesConcat(convert, spelled, tail);
    IndicesPadding(convert, |x|);
    if Indices(convert, spelled).Some? {
      assert Indices(convert, spelled).value + [] == Indices(convert, spelled).value;
    }
  }

  lemma RoundTrip(cs: seq<Char16>, convert: Convert, split: JavaInt, pad: bool, x: seq<Byte>)
    requires |cs| == 64 && SixBit(convert) && Inverts(cs, convert)
    ensures Decoded(convert, Encoded(cs, split, pad, x)) == Some(x)
  {
    IndicesEncoded(cs, convert, split, pad, x);
    IndicesSpell(cs, convert, Sextets(x));
    UnsextetsSextets(x);
  }

  /** Three bytes that a position the lookup misses prevents from being restored. */
  lemma RoundTripFails(cs: seq<Char16>, convert: Convert, split: JavaInt, pad: bool, i: Sextet)
    requires |cs| == 64 && SixBit(convert) && !InvertsAt(cs, convert, i)
    ensures Decoded(convert, Encoded(cs, split, pad, [i * 4, 0, 0])) != Some([i * 4, 0, 0])
  {
    hide Lay, Encoded, Lookup, Sextets, Group, Unsextets, Indices;
    var x: seq<Byte> := [i * 4, 0, 0];
    IndicesEncoded(cs, convert, split, pad, x);
    OneGroup(i);
    var text := Spell(cs, Sextets(x));
    FirstMissed(cs, convert, i, text);
  }

  /** The first byte of three that begin with the bits of `i`. */
  lemma OneGroup(i: Sextet)
    ensures var s := Sextets([i * 4, 0, 0]); |s| == 4 && s[0] == i
  {
    GroupBits(i * 4, 0, 0);
    var g := Group(i * 4, 0, 0);
    assert g[0] == i && Sextets([i * 4, 0, 0]) == g + Sextets([]) == g;
  }

  /** Four characters whose first is not found, or found elsewhere, do not stand for three bytes with these bits. */
  lemma FirstMissed(cs: seq<Char16>, convert: Convert, i: Sextet, text: seq<Byte>)
    requires |cs| == 64 && SixBit(convert) && !InvertsAt(cs, convert, i) && |text| == 4 && text[0] == Low(cs[i])
    ensures Decoded(convert, text) != Some([i * 4, 0, 0])
  {
    hide Lookup, Unsextets;
    IndicesSixBit(convert, text);
    IndicesCount(convert, text[1..]);
    var v, rest := Lookup(convert, text[0]), Indices(convert, text[1..]);
    if v.Some? && rest.Some? {
      if v.value < 0 {
        assert [] + rest.value == rest.value;
        UnsextetsFew(rest.value);
      } else {
        assert ([v.value] + rest.value)[0] == v.value != i;
        UnsextetsHead([v.value] + rest.value);
      }
    }
  }

  lemma UnsextetsFew(s: seq<Sextet>)
    requires |s| < 4
    ensures |Unsextets(s)| < 3
  {
  }

  lemma {:induction false} IndicesCount(convert: Convert, text: seq<Byte>)
    ensures var r := Indices(convert, text); r.Some? ==> |r.value| <= |text|
  {
    if |text| > 0 {
      IndicesCount(convert, text[1..]);
    }
  }

  lemma UnsextetsHead(s: seq<Sextet>)
    requires 0 < |s| <= 4
    ensures |Unsextets(s)| >= 1 ==> Unsextets(s)[0] / 4 == s[0]
    ensures |Unsextets(s)| < |s|
  {
    if |s| == 2 {
      UngroupBits(s[0], s[1], 0, 0);
    } else if |s| == 3 {
      UngroupBits(s[0], s[1], s[2], 0);
    } else if |s| == 4 {
      UngroupBits(s[0], s[1], s[2], s[3]);
      assert Unsextets(s[4..]) == [];
    }
  }

  /** Decoding undoes encoding for every input exactly when the codeset is usable with its lookup. */
  lemma RoundTripIff(cs: seq<Char16>, ordered: bool, split: JavaInt, pad: bool)
    requires |cs| == 64
    ensures SixBit(ConvertOf(cs, ordered))
    ensures (forall x: seq<Byte> :: Decoded(ConvertOf(cs, ordered), Encoded(cs, split, pad, x)) == Some(x))
            <==> Usable(cs, ordered)
  {
    var convert := ConvertOf(cs, ordered);
    BuiltIsSixBit(cs, ordered);
    InvertsIff(cs, ordered);
    if Usable(cs, ordered) {
      forall x: seq<Byte> ensures Decoded(convert, Encoded(cs, split, pad, x)) == Some(x) {
        RoundTrip(cs, convert, split, pad, x);
      }
    } else {
      var i :| 0 <= i < |cs| && !InvertsAt(cs, convert, i);
      RoundTripFails(cs, convert, split, pad, i);
    }
  }

  lemma BuiltIsSixBit(cs: seq<Char16>, ordered: bool)
    requires |cs| == 64
    ensures SixBit(ConvertOf(cs, ordered))
  {
    forall c: int ensures var r := Lookup(ConvertOf(cs, ordered), c); r.Some? ==> r.value < 64 {
      LookupBounded(cs, ordered, c);
    }
  }
}
