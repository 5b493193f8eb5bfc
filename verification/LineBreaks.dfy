/** The line structure of encoded text, and which split widths really bound the lines. */
module LineBreaks {
  import opened Wrappers
  import opened Codeset
  import opened Base64

  /** The lines of a text, as separated by line feeds. */
  function Lines(s: seq<Byte>): (r: seq<seq<Byte>>)
    ensures |r| > 0
  {
    if |s| == 0 then [[]]
    else
      var r := Lines(s[1..]);
      if s[0] == '\n' as int then [[]] + r else [[s[0]] + r[0]] + r[1..]
  }

  ghost predicate NoLineFeed(s: seq<Byte>) {
    '\n' as int !in s
  }

  /**
   All lines but the last hold exactly `split` characters; the last holds at most so many, and some unless
   it is the only one.
   */
  ghost predicate WellSplit(lines: seq<seq<Byte>>, split: int) {
    && (forall k :: 0 <= k < |lines| - 1 ==> |lines[k]| == split)
    && (|lines| > 0 ==> |lines[|lines| - 1]| <= split)
    && (|lines| > 1 ==> |lines[|lines| - 1]| > 0)
  }

  ghost predicate Fits(lines: seq<seq<Byte>>, split: int) {
    forall k :: 0 <= k < |lines| ==> |lines[k]| <= split
  }

  /** The same, for the rest of a text whose current line holds `line` characters already. */
  ghost predicate WellSplitFrom(lines: seq<seq<Byte>>, split: int, line: int)
    requires |lines| > 0
  {
    && (|lines| == 1 ==> line + |lines[0]| <= split)
    && (|lines| > 1 ==> line + |lines[0]| == split && WellSplit(lines[1..], split) && |lines[|lines| - 1]| > 0)
  }

  lemma LinesCons(c: Byte, s: seq<Byte>)
    ensures c != '\n' as int ==> Lines([c] + s) == [[c] + Lines(s)[0]] + Lines(s)[1..]
    ensures c == '\n' as int ==> Lines([c] + s) == [[]] + Lines(s)
  {
    assert ([c] + s)[1..] == s;
  }

  lemma {:induction false} LinesPlain(s: seq<Byte>)
    requires NoLineFeed(s)
    ensures Lines(s) == [s]
  {
    if |s| > 0 {
      LinesPlain(s[1..]);
      assert s == [s[0]] + s[1..];
    }
  }

  /** One more character in front of well split lines. */
  lemma WellSplitCons(c: Byte, lines: seq<seq<Byte>>, split: int, line: int)
    requires |lines| > 0 && WellSplitFrom(lines, split, line + 1)
    ensures WellSplitFrom([[c] + lines[0]] + lines[1..], split, line)
  {
    assert ([[c] + lines[0]] + lines[1..])[1..] == lines[1..];
  }

  lemma WellSplitStart(lines: seq<seq<Byte>>, split: int)
    requires |lines| > 0 && WellSplitFrom(lines, split, 0)
    ensures WellSplit(lines, split)
  {
    assert forall k :: 0 < k < |lines| ==> lines[k] == lines[1..][k - 1];
  }

  /** A line feed in front of well split lines ends a full line. */
  lemma WellSplitBreak(lines: seq<seq<Byte>>, split: int)
    requires |lines| > 0 && WellSplitFrom(lines, split, 0) && lines != [[]]
    ensures WellSplit(lines, split) && WellSplitFrom([[]] + lines, split, split)
  {
    WellSplitStart(lines, split);
    assert ([[]] + lines)[1..] == lines;
    if |lines| == 1 {
      assert lines == [lines[0]];
    }
  }

  lemma {:induction false} LayWellSplit(text: seq<Byte>, body: nat, split: JavaInt, i: nat, line: nat)
    requires i <= body <= |text| && NoLineFeed(text) && Quartets(body, |text|)
    requires 0 < split && split % 4 == 0 && line <= split && line % 4 == i % 4
    ensures WellSplitFrom(Lines(Lay(text, body, split, i, line)), split, line)
    decreases body - i
  {
    hide Lines, WellSplitFrom, BreakBefore, Next, Quartets;
    if i == body {
      LineEnd(text, body, split, line);
    } else {
      assert text[i] in text;
      BreaksWhenFull(split, i, line);
      if line == split {
        LayWellSplit(text, body, split, i + 1, 1);
        BrokenLine(text[i], Lay(text, body, split, i + 1, 1), split);
      } else {
        LayWellSplit(text, body, split, i + 1, line + 1);
        LongerLine(text[i], Lay(text, body, split, i + 1, line + 1), split, line);
      }
    }
  }

  /** With a width that 4 divides, a break comes exactly before the character that finds the line full. */
  lemma BreaksWhenFull(split: JavaInt, i: nat, line: nat)
    requires 0 < split && split % 4 == 0 && line <= split && line % 4 == i % 4
    ensures BreakBefore(split, i, line) <==> line == split
    ensures line == split ==> i % 4 != 3 && 1 % 4 == (i + 1) % 4
    ensures line < split ==> Next(line) == line + 1 && (line + 1) % 4 == (i + 1) % 4
  {
    assert line % 4 == 3 ==> line < split && line != Next(split);
  }

  /** One more character in a line that is not full. */
  lemma LongerLine(c: Byte, rest: seq<Byte>, split: int, line: int)
    requires c != '\n' as int && WellSplitFrom(Lines(rest), split, line + 1)
    ensures WellSplitFrom(Lines([c] + rest), split, line)
  {
    hide Lines, WellSplitFrom;
    LinesCons(c, rest);
    WellSplitCons(c, Lines(rest), split, line);
  }

  /** A line that is full, and a character that begins the next. */
  lemma BrokenLine(c: Byte, rest: seq<Byte>, split: int)
    requires c != '\n' as int && WellSplitFrom(Lines(rest), split, 1)
    ensures WellSplitFrom(Lines(['\n' as int, c] + rest), split, split)
  {
    var lf := '\n' as int;
    LinesCons(c, rest);
    WellSplitCons(c, Lines(rest), split, 0);
    LinesCons(lf, [c] + rest);
    assert [lf, c] + rest == [lf] + ([c] + rest);
    WellSplitBreak(Lines([c] + rest), split);
  }

  /** The last characters and the padding still fit into the line. */
  lemma LineEnd(text: seq<Byte>, body: nat, split: int, line: nat)
    requires body <= |text| && NoLineFeed(text) && Quartets(body, |text|)
    requires 0 < split && split % 4 == 0 && line <= split && line % 4 == body % 4
    ensures WellSplitFrom(Lines(text[body..]), split, line)
  {
    hide Lines;
    LinesPlain(text[body..]);
    assert line + |text| - body <= split;
  }

  lemma TextNoLineFeed(cs: seq<Char16>, pad: bool, x: seq<Byte>)
    requires |cs| == 64 && forall i :: 0 <= i < 64 ==> Low(cs[i]) != '\n' as int
    ensures NoLineFeed(Text(cs, pad, x))
  {
  }

  /**
   With a width that 4 divides, as in the 76 of section 6.8 of RFC 2045, every line but the last is full,
   the last is no longer, padding included, and no line feed ends the text.
   */
  lemma EncodedWellSplit(cs: seq<Char16>, split: JavaInt, pad: bool, x: seq<Byte>)
    requires |cs| == 64 && forall i :: 0 <= i < 64 ==> Low(cs[i]) != '\n' as int
    requires 0 < split && split % 4 == 0
    ensures WellSplit(Lines(Encoded(cs, split, pad, x)), split)
  {
    TextNoLineFeed(cs, pad, x);
    var text := Text(cs, pad, x);
    TextLength(cs, pad, x);
    LayWellSplit(text, Body(|x|), split, 0, 0);
    WellSplitStart(Lines(Encoded(cs, split, pad, x)), split);
  }

  /** No line break is written while the count stays within the width, nor before the fourth character of a quartet. */
  lemma {:induction false} LayUnbroken(text: seq<Byte>, body: nat, split: JavaInt, i: nat)
    requires i <= body <= |text| && 0 < split && i <= split + 1
    requires body <= split || (body == split + 1 && split % 4 == 3)
    ensures Lay(text, body, split, i, if i <= split then i else Next(split)) == text[i..]
    decreases body - i
  {
    if i < body {
      LayUnbroken(text, body, split, i + 1);
    }
  }

  function Zeros(n: nat): (r: seq<Byte>)
    ensures |r| == n
  {
    seq(n, _ => 0)
  }

  /** An input whose text overruns a width that 4 does not divide. */
  function Overrun(split: int): seq<Byte>
    requires split > 0
  {
    Zeros(split / 4 * 3 + split % 4)
  }

  lemma OverrunDoesNotFit(cs: seq<Char16>, split: JavaInt, pad: bool)
    requires |cs| == 64 && forall i :: 0 <= i < 64 ==> Low(cs[i]) != '\n' as int
    requires 0 < split && split % 4 != 0
    ensures !Fits(Lines(Encoded(cs, split, pad, Overrun(split))), split)
  {
    var x := Overrun(split);
    var text := Text(cs, pad, x);
    var k := split / 4;
    if split % 4 == 3 {
      assert |x| == 3 * (k + 1) && Body(|x|) == split + 1 == |text|;
    } else {
      assert |x| / 3 == k && Body(|x|) == split < |text|;
    }
    LayUnbroken(text, Body(|x|), split, 0);
    assert text[0..] == text;
    TextNoLineFeed(cs, pad, x);
    LinesPlain(text);
    assert Lines(Encoded(cs, split, pad, x))[0] == text;
  }

  /** The width bounds the lines of every text exactly when 4 divides it. */
  lemma LinesFitIff(cs: seq<Char16>, split: JavaInt, pad: bool)
    requires |cs| == 64 && forall i :: 0 <= i < 64 ==> Low(cs[i]) != '\n' as int
    requires 0 < split
    ensures (forall x: seq<Byte> :: Fits(Lines(Encoded(cs, split, pad, x)), split)) <==> split % 4 == 0
  {
    if split % 4 == 0 {
      forall x: seq<Byte> ensures Fits(Lines(Encoded(cs, split, pad, x)), split) {
        EncodedWellSplit(cs, split, pad, x);
        var lines := Lines(Encoded(cs, split, pad, x));
        assert lines[|lines| - 1] == lines[|lines| - 1];
      }
    } else {
      OverrunDoesNotFit(cs, split, pad);
    }
  }

  // ---------------------------------------------------------------- every width

  /**
   The lines of a text from character `p` on, the first with `line` characters charged to it already: each but the last
   holds `split` characters, and one more if a break would come before the fourth character of a quartet; the last holds
   the rest, at most so many up to character `body`.
   */
  ghost predicate CutAt(lines: seq<seq<Byte>>, split: int, body: nat, n: nat, p: nat, line: int)
    decreases lines
  {
    && |lines| > 0 && p <= body <= n
    && var start := p - line;
       var width := if (start + split) % 4 == 3 then split + 1 else split;
       if |lines| == 1 then p + |lines[0]| == n && body - start <= width
       else
         && line + |lines[0]| == width && p + |lines[0]| < body
         && CutAt(lines[1..], split, body, n, p + |lines[0]|, 0)
  }

  lemma CutCons(c: Byte, rest: seq<Byte>, split: int, body: nat, n: nat, p: nat, line: int)
    requires c != '\n' as int && CutAt(Lines(rest), split, body, n, p + 1, line + 1)
    ensures CutAt(Lines([c] + rest), split, body, n, p, line)
  {
    hide Lines;
    LinesCons(c, rest);
    var lines := Lines(rest);
    assert ([[c] + lines[0]] + lines[1..])[1..] == lines[1..];
  }

  lemma CutBreak(rest: seq<Byte>, split: int, body: nat, n: nat, p: nat, line: int)
    requires CutAt(Lines(rest), split, body, n, p, 0) && p < body
    requires line == if (p - line + split) % 4 == 3 then split + 1 else split
    ensures CutAt(Lines(['\n' as int] + rest), split, body, n, p, line)
  {
    hide Lines;
    LinesCons('\n' as int, rest);
    assert ([[]] + Lines(rest))[1..] == Lines(rest);
  }

  /** A break comes when the line holds `split` characters, and one character later if that were in the last place. */
  lemma BreaksLate(split: JavaInt, i: nat, line: nat)
    requires 0 < split < 0x7FFF_FFFF && line <= i
    requires line <= split || (line == split + 1 && i % 4 == 0)
    ensures BreakBefore(split, i, line) <==> line == if (i - line + split) % 4 == 3 then split + 1 else split
    ensures !BreakBefore(split, i, line) ==>
              line <= split && Next(line) == line + 1 && (line == split ==> (i + 1) % 4 == 0)
    ensures BreakBefore(split, i, line) ==> i % 4 != 3
  {
  }

  lemma CutEnd(text: seq<Byte>, body: nat, split: JavaInt, line: nat)
    requires body <= |text| && NoLineFeed(text) && 0 < split && line <= body
    requires line <= split || (line == split + 1 && body % 4 == 0)
    ensures CutAt(Lines(text[body..]), split, body, |text|, body, line)
  {
    hide Lines;
    LinesPlain(text[body..]);
  }

  lemma LayStep(text: seq<Byte>, body: nat, split: JavaInt, i: nat, line: JavaInt)
    requires i <= body <= |text|
    ensures i == body ==> Lay(text, body, split, i, line) == text[i..]
    ensures i < body && !BreakBefore(split, i, line) ==>
              Lay(text, body, split, i, line) == [text[i]] + Lay(text, body, split, i + 1, Next(line))
    ensures i < body && BreakBefore(split, i, line) ==>
              Lay(text, body, split, i, line) ==
              ['\n' as int] + ([text[i]] + Lay(text, body, split, i + 1, if i % 4 == 3 then 2 else 1))
  {
    hide BreakBefore, Next;
  }

  lemma {:induction false} LayCut(text: seq<Byte>, body: nat, split: JavaInt, i: nat, line: nat)
    requires i <= body <= |text| && NoLineFeed(text) && 0 < split < 0x7FFF_FFFF && line <= i
    requires line <= split || (line == split + 1 && i % 4 == 0)
    ensures CutAt(Lines(Lay(text, body, split, i, line)), split, body, |text|, i, line)
    decreases body - i
  {
    hide Lines, BreakBefore, Next, CutAt, Lay;
    LayStep(text, body, split, i, line);
    if i == body {
      CutEnd(text, body, split, line);
    } else {
      assert text[i] in text;
      BreaksLate(split, i, line);
      if BreakBefore(split, i, line) {
        var rest := Lay(text, body, split, i + 1, 1);
        LayCut(text, body, split, i + 1, 1);
        CutCons(text[i], rest, split, body, |text|, i, 0);
        CutBreak([text[i]] + rest, split, body, |text|, i, line);
      } else {
        LayCut(text, body, split, i + 1, line + 1);
        CutCons(text[i], Lay(text, body, split, i + 1, line + 1), split, body, |text|, i, line);
      }
    }
  }

  /** The lines for every width but the largest `int`: where each of them ends. */
  lemma LinesOfWidth(cs: seq<Char16>, split: JavaInt, pad: bool, x: seq<Byte>)
    requires |cs| == 64 && (forall i :: 0 <= i < 64 ==> Low(cs[i]) != '\n' as int) && 0 < split < 0x7FFF_FFFF
    ensures var n := if pad then (|x| + 2) / 3 * 4 else (4 * |x| + 2) / 3;
            CutAt(Lines(Encoded(cs, split, pad, x)), split, |x| / 3 * 4 + |x| % 3, n, 0, 0)
  {
    hide Lines, CutAt, Text;
    TextNoLineFeed(cs, pad, x);
    TextLength(cs, pad, x);
    LayCut(Text(cs, pad, x), Body(|x|), split, 0, 0);
  }

  /** With the largest `int` for a width the count wraps around before it is ever compared: no line is broken. */
  lemma {:induction false} LayNever(text: seq<Byte>, body: nat, i: nat, line: JavaInt)
    requires i <= body <= |text| && line % 4 == i % 4
    ensures Lay(text, body, 0x7FFF_FFFF, i, line) == text[i..]
    decreases body - i
  {
    if i < body {
      assert Next(line) % 4 == (i + 1) % 4;
      LayNever(text, body, i + 1, Next(line));
    }
  }

  lemma NeverBroken(cs: seq<Char16>, pad: bool, x: seq<Byte>)
    requires |cs| == 64 && forall i :: 0 <= i < 64 ==> Low(cs[i]) != '\n' as int
    ensures NoLineFeed(Encoded(cs, 0x7FFF_FFFF, pad, x))
  {
    hide Text;
    TextNoLineFeed(cs, pad, x);
    TextLength(cs, pad, x);
    LayNever(Text(cs, pad, x), Body(|x|), 0, 0);
  }

  /** The characters from `i` on, each with a break before it, but for the fourth of a quartet if `whole`. */
  function Scattered(text: seq<Byte>, body: nat, i: nat, whole: bool): seq<Byte>
    requires i <= body <= |text|
    decreases body - i
  {
    if i == body then text[i..]
    else (if whole && i % 4 == 3 then [text[i]] else ['\n' as int, text[i]]) + Scattered(text, body, i + 1, whole)
  }

  /** Without a positive width every character has a line of its own; a negative one leaves the last two together. */
  lemma {:induction false} LayScattered(text: seq<Byte>, body: nat, split: JavaInt, i: nat, line: JavaInt)
    requires i <= body <= |text| && split <= 0
    requires if i % 4 == 3 then line == 1 else 0 <= line <= 2
    ensures Lay(text, body, split, i, line) == Scattered(text, body, i, split < 0)
    decreases body - i
  {
    if i < body {
      assert i % 4 == 3 ==> (i + 1) % 4 == 0;
      LayScattered(text, body, split, i + 1, if !BreakBefore(split, i, line) then Next(line)
                                             else if i % 4 == 3 then 2 else 1);
    }
  }

  // ---------------------------------------------------------------- the characters

  /** A text without its line feeds. */
  function Unbroken(s: seq<Byte>): seq<Byte> {
    if |s| == 0 then [] else (if s[0] == '\n' as int then [] else [s[0]]) + Unbroken(s[1..])
  }

  lemma UnbrokenCons(c: Byte, s: seq<Byte>)
    ensures c != '\n' as int ==> Unbroken([c] + s) == [c] + Unbroken(s)
    ensures c == '\n' as int ==> Unbroken([c] + s) == Unbroken(s)
  {
    assert ([c] + s)[1..] == s;
  }

  lemma {:induction false} UnbrokenPlain(s: seq<Byte>)
    requires NoLineFeed(s)
    ensures Unbroken(s) == s
  {
    if |s| > 0 {
      UnbrokenPlain(s[1..]);
      assert s == [s[0]] + s[1..];
    }
  }

  lemma {:induction false} LayKeeps(text: seq<Byte>, body: nat, split: JavaInt, i: nat, line: JavaInt)
    requires i <= body <= |text| && NoLineFeed(text)
    ensures Unbroken(Lay(text, body, split, i, line)) == text[i..]
    decreases body - i
  {
    hide Unbroken, BreakBefore, Next;
    if i == body {
      UnbrokenPlain(text[i..]);
    } else {
      assert text[i] in text;
      var next := if !BreakBefore(split, i, line) then Next(line) else if i % 4 == 3 then 2 else 1;
      var rest := Lay(text, body, split, i + 1, next);
      LayKeeps(text, body, split, i + 1, next);
      UnbrokenCons(text[i], rest);
      UnbrokenCons('\n' as int, [text[i]] + rest);
      assert ['\n' as int, text[i]] + rest == ['\n' as int] + ([text[i]] + rest);
      assert text[i..] == [text[i]] + text[i + 1..];
    }
  }

  lemma EncodedUnbroken(cs: seq<Char16>, split: JavaInt, pad: bool, x: seq<Byte>)
    requires |cs| == 64 && forall i :: 0 <= i < 64 ==> Low(cs[i]) != '\n' as int
    ensures Unbroken(Encoded(cs, split, pad, x)) == Text(cs, pad, x)
  {
    hide Text;
    TextNoLineFeed(cs, pad, x);
    TextLength(cs, pad, x);
    LayKeeps(Text(cs, pad, x), Body(|x|), split, 0, 0);
  }

  /**
   What is written for `n` bytes, line breaks aside: the character for each six-bit group, of which there are
   `(4 * n + 2) / 3`, and with padding as many '=' as make up a multiple of four characters; without it, none.
   */
  lemma EncodedCharacters(cs: seq<Char16>, split: JavaInt, pad: bool, x: seq<Byte>)
    requires |cs| == 64 && forall i :: 0 <= i < 64 ==> Low(cs[i]) != '\n' as int
    ensures var t, n := Unbroken(Encoded(cs, split, pad, x)), (4 * |x| + 2) / 3;
            && |t| == (if pad then (|x| + 2) / 3 * 4 else n) && n == |Sextets(x)|
            && (forall k :: 0 <= k < n ==> t[k] == Low(cs[Sextets(x)[k]]))
            && (forall k :: n <= k < |t| ==> t[k] == '=' as int)
            && |t| - n == if pad then (3 - |x| % 3) % 3 else 0
  {
    hide Sextets, Encoded, Unbroken;
    EncodedUnbroken(cs, split, pad, x);
    TextLength(cs, pad, x);
    SextetCount(|x|);
  }
}
