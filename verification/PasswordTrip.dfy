/** When a password survives `enpass` and `depass`, over all codesets, ciphers, keys, passwords and random bytes. */
module PasswordTrip {
  import opened Wrappers
  import opened Codeset
  import opened Base64
  import opened SymmCodec
  import Keys = KeyShuffle
  import Frames = PasswordFrame

  /** `depass` gives back the password and the time that `enpass` hid, read with or without the prefix in front. */
  ghost predicate Survives(cs: seq<Char16>, convert: Convert, split: JavaInt, pad: bool, prefixed: bool,
                           cipher: Cipher, key: seq<Byte>, pass: seq<Byte>, rand: Frames.Random, now: nat, later: nat)
    requires |cs| == 64 && SixBit(convert)
  {
    var hidden := Enpassed(cs, split, pad, cipher, key, pass, rand, now);
    Depassed(convert, cipher, key, (if prefixed then ENC else []) + hidden, later) ==
    Some((pass, later / 0x1_0000 * 0x1_0000 + now % 0x1_0000))
  }

  /** The codeset can spell the prefix. */
  predicate Spells(cs: seq<Char16>) {
    ENC[0] in cs && ENC[1] in cs && ENC[2] in cs && ENC[3] in cs
  }

  /** What `enpass` writes stands for the encryption of the frame, and nothing of the password shows but that. */
  lemma HiddenIsEncrypted(cs: seq<Char16>, ordered: bool, split: JavaInt, pad: bool, cipher: Cipher, key: seq<Byte>,
                          pass: seq<Byte>, rand: Frames.Random, now: nat)
    requires |cs| == 64 && Usable(cs, ordered)
    ensures SixBit(ConvertOf(cs, ordered))
    ensures Decoded(ConvertOf(cs, ordered), Enpassed(cs, split, pad, cipher, key, pass, rand, now)) ==
            Some(cipher.enc(key, Frames.Frame(pass, rand, now)))
  {
    RoundTripIff(cs, ordered, split, pad);
  }

  /** `depass` decrypts what its text stands for, without the characters of the prefix, and reads that as a frame. */
  lemma DepassDecrypts(convert: Convert, cipher: Cipher, key: seq<Byte>, text: seq<Byte>, later: nat)
    requires SixBit(convert)
    ensures var enc := ['e' as int, 'n' as int, 'c' as int, ':' as int];
            var read := match Decoded(convert, text)
                        case Some(bytes) => Frames.Unframe(cipher.dec(key, bytes), later)
                        case None => None;
            && Depassed(convert, cipher, key, enc + text, later) == read
            && (!(enc <= text) ==> Depassed(convert, cipher, key, text, later) == read)
  {
    hide Decoded;
    var enc: seq<Byte> := ['e' as int, 'n' as int, 'c' as int, ':' as int];
    assert enc == ENC && (enc + text)[4..] == text;
  }

  // ---------------------------------------------------------------- encodings that begin like the prefix

  lemma {:induction false} LayAlphabet(text: seq<Byte>, body: nat, split: JavaInt, i: nat, line: JavaInt, c: Byte)
    requires i <= body <= |text| && c !in text && c != '\n' as int
    ensures c !in Lay(text, body, split, i, line)
    decreases body - i
  {
    if i < body {
      var broken := BreakBefore(split, i, line);
      LayAlphabet(text, body, split, i + 1, if !broken then Next(line) else if i % 4 == 3 then 2 else 1, c);
    }
  }

  /** A character outside the codeset is not written, padding and line breaks apart. */
  lemma NotWritten(cs: seq<Char16>, ordered: bool, split: JavaInt, pad: bool, x: seq<Byte>, c: Byte)
    requires |cs| == 64 && Usable(cs, ordered) && c !in cs && c != '=' as int && c != '\n' as int
    ensures c !in Encoded(cs, split, pad, x)
  {
    assert c !in Text(cs, pad, x) by {
      forall i | 0 <= i < 64 ensures Low(cs[i]) != c {
        assert UsableAt(cs, ordered, i);
      }
    }
    TextLength(cs, pad, x);
    LayAlphabet(Text(cs, pad, x), Body(|x|), split, 0, 0, c);
  }

  /** Where no line break shows, the next character of the text does. */
  lemma NoBreakYet(text: seq<Byte>, body: nat, split: JavaInt, i: nat)
    requires i < body <= |text| && i < 4
    requires Lay(text, body, split, i, i) != [] && Lay(text, body, split, i, i)[0] != '\n' as int
    ensures !BreakBefore(split, i, i)
            && Lay(text, body, split, i, i) == [text[i]] + Lay(text, body, split, i + 1, i + 1)
  {
  }

  lemma NothingToLay(text: seq<Byte>, body: nat, split: JavaInt, line: JavaInt)
    requires body <= |text|
    ensures Lay(text, body, split, body, line) == text[body..]
  {
  }

  /** What begins with the prefix has no break before the third character. */
  lemma PrefixInFirstLine(text: seq<Byte>, body: nat, split: JavaInt)
    requires body <= |text| && ENC <= Lay(text, body, split, 0, 0)
    ensures if body < 3 then Lay(text, body, split, 0, 0) == text else split >= 3
  {
    hide Lay;
    var h := Lay(text, body, split, 0, 0);
    assert h[0] == ENC[0] && h[1] == ENC[1] && h[2] == ENC[2];
    if body < 3 {
      NothingToLay(text, body, split, body);
    }
    if body > 0 {
      NoBreakYet(text, body, split, 0);
      if body > 1 {
        NoBreakYet(text, body, split, 1);
        if body > 2 {
          NoBreakYet(text, body, split, 2);
        }
      }
    }
  }

  lemma ShortText(cs: seq<Char16>, pad: bool, x: seq<Byte>)
    requires |cs| == 64
    ensures var t := Text(cs, pad, x); |x| < 3 && |t| > 3 ==> t[3] == '=' as int
  {
  }

  lemma BodyAtLeast(n: nat)
    ensures Body(n) < 3 <==> n < 3
    ensures n >= 3 ==> Body(n) >= 4
  {
    assert n >= 3 ==> n / 3 >= 1;
  }

  /** Only with lines of at least three characters and all of its own can a codeset make an encoding look prefixed. */
  lemma PrefixNeeds(cs: seq<Char16>, ordered: bool, split: JavaInt, pad: bool, x: seq<Byte>)
    requires |cs| == 64 && Usable(cs, ordered) && ENC <= Encoded(cs, split, pad, x)
    ensures split >= 3 && Spells(cs)
  {
    hide Text, Body, Usable, Lay;
    var text, h := Text(cs, pad, x), Encoded(cs, split, pad, x);
    TextLength(cs, pad, x);
    BodyAtLeast(|x|);
    ShortText(cs, pad, x);
    PrefixInFirstLine(text, Body(|x|), split);
    assert h[3] == ENC[3];
    forall k | 0 <= k < 4 ensures ENC[k] in cs {
      assert h[k] == ENC[k];
      if ENC[k] !in cs {
        NotWritten(cs, ordered, split, pad, x, ENC[k]);
      }
    }
  }

  // ---------------------------------------------------------------- when it survives

  /** With a usable codeset, whatever is not mistaken for a prefixed text is read as it was hidden. */
  lemma ReadAsHidden(cs: seq<Char16>, ordered: bool, split: JavaInt, pad: bool, prefixed: bool, cipher: Cipher,
                     key: seq<Byte>, pass: seq<Byte>, rand: Frames.Random, now: nat, later: nat)
    requires |cs| == 64 && Usable(cs, ordered) && SixBit(ConvertOf(cs, ordered))
    requires !prefixed ==> !(ENC <= Enpassed(cs, split, pad, cipher, key, pass, rand, now))
    ensures Survives(cs, ConvertOf(cs, ordered), split, pad, prefixed, cipher, key, pass, rand, now, later)
  {
    hide Encoded, Decoded, Usable;
    RoundTripIff(cs, ordered, split, pad);
    var frame := Frames.Frame(pass, rand, now);
    var hidden := Encoded(cs, split, pad, cipher.enc(key, frame));
    var password := (if prefixed then ENC else []) + hidden;
    assert Unprefixed(password) == hidden;
    assert Decoded(ConvertOf(cs, ordered), hidden) == Some(cipher.enc(key, frame));
    assert cipher.dec(key, cipher.enc(key, frame)) == frame;
    Frames.UnframeFrame(pass, rand, now, later);
  }

  // ---------------------------------------------------------------- when it does not

  lemma GroupUngroup(p: Sextet, q: Sextet, r: Sextet, s: Sextet)
    ensures var b := Ungroup(p, q, r, s); Group(b[0], b[1], b[2]) == [p, q, r, s]
  {
    var b, v := Ungroup(p, q, r, s), p * 0x4_0000 + q * 0x1000 + r * 64 + s;
    assert v / 0x100 / 0x100 == v / 0x1_0000;
    var b0: int, b1: int, b2: int := b[0], b[1], b[2];
    assert b0 * 0x1_0000 + b1 * 0x100 + b2 == v;
    Digits64(v, p, q, r, s);
  }

  /** Random bytes that begin with this salt, chosen so that three bytes on nothing looks like the password. */
  function Salted(a: Byte, b: Byte, c: Byte): Frames.Random {
    (i: nat) => if i == 0 then a else if i == 1 then b else if i == 2 then c
                else if i == 3 && Frames.SaltSkip(a, b, c) == 3 then 1 else 0
  }

  const NINE: seq<Byte> := [0, 0, 0, 0, 0, 0, 0, 0, 0]

  /** Behind the salt there are zeros, the length and one perhaps. */
  lemma FrameAt(a: Byte, b: Byte, c: Byte, k: nat)
    requires var f, start := Frames.Frame(NINE, Salted(a, b, c), 0), Frames.SaltSkip(a, b, c);
             k < |f| && |f| == 17 + start
    ensures var f, start := Frames.Frame(NINE, Salted(a, b, c), 0), Frames.SaltSkip(a, b, c);
            f[k] == if k < 3 || (k == 3 && start == 3) then Salted(a, b, c)(k) else if k == 7 + start then 9 else 0
  {
    hide Frames.SaltSkip;
    var rand := Salted(a, b, c);
    var start := Frames.SaltSkip(rand(0), rand(1), rand(2));
    var drawn, clock := Frames.Drawn(rand, 0, 3 + start), Frames.Clock(0);
    assert clock == [0, 0, 0, 0];
    assert Frames.Frame(NINE, rand, 0) == drawn + (clock + ([9] + NINE));
    if k < 3 + start {
      assert (drawn + (clock + ([9] + NINE)))[k] == rand(k);
    } else {
      assert (drawn + (clock + ([9] + NINE)))[k] == (clock + ([9] + NINE))[k - 3 - start];
    }
  }

  /** A frame that lost its salt is read as an empty password. */
  lemma FrameWithoutSalt(a: Byte, b: Byte, c: Byte, later: nat)
    ensures var f := Frames.Frame(NINE, Salted(a, b, c), 0);
            && |f| >= 17 && f[..3] == [a, b, c]
            && Frames.Unframe(f[3..], later).Some? && Frames.Unframe(f[3..], later).value.0 == []
  {
    hide Frames.SaltSkip, Frames.Frame, Frames.Restored;
    var rand := Salted(a, b, c);
    var start := Frames.SaltSkip(a, b, c);
    var f := Frames.Frame(NINE, rand, 0);
    Frames.FrameLength(NINE, rand, 0);
    FrameAt(a, b, c, 0);
    FrameAt(a, b, c, 1);
    FrameAt(a, b, c, 2);
    FrameAt(a, b, c, 3);
    FrameAt(a, b, c, 4);
    FrameAt(a, b, c, 5);
    FrameAt(a, b, c, if start == 3 then 11 else 10);
    SaltSkips();
    var g := f[3..];
    assert g[0] == f[3] && g[1] == f[4] && g[2] == f[5];
    var head := 3 + Frames.SaltSkip(g[0], g[1], g[2]) + 5;
    assert g[head - 1] == f[head + 2] == 0;
  }

  lemma SaltSkips()
    ensures Frames.SaltSkip(0, 0, 0) == 0 && Frames.SaltSkip(1, 0, 0) == 1
  {
    var zero: Byte, one: Byte := 0, 1;
    assert AbsByte(zero) == 0 && AbsByte(one) == 1;
    assert 0 % 7 == 0 && 1 % 7 == 1;
  }

  /** The first four characters stand in the first line, and so does what follows them. */
  lemma FirstFour(text: seq<Byte>, body: nat, split: JavaInt)
    requires 4 <= body <= |text| && split >= 3
    ensures Lay(text, body, split, 0, 0) == text[..4] + Lay(text, body, split, 4, 4)
  {
    var h4 := Lay(text, body, split, 4, 4);
    assert Lay(text, body, split, 3, 3) == [text[3]] + h4;
    assert Lay(text, body, split, 2, 2) == [text[2]] + ([text[3]] + h4);
    assert Lay(text, body, split, 1, 1) == [text[1]] + ([text[2]] + ([text[3]] + h4));
    assert Lay(text, body, split, 0, 0) == [text[0]] + ([text[1]] + ([text[2]] + ([text[3]] + h4)));
  }

  /** What is read after the first group is the rest of the input. */
  lemma DecodedRest(cs: seq<Char16>, convert: Convert, split: JavaInt, pad: bool, x: seq<Byte>)
    requires |cs| == 64 && SixBit(convert) && Inverts(cs, convert) && |x| >= 3 && split >= 3
    ensures var h := Encoded(cs, split, pad, x);
            |h| >= 4 && h[..4] == Spell(cs, Group(x[0], x[1], x[2])) && Decoded(convert, h[4..]) == Some(x[3..])
  {
    hide Lay, Group, Unsextets, Lookup;
    var h, g, text := Encoded(cs, split, pad, x), Group(x[0], x[1], x[2]), Text(cs, pad, x);
    BodyAtLeast(|x|);
    TextLength(cs, pad, x);
    FirstFour(text, Body(|x|), split);
    assert Sextets(x) == g + Sextets(x[3..]);
    assert h[..4] == text[..4] == Spell(cs, g);
    IndicesEncoded(cs, convert, split, pad, x);
    IndicesSpell(cs, convert, Sextets(x));
    IndicesSpell(cs, convert, g);
    IndicesConcat(convert, h[..4], h[4..]);
    assert h == h[..4] + h[4..];
    var rest := Indices(convert, h[4..]);
    assert rest.Some? && g + rest.value == g + Sextets(x[3..]);
    assert rest.value == (g + rest.value)[4..] == Sextets(x[3..]);
    UnsextetsSextets(x[3..]);
  }

  const PLAIN: Cipher := CipherPair((k, x) => x, (k, x) => x)

  /** A codeset that can spell the prefix, on lines that can hold it, hides some password so that it is lost. */
  lemma MistakenForPrefix(cs: seq<Char16>, ordered: bool, split: JavaInt, pad: bool) returns (rand: Frames.Random)
    requires |cs| == 64 && Usable(cs, ordered) && split >= 3 && Spells(cs) && SixBit(ConvertOf(cs, ordered))
    ensures !Survives(cs, ConvertOf(cs, ordered), split, pad, false, PLAIN, [], NINE, rand, 0, 0)
  {
    hide Usable, Group, Ungroup, Encoded, Decoded, Frames.Frame, Frames.Unframe, Frames.SaltSkip;
    var p: nat :| p < 64 && cs[p] == ENC[0];
    var q: nat :| q < 64 && cs[q] == ENC[1];
    var r: nat :| r < 64 && cs[r] == ENC[2];
    var s: nat :| s < 64 && cs[s] == ENC[3];
    var b := Ungroup(p, q, r, s);
    GroupUngroup(p, q, r, s);
    rand := Salted(b[0], b[1], b[2]);
    FrameWithoutSalt(b[0], b[1], b[2], 0);
    var f := Frames.Frame(NINE, rand, 0);
    assert f[0] == f[..3][0] && f[1] == f[..3][1] && f[2] == f[..3][2];
    InvertsIff(cs, ordered);
    DecodedRest(cs, ConvertOf(cs, ordered), split, pad, f);
    var hidden := Encoded(cs, split, pad, f);
    assert hidden[..4] == Spell(cs, [p, q, r, s]) == ENC;
    assert ENC <= hidden && [] + hidden == hidden;
  }

  // ---------------------------------------------------------------- codesets that are not usable

  /** A cipher that takes `frame` to `x` and nothing to `y`. */
  function Exchange(frame: seq<Byte>, x: seq<Byte>, y: seq<Byte>): CipherPair {
    CipherPair((k: seq<Byte>, z: seq<Byte>) => if z == frame then x else if z == [] then y else [0, 0, 0, 0] + z,
               (k: seq<Byte>, w: seq<Byte>) => if w == x then frame else if w == y || |w| < 4 then [] else w[4..])
  }

  lemma ExchangeInverse(frame: seq<Byte>, x: seq<Byte>, y: seq<Byte>)
    requires frame != [] && x != y && |x| < 4 && |y| < 4
    ensures Inverse(Exchange(frame, x, y))
  {
    forall k: seq<Byte>, z: seq<Byte>
      ensures var c := Exchange(frame, x, y); c.dec(k, c.enc(k, z)) == z
    {
      var w: seq<Byte> := [0, 0, 0, 0] + z;
      assert w[4..] == z;
    }
  }

  /** What is read of a three-byte input in place of it loses a password under some cipher. */
  lemma Lost(cs: seq<Char16>, convert: Convert, split: JavaInt, pad: bool, prefixed: bool, x: seq<Byte>, y: seq<Byte>)
    returns (cipher: Cipher)
    requires |cs| == 64 && SixBit(convert) && x != y && |x| < 4 && |y| < 4
    requires var read := Decoded(convert, Unprefixed((if prefixed then ENC else []) + Encoded(cs, split, pad, x)));
             read == None || read == Some(y)
    ensures !Survives(cs, convert, split, pad, prefixed, cipher, [], NINE, Salted(0, 0, 0), 0, 0)
  {
    hide Decoded, Encoded, Frames.Frame;
    var f := Frames.Frame(NINE, Salted(0, 0, 0), 0);
    FrameWithoutSalt(0, 0, 0, 0);
    ExchangeInverse(f, x, y);
    cipher := Exchange(f, x, y);
    assert cipher.enc([], f) == x && cipher.dec([], y) == [];
  }

  /** At most three bytes are read from the encoding of three, and none from what a prefix leaves of it. */
  lemma ReadFromThree(cs: seq<Char16>, convert: Convert, split: JavaInt, pad: bool, prefixed: bool, x: seq<Byte>)
    requires |cs| == 64 && SixBit(convert) && |x| == 3
    ensures var h := Encoded(cs, split, pad, x);
            var read := Decoded(convert, Unprefixed((if prefixed then ENC else []) + h));
            && (read.Some? ==> |read.value| < 4)
            && (read == Decoded(convert, h) || read == Some([]))
  {
    hide Lay, Lookup, Spell, Sextets, Unsextets, Text, Group;
    var h, text := Encoded(cs, split, pad, x), Text(cs, pad, x);
    IndicesEncoded(cs, convert, split, pad, x);
    IndicesCount(convert, Spell(cs, Sextets(x)));
    if Indices(convert, h).Some? {
      IndicesSixBit(convert, h);
      FewBytes(Indices(convert, h).value);
    }
    if !prefixed && ENC <= h {
      TextLength(cs, pad, x);
      PrefixInFirstLine(text, 4, split);
      FirstFour(text, 4, split);
      NothingToLay(text, 4, split, 4);
      assert |text| == 4 && h == text && [] + h == h && h[4..] == [];
      assert Unprefixed([] + h) == [];
      FewBytes([]);
    } else {
      assert Unprefixed((if prefixed then ENC else []) + h) == h;
    }
  }

  lemma FewBytes(s: seq<Sextet>)
    requires |s| <= 4
    ensures |Unsextets(s)| < 4 && (s == [] ==> Unsextets(s) == [])
  {
    if |s| > 0 {
      UnsextetsHead(s);
    }
  }

  lemma UnusableLoses(cs: seq<Char16>, convert: Convert, split: JavaInt, pad: bool, prefixed: bool)
    returns (cipher: Cipher)
    requires |cs| == 64 && SixBit(convert) && !Inverts(cs, convert)
    ensures !Survives(cs, convert, split, pad, prefixed, cipher, [], NINE, Salted(0, 0, 0), 0, 0)
  {
    hide Decoded, Encoded, InvertsAt, Survives, Unprefixed;
    var i :| 0 <= i < |cs| && !InvertsAt(cs, convert, i);
    var x: seq<Byte> := [i * 4, 0, 0];
    RoundTripFails(cs, convert, split, pad, i);
    ReadFromThree(cs, convert, split, pad, prefixed, x);
    var read := Decoded(convert, Unprefixed((if prefixed then ENC else []) + Encoded(cs, split, pad, x)));
    cipher := Lost(cs, convert, split, pad, prefixed, x, if read.Some? then read.value else []);
  }

  // ---------------------------------------------------------------- exactly when

  /**
   `depass` undoes `enpass` for all ciphers, keys, passwords, random bytes and clocks exactly when the codeset is
   usable, and, without the prefix in front, no encoding can be mistaken for a prefixed text: lines are too short for
   that, or the codeset lacks a character of the prefix.
   */
  lemma PasswordRoundTripIff(cs: seq<Char16>, ordered: bool, split: JavaInt, pad: bool, prefixed: bool)
    requires |cs| == 64
    ensures SixBit(ConvertOf(cs, ordered))
    ensures (forall cipher: Cipher, key: seq<Byte>, pass: seq<Byte>, rand: Frames.Random, now: nat, later: nat ::
               Survives(cs, ConvertOf(cs, ordered), split, pad, prefixed, cipher, key, pass, rand, now, later))
            <==> Usable(cs, ordered) && (prefixed || split < 3 || !Spells(cs))
  {
    hide Survives, Usable, Spells;
    var convert := ConvertOf(cs, ordered);
    BuiltIsSixBit(cs, ordered);
    InvertsIff(cs, ordered);
    if !Usable(cs, ordered) {
      var cipher := UnusableLoses(cs, convert, split, pad, prefixed);
    } else if !prefixed && split >= 3 && Spells(cs) {
      var rand := MistakenForPrefix(cs, ordered, split, pad);
    } else {
      forall cipher: Cipher, key: seq<Byte>, pass: seq<Byte>, rand: Frames.Random, now: nat, later: nat
        ensures Survives(cs, convert, split, pad, prefixed, cipher, key, pass, rand, now, later)
      {
        if !prefixed {
          NotPrefixed(cs, ordered, split, pad, cipher.enc(key, Frames.Frame(pass, rand, now)));
        }
        ReadAsHidden(cs, ordered, split, pad, prefixed, cipher, key, pass, rand, now, later);
      }
    }
  }

  lemma NotPrefixed(cs: seq<Char16>, ordered: bool, split: JavaInt, pad: bool, x: seq<Byte>)
    requires |cs| == 64 && Usable(cs, ordered) && (split < 3 || !Spells(cs))
    ensures !(ENC <= Encoded(cs, split, pad, x))
  {
    hide Usable, Spells, Encoded;
    if ENC <= Encoded(cs, split, pad, x) {
      PrefixNeeds(cs, ordered, split, pad, x);
    }
  }

  /** Under every codec derived from the alphabet for URLs every password survives, with the prefix or without. */
  lemma DerivedPasswordsSurvive(keyFile: seq<Byte>, cs: seq<Char16>, split: JavaInt, pad: bool, prefixed: bool,
                                cipher: Cipher, key: seq<Byte>, pass: seq<Byte>, rand: Frames.Random, now: nat,
                                    later: nat)
    requires |keyFile| >= Keys.MIN_KEY && Derives(BASE64_URL, keyFile, cs)
    ensures |cs| == 64 && SixBit(Unordered(cs))
    ensures Survives(cs, Unordered(cs), split, pad, prefixed, cipher, key, pass, rand, now, later)
  {
    hide Survives, Usable, Derives;
    AlphabetsUsable(false);
    DerivedUsable(BASE64_URL, keyFile, cs);
    SamePieces(cs, BASE64_URL, ENC[3]);
    assert ENC[3] !in BASE64_URL;
    PasswordRoundTripIff(cs, false, split, pad, prefixed);
  }

  lemma SamePieces(a: seq<Char16>, b: seq<Char16>, c: Char16)
    requires multiset(a) == multiset(b)
    ensures c in a <==> c in b
  {
    assert c in a <==> c in multiset(a);
  }
}
