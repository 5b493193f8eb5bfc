/** `Symm`: the streaming codec over a codeset, its derivation from a key, and the passwords it hides. */
module SymmCodec {
  import opened Wrappers
  import opened Codeset
  import opened Base64
  import Keys = KeyShuffle
  import Coverage = KeyCoverage
  import Frames = PasswordFrame

  /** `out` and what is laid out from character `i` on make up the whole text. */
  ghost predicate Progress(text: seq<Byte>, body: nat, split: JavaInt, i: nat, line: JavaInt, out: seq<Byte>)
    requires body <= |text|
  {
    i <= body && out + Lay(text, body, split, i, line) == Lay(text, body, split, 0, 0)
  }

  /** The six bits a byte completes: its own first bits after those carried from the byte before. */
  function Completed(idx: nat, prev: Byte, read: Byte): Sextet {
    if idx == 0 then read / 4 else if idx == 1 then prev % 4 * 16 + read / 16 else prev % 16 * 4 + read / 64
  }

  lemma BodyBound(x: seq<Byte>, q: nat, r: nat)
    requires r < 3 && 3 * q + r < |x|
    ensures (if r == 2 then 4 * q + 4 else 4 * q + r + 1) <= Body(|x|)
  {
    assert |x| / 3 > q || (|x| / 3 == q && |x| % 3 > r);
  }

  /** The characters that byte `r` of group `q` contributes to the text. */
  lemma TextAt(cs: seq<Char16>, pad: bool, x: seq<Byte>, q: nat, r: nat, prev: Byte)
    requires |cs| == 64 && r < 3 && 3 * q + r < |x| && (r > 0 ==> prev == x[3 * q + r - 1])
    ensures var t, b, pos := Text(cs, pad, x), 4 * q + r, 3 * q + r;
            && (if r == 2 then b + 2 else b + 1) <= Body(|x|) <= |t|
            && t[b] == Low(cs[Completed(r, prev, x[pos])])
            && (r == 2 ==> t[b + 1] == Low(cs[x[pos] % 64]))
  {
    hide Sextets;
    var pos, b := 3 * q + r, 4 * q + r;
    SextetAt(x, q, r);
    BodyBound(x, q, r);
    TextHead(cs, pad, x, b);
    if r == 2 {
      TextHead(cs, pad, x, b + 1);
    }
  }

  lemma TextHead(cs: seq<Char16>, pad: bool, x: seq<Byte>, b: nat)
    requires |cs| == 64 && b < |Sextets(x)|
    ensures b < |Text(cs, pad, x)| && Text(cs, pad, x)[b] == Low(cs[Sextets(x)[b]])
  {
  }

  /** A character and the line feed that may come before it. */
  function Put(broken: bool, c: Byte): seq<Byte> {
    if broken then ['\n' as int, c] else [c]
  }

  lemma WroteChar(text: seq<Byte>, body: nat, split: JavaInt, i: nat, line: JavaInt, out: seq<Byte>)
    requires i < body <= |text| && Progress(text, body, split, i, line, out)
    ensures var broken := BreakBefore(split, i, line);
            Progress(text, body, split, i + 1, if !broken then Next(line) else if i % 4 == 3 then 2 else 1,
                     out + Put(broken, text[i]))
  {
  }

  /** Only the `int` just before it leads to a given `int` by `++`. */
  lemma NextInjective(a: JavaInt, b: JavaInt)
    ensures Next(a) == Next(b) <==> a == b
  {
  }

  /** What one byte writes takes the layout one byte further. */
  lemma WroteChunk(text: seq<Byte>, body: nat, split: JavaInt, q: nat, r: nat, line: JavaInt, out: seq<Byte>)
    requires r < 3 && 4 * q + r + (if r == 2 then 1 else 0) < body <= |text|
             && Progress(text, body, split, 4 * q + r, line, out)
    ensures var i := 4 * q + r;
            var line1: JavaInt := if line >= split then 0 else line;
            var line2: JavaInt := if line1 == split then 0 else line1;
            var first := Put(line >= split, text[i]);
            && (r < 2 ==> Progress(text, body, split, i + 1, Next(line1), out + first))
            && (r == 2 ==> Progress(text, body, split, i + 2, Next(Next(line2)),
                                    out + (first + Put(line1 == split, text[i + 1]))))
  {
    hide Progress;
    var i := 4 * q + r;
    var line1: JavaInt := if line >= split then 0 else line;
    WroteChar(text, body, split, i, line, out);
    if r == 2 {
      NextInjective(line1, split);
      var first := Put(line >= split, text[i]);
      WroteChar(text, body, split, i + 1, Next(line1), out + first);
      assert out + first + Put(line1 == split, text[i + 1]) == out + (first + Put(line1 == split, text[i + 1]));
    }
  }

  class Symm {
    const codeset: seq<Char16>
    const splitLinesAt: JavaInt
    const endEquals: bool
    const convert: Convert
    var keyBytes: Option<seq<Byte>>

    /** The algorithm only fits codesets of 64 characters; the lookup is one of the two built for it. */
    ghost predicate Valid() {
      |codeset| == 64 && convert == ConvertOf(codeset, convert.Ordered?)
    }

    constructor (codeset: seq<Char16>, split: JavaInt, useEndEquals: bool)
      ensures this.codeset == codeset && splitLinesAt == split && endEquals == useEndEquals
      ensures convert == Compile(codeset) && keyBytes == None
      ensures |codeset| == 64 ==> Valid()
    {
      var chosen := CompileCodeset(codeset);
      this.codeset := codeset;
      splitLinesAt := split;
      endEquals := useEndEquals;
      convert := chosen;
      keyBytes := None;
    }

    /** Only for derived codesets, which are randomised: always searched linearly. */
    constructor Derived(codeset: seq<Char16>, parent: Symm)
      ensures this.codeset == codeset && splitLinesAt == parent.splitLinesAt && endEquals == parent.endEquals
      ensures convert == Unordered(codeset) && keyBytes == None
      ensures |codeset| == 64 ==> Valid()
    {
      this.codeset := codeset;
      splitLinesAt := parent.splitLinesAt;
      endEquals := parent.endEquals;
      convert := Unordered(codeset);
      keyBytes := None;
    }

    /** What one byte adds to the output: its line breaks and characters, and the new line count. */
    ghost predicate Adds(read: Byte, idx: nat, prev: Byte, line: JavaInt, chunk: seq<Byte>, count: JavaInt)
      requires Valid() && idx < 3
    {
      var line1: JavaInt := if line >= splitLinesAt then 0 else line;
      var line2: JavaInt := if line1 == splitLinesAt then 0 else line1;
      var first := Put(line >= splitLinesAt, Low(codeset[Completed(idx, prev, read)]));
      if idx < 2 then chunk == first && count == Next(line1)
      else chunk == first + Put(line1 == splitLinesAt, Low(codeset[read % 64])) && count == Next(Next(line2))
    }

    method EncodeByte(read: Byte, idx: nat, prev: Byte, line: JavaInt) returns (chunk: seq<Byte>, count: JavaInt)
      requires Valid() && idx < 3
      ensures Adds(read, idx, prev, line, chunk, count)
    {
      chunk, count := [], line;
      if count >= splitLinesAt {
        chunk := ['\n' as int];
        count := 0;
      }
      match idx {
        case 0 =>
          chunk := chunk + [Low(codeset[read / 4])];
        case 1 =>
          chunk := chunk + [Low(codeset[prev % 4 * 16 + read / 16])];
        case _ =>
          chunk := chunk + [Low(codeset[prev % 16 * 4 + read / 64])];
          if count == splitLinesAt {
            chunk := chunk + ['\n' as int];
            count := 0;
          }
          chunk := chunk + [Low(codeset[read % 64])];
          count := Next(count);
      }
      count := Next(count);
    }

    /** `out` holds the encoding up to the characters completed by the first `3 * q + r` bytes. */
    ghost predicate Reached(x: seq<Byte>, q: nat, r: nat, prev: Byte, line: JavaInt, out: seq<Byte>)
      requires Valid()
    {
      && Body(|x|) <= |Text(codeset, endEquals, x)|
      && r < 3 && 3 * q + r <= |x| && (r > 0 ==> prev == x[3 * q + r - 1])
      && Progress(Text(codeset, endEquals, x), Body(|x|), splitLinesAt, 4 * q + r, line, out)
    }

    lemma ReachedNext(x: seq<Byte>, q: nat, r: nat, prev: Byte, line: JavaInt, out: seq<Byte>, chunk: seq<Byte>,
                      count: JavaInt)
      requires Valid() && Reached(x, q, r, prev, line, out) && 3 * q + r < |x|
               && Adds(x[3 * q + r], r, prev, line, chunk, count)
      ensures if r < 2 then Reached(x, q, r + 1, x[3 * q + r], count, out + chunk)
                else Reached(x, q + 1, 0, 0, count, out + chunk)
    {
      hide Text, Body;
      TextAt(codeset, endEquals, x, q, r, prev);
      WroteChunk(Text(codeset, endEquals, x), Body(|x|), splitLinesAt, q, r, line, out);
    }

    lemma ReachedEnd(x: seq<Byte>, q: nat, r: nat, prev: Byte, line: JavaInt, out: seq<Byte>)
      requires Valid() && Reached(x, q, r, prev, line, out) && 3 * q + r == |x|
      ensures out + Tail(r, prev) == Encoded(codeset, splitLinesAt, endEquals, x)
    {
      TailAt(x, q, r, prev);
    }

    /** Encodes byte by byte, carrying the bits left over from the previous byte. */
    method Encode(input: seq<Byte>) returns (out: seq<Byte>)
      requires Valid()
      ensures out == Encoded(codeset, splitLinesAt, endEquals, input)
    {
      out := [];
      var pos, idx := 0, 0;
      var prev: Byte := 0;
      var line: JavaInt := 0;
      ghost var q := 0;
      TextLength(codeset, endEquals, input);
      while pos < |input|
        invariant 0 <= pos <= |input| && 0 <= idx < 3 && pos == 3 * q + idx
        invariant Reached(input, q, idx, prev, line, out)
      {
        var read := input[pos];
        var chunk, count := EncodeByte(read, idx, prev, line);
        ReachedNext(input, q, idx, prev, line, out, chunk, count);
        out, line := out + chunk, count;
        if idx < 2 {
          idx, prev := idx + 1, read;
        } else {
          idx, prev, q := 0, 0, q + 1;
        }
        pos := pos + 1;
      }
      ReachedEnd(input, q, idx, prev, line, out);
      out := out + Tail(idx, prev);
    }

    lemma TailAt(x: seq<Byte>, q: nat, r: nat, prev: Byte)
      requires Valid() && r < 3 && |x| == 3 * q + r && (r > 0 ==> prev == x[|x| - 1])
      ensures Body(|x|) == 4 * q + r <= |Text(codeset, endEquals, x)|
      ensures Text(codeset, endEquals, x)[4 * q + r..] == Tail(r, prev)
    {
      assert |x| / 3 == q && |x| % 3 == r;
      var s := Sextets(x);
      var t := Text(codeset, endEquals, x);
      if r > 0 {
        SextetAt(x, q, r - 1);
        assert |s| == 4 * q + r + 1 && Spell(codeset, s)[4 * q + r..] == [Low(codeset[s[4 * q + r]])];
      }
      assert t[4 * q + r..] == Spell(codeset, s)[4 * q + r..] + if endEquals then Padding(|x|) else [];
    }

    /** The bits left over at the end of input, then the padding. */
    function Tail(idx: nat, prev: Byte): seq<Byte>
      requires Valid()
    {
      match idx
      case 1 => [Low(codeset[prev % 4 * 16])] + if endEquals then ['=' as int, '=' as int] else []
      case 2 => [Low(codeset[prev % 16 * 4])] + if endEquals then ['=' as int] else []
      case _ => []
    }

    // -------------------------------------------------------------- decoding

    /** The state of the decoder after the six-bit groups `kept`. */
    ghost predicate Took(kept: seq<Sextet>, idx: nat, prev: nat, out: seq<Byte>) {
      && out == Unsextets(kept)
      && idx == |kept| % 4
      && (idx > 0 ==> prev == Carried(idx, kept[|kept| - 1]))
    }

    /** The carried bits after the group `t`, the last of `idx` in its quartet. */
    function Carried(idx: nat, t: Sextet): nat {
      if idx == 1 then t * 4 else if idx == 2 then t * 16 else if idx == 3 then t * 64 else 0
    }

    /** The byte that the group `t` completes. */
    function Completes(idx: nat, prev: nat, t: Sextet): seq<Byte> {
      if idx == 0 then []
      else if idx == 1 then [Carry(prev, t / 16)]
      else if idx == 2 then [Carry(prev, t / 4)]
      else [Carry(prev, t)]
    }

    lemma IncrementCompletes(kept: seq<Sextet>, idx: nat, prev: nat, t: Sextet)
      requires idx == |kept| % 4 && (idx > 0 ==> prev == Carried(idx, kept[|kept| - 1]))
      ensures Increment(kept, t) == Completes(idx, prev, t)
    {
    }

    lemma NextPhase(n: nat)
      ensures (n + 1) % 4 == if n % 4 == 3 then 0 else n % 4 + 1
    {
    }

    lemma TookNext(kept: seq<Sextet>, idx: nat, prev: nat, out: seq<Byte>, t: Sextet)
      requires Took(kept, idx, prev, out)
      ensures var next := if idx == 3 then 0 else idx + 1;
              Took(kept + [t], next, Carried(next, t), out + Completes(idx, prev, t))
    {
      UnsextetsSnoc(kept, t);
      IncrementCompletes(kept, idx, prev, t);
      NextPhase(|kept|);
      assert (kept + [t])[|kept|] == t;
    }

    /** The text read so far stands for `kept`. */
    ghost predicate Seen(text: seq<Byte>, kept: seq<Sextet>) {
      Indices(convert, text) == Some(kept)
    }

    lemma SeenNext(text: seq<Byte>, kept: seq<Sextet>, c: Byte)
      requires Seen(text, kept)
      ensures var index := Lookup(convert, c);
              && (index.None? ==> Indices(convert, text + [c]) == None)
              && (index.Some? ==>
                  Indices(convert, text + [c]) == Some(kept + if index.value >= 0 then [index.value] else []))
    {
      var none: seq<int> := [];
      IndicesConcat(convert, text, [c]);
      assert [c][1..] == [];
      assert Indices(convert, []) == Some(none);
      var index := Lookup(convert, c);
      if index.Some? {
        var head := if index.value >= 0 then [index.value] else [];
        assert head + none == head;
        assert Indices(convert, [c]) == Some(head);
      }
    }

    lemma SeenFailed(text: seq<Byte>, i: nat)
      requires i <= |text| && Indices(convert, text[..i]) == None
      ensures Indices(convert, text) == None
    {
      IndicesConcat(convert, text[..i], text[i..]);
      assert text == text[..i] + text[i..];
    }

    lemma ValidIsSixBit()
      requires Valid()
      ensures SixBit(convert)
    {
      BuiltIsSixBit(codeset, convert.Ordered?);
    }

    /** Decodes character by character; None is the IOException for an unacceptable one. */
    method Decode(text: seq<Byte>) returns (r: Option<seq<Byte>>)
      requires Valid()
      ensures SixBit(convert) && r == Decoded(convert, text)
    {
      ValidIsSixBit();
      var out: seq<Byte> := [];
      var idx, prev := 0, 0;
      ghost var kept: seq<Sextet> := [];
      for i := 0 to |text|
        invariant 0 <= idx < 4 && 0 <= prev && Took(kept, idx, prev, out)
        invariant Seen(text[..i], kept)
      {
        var index := ConvertChar(convert, text[i]);
        SeenNext(text[..i], kept, text[i]);
        assert text[..i + 1] == text[..i] + [text[i]];
        if index.None? {
          SeenFailed(text, i + 1);
          return None;
        }
        if index.value >= 0 {
          var t: Sextet := index.value;
          TookNext(kept, idx, prev, out, t);
          kept := kept + [t];
          ghost var done := Completes(idx, prev, t);
          ghost var was := out;
          if idx == 0 {
            prev := t * 4;
          } else if idx == 1 {
            out := out + [Carry(prev, t / 16)];
            prev := t * 16;
          } else if idx == 2 {
            out := out + [Carry(prev, t / 4)];
            prev := t * 64;
          } else {
            out := out + [Carry(prev, t)];
            prev := 0;
          }
          assert out == was + done;
          idx := if idx == 3 then 0 else idx + 1;
        } else {
          var none: seq<int> := [];
          assert kept + none == kept;
        }
      }
      assert text[..|text|] == text;
      r := Some(out);
    }

    // -------------------------------------------------------------- deriving a codec from a key

    /**
     The permuted codeset and the AES key taken from `key`. None is a failure: the key has no byte to read the stride
     from, or cannot fill a codeset, or has no room for an AES key.
     */
    method Obtain(key: seq<Byte>) returns (r: Option<Symm>)
      requires Valid() && Keys.NoNul(codeset)
      ensures |key| <= AES_KEY_BYTES ==> r.None?
      ensures |key| > AES_KEY_BYTES && Coverage.Fits(key, |codeset|, Coverage.Rounds(key, |codeset|)) ==>
                (r.Some? <==> Coverage.Meet(key, |codeset|))
      ensures |key| > AES_KEY_BYTES && r.None? ==> exists n: nat :: Keys.Outcome(codeset, key, n, None)
      ensures r.Some? ==> exists n: nat :: Keys.Outcome(codeset, key, n, Some(r.value.codeset))
      ensures r.Some? ==> |r.value.codeset| == 64
                          && r.value.codeset[AbsByte(key[23 * Keys.Stride(key) % |key|]) % 64] == codeset[63]
      ensures r.Some? ==>
                && fresh(r.value) && r.value.Valid() && r.value.convert.Unordered?
                && multiset(r.value.codeset) == multiset(codeset)
                && r.value.splitLinesAt == splitLinesAt && r.value.endEquals == endEquals
                && KeyOffset(key) + AES_KEY_BYTES <= |key|
                && r.value.keyBytes == Some(key[KeyOffset(key)..KeyOffset(key) + AES_KEY_BYTES])
    {
      if |key| < Keys.MIN_KEY {
        return None;
      }
      var filled := Keys.FillSlots(codeset, key);
      FilledIff(codeset, key, filled);
      if filled.None? || |key| <= AES_KEY_BYTES {
        return None;
      }
      SamePermutationLength(codeset, filled.value);
      FirstFilled(codeset, key, filled.value);
      var symm := new Symm.Derived(filled.value, this);
      var offset := KeyOffset(key);
      var bytes: seq<Byte> := [];
      for i := 0 to AES_KEY_BYTES
        invariant bytes == key[offset..offset + i]
      {
        bytes := bytes + [key[i + offset]];
      }
      symm.keyBytes := Some(bytes);
      r := Some(symm);
    }

    // -------------------------------------------------------------- passwords

    /** The AES key in use: the one set by `Obtain`, or one cut from the codeset. */
    function EffectiveKey(): seq<Byte>
      requires Valid()
      reads this
    {
      if keyBytes.Some? then keyBytes.value else CodesetKey(codeset)
    }

    /** `exec`: fixes the key on first use. */
    method Exec() returns (key: seq<Byte>)
      requires Valid()
      modifies this`keyBytes
      ensures key == old(EffectiveKey()) && keyBytes == Some(key)
      ensures old(keyBytes).Some? ==> keyBytes == old(keyBytes)
    {
      if keyBytes.None? {
        var bytes: seq<Byte> := [];
        var offset := (codeset[0] as int + 47) % (|codeset| - AES_KEY_BYTES);
        for i := 0 to AES_KEY_BYTES
          invariant bytes == CodesetKey(codeset)[..i]
        {
          bytes := bytes + [Low(codeset[i + offset])];
        }
        keyBytes := Some(bytes);
      }
      key := keyBytes.value;
    }

    method Enpass(pass: seq<Byte>, rand: Frames.Random, now: nat, cipher: Cipher) returns (out: seq<Byte>)
      requires Valid()
      modifies this`keyBytes
      ensures EffectiveKey() == old(EffectiveKey())
      ensures out == Enpassed(codeset, splitLinesAt, endEquals, cipher, EffectiveKey(), pass, rand, now)
    {
      var frame := Frames.BuildFrame(pass, rand, now);
      var key := Exec();
      out := Encode(cipher.enc(key, frame));
    }

    /** None is an IOException. */
    method Depass(password: seq<Byte>, now: nat, cipher: Cipher) returns (r: Option<(seq<Byte>, nat)>)
      requires Valid()
      modifies this`keyBytes
      ensures EffectiveKey() == old(EffectiveKey())
      ensures SixBit(convert) && r == Depassed(convert, cipher, EffectiveKey(), password, now)
    {
      var offset := if ENC <= password then |ENC| else 0;
      var key := Exec();
      var text := Decode(password[offset..]);
      if text.None? {
        return None;
      }
      r := Frames.ParseFrame(cipher.dec(key, text.value), now);
    }
  }

  // ---------------------------------------------------------------- keys

  const AES_KEY_BYTES := 16

  /** Where the AES key starts within a key file. */
  function KeyOffset(key: seq<Byte>): (r: nat)
    requires |key| > AES_KEY_BYTES
  {
    (AbsByte(key[47 % |key|]) + 137) % (|key| - AES_KEY_BYTES)
  }

  /** The window of sixteen bytes lies within the key, for keys of 282 bytes or more right where byte 47 points to. */
  lemma KeyOffsetIs(key: seq<Byte>) returns (q: nat)
    requires |key| > 16
    ensures KeyOffset(key) < |key| - 16
    ensures AbsByte(key[47 % |key|]) + 137 == (|key| - 16) * q + KeyOffset(key)
    ensures |key| >= 282 ==> KeyOffset(key) == AbsByte(key[47]) + 137
  {
    var r;
    q, r := Coverage.Divided(AbsByte(key[47 % |key|]) + 137, |key| - 16);
    assert |key| >= 282 ==> 47 % |key| == 47;
  }

  /** The AES key of a codec that was not given one. */
  function CodesetKey(cs: seq<Char16>): (r: seq<Byte>)
    requires |cs| == 64
    ensures |r| == AES_KEY_BYTES
  {
    var offset := (cs[0] as int + 47) % (|cs| - AES_KEY_BYTES);
    seq<Byte>(AES_KEY_BYTES, i requires 0 <= i < AES_KEY_BYTES => Low(cs[i + offset]))
  }

  /** The key of the codecs for both alphabets: their characters from Q to f. */
  lemma AlphabetKey(cs: seq<Char16>)
    requires cs == BASE64 || cs == BASE64_URL
    ensures forall i :: 0 <= i < 16 ==>
              CodesetKey(cs)[i] == if i < 10 then 'Q' as int + i else 'a' as int + i - 10
  {
    forall i: nat | i < 16 ensures CodesetKey(cs)[i] == if i < 10 then 'Q' as int + i else 'a' as int + i - 10 {
      CodesetKeyAt(cs, i);
      assert cs[0] == 65 && (cs[0] as int + 47) % 48 == 16;
    }
  }

  /** Other codesets give their characters from the one that the code of the first character, and 47, points to. */
  lemma CodesetKeyAt(cs: seq<Char16>, i: nat)
    requires |cs| == 64 && i < 16
    ensures CodesetKey(cs)[i] == cs[(cs[0] as int + 47) % 48 + i] % 0x100
  {
  }

  lemma SamePermutationLength(a: seq<Char16>, b: seq<Char16>)
    requires multiset(a) == multiset(b)
    ensures |a| == |b|
  {
    assert |multiset(a)| == |a| && |multiset(b)| == |b|;
  }

  /** Distinctness in terms of multiplicities. */
  lemma DistinctMultiset(a: seq<Char16>)
    ensures Distinct(a) <==> forall c :: c in multiset(a) ==> multiset(a)[c] == 1
  {
    if Distinct(a) {
      DistinctOnce(a);
    } else {
      var i, j :| 0 <= i < j < |a| && a[i] == a[j];
      assert a == a[..j] + [a[j]] + a[j + 1..];
      assert a[..j][i] == a[j];
      assert multiset(a)[a[j]] >= 2;
    }
  }

  lemma {:induction false} DistinctOnce(a: seq<Char16>)
    requires Distinct(a)
    ensures forall c :: c in multiset(a) ==> multiset(a)[c] == 1
  {
    if |a| > 0 {
      var front, last := a[..|a| - 1], a[|a| - 1];
      assert a == front + [last];
      DistinctOnce(front);
      assert last !in front;
    }
  }

  /** A permutation of a usable codeset is usable. */
  lemma PermutationUsable(a: seq<Char16>, b: seq<Char16>)
    requires multiset(a) == multiset(b) && Usable(a, false)
    ensures Usable(b, false)
  {
    DistinctMultiset(a);
    DistinctMultiset(b);
    forall i | 0 <= i < |b| ensures UsableAt(b, false, i) {
      assert b[i] in multiset(a);
      var j :| 0 <= j < |a| && a[j] == b[i];
      assert UsableAt(a, false, j);
    }
  }

  lemma FilledIff(cs: seq<Char16>, key: seq<Byte>, filled: Option<seq<Char16>>)
    requires |cs| > 0 && Keys.NoNul(cs) && |key| >= Keys.MIN_KEY && exists n: nat :: Keys.Outcome(cs, key, n, filled)
    ensures Coverage.Fits(key, |cs|, Coverage.Rounds(key, |cs|)) ==> (filled.Some? <==> Coverage.Meet(key, |cs|))
  {
    if Coverage.Fits(key, |cs|, Coverage.Rounds(key, |cs|)) {
      var n: nat :| Keys.Outcome(cs, key, n, filled);
      Coverage.OutcomeIff(cs, key, n, filled);
    }
  }

  lemma FirstFilled(cs: seq<Char16>, key: seq<Byte>, filled: seq<Char16>)
    requires |cs| == 64 && Keys.NoNul(cs) && |key| >= Keys.MIN_KEY
    requires exists n: nat :: Keys.Outcome(cs, key, n, Some(filled))
    ensures |filled| == 64 && filled[AbsByte(key[23 * Keys.Stride(key) % |key|]) % 64] == cs[63]
  {
    var n: nat :| Keys.Outcome(cs, key, n, Some(filled));
    Keys.FirstPlaced(cs, key, n, filled);
  }

  /** The fill loop makes `cs` of the codeset `parent` under this key. */
  ghost predicate Derives(parent: seq<Char16>, key: seq<Byte>, cs: seq<Char16>)
    requires |parent| > 0 && |key| >= Keys.MIN_KEY
  {
    exists n: nat :: Keys.Outcome(parent, key, n, Some(cs))
  }

  lemma DerivesIff(parent: seq<Char16>, key: seq<Byte>)
    requires |parent| > 0 && Keys.NoNul(parent) && |key| >= Keys.MIN_KEY
    requires Coverage.Fits(key, |parent|, Coverage.Rounds(key, |parent|))
    ensures (exists cs: seq<Char16> :: Derives(parent, key, cs)) <==> Coverage.Meet(key, |parent|)
  {
    Coverage.EverFillsIff(parent, key);
    if n: nat :| Coverage.FilledAfter(parent, key, n) {
      var slots := Keys.After(parent, Keys.KeyDraws(key, |parent|), n).slots;
      assert Keys.Outcome(parent, key, n, Some(slots));
      assert Derives(parent, key, slots);
    }
    if cs: seq<Char16> :| Derives(parent, key, cs) {
      var n: nat :| Keys.Outcome(parent, key, n, Some(cs));
      assert Coverage.FilledAfter(parent, key, n);
    }
  }

  /** A derived codeset is a permutation, and as usable as the one it came from. */
  lemma DerivedUsable(parent: seq<Char16>, key: seq<Byte>, cs: seq<Char16>)
    requires |parent| > 0 && Keys.NoNul(parent) && Usable(parent, false) && |key| >= Keys.MIN_KEY
    requires Derives(parent, key, cs)
    ensures multiset(cs) == multiset(parent) && |cs| == |parent| && Usable(cs, false)
  {
    var n: nat :| Keys.Outcome(parent, key, n, Some(cs));
    Keys.FilledIsPermutation(parent, Keys.KeyDraws(key, |parent|), n);
    SamePermutationLength(parent, cs);
    PermutationUsable(parent, cs);
  }

  lemma DerivedUndoes(parent: seq<Char16>, key: seq<Byte>, cs: seq<Char16>, split: JavaInt, pad: bool, x: seq<Byte>)
    requires |parent| == 64 && Keys.NoNul(parent) && Usable(parent, false) && |key| >= Keys.MIN_KEY
    requires Derives(parent, key, cs)
    ensures Undoes(cs, split, pad, x)
  {
    DerivedUsable(parent, key, cs);
    RoundTripIff(cs, false, split, pad);
  }

  /** A codec with linear lookup decodes what it encodes. */
  ghost predicate Undoes(cs: seq<Char16>, split: JavaInt, pad: bool, x: seq<Byte>) {
    |cs| == 64 && SixBit(Unordered(cs)) && Decoded(Unordered(cs), Encoded(cs, split, pad, x)) == Some(x)
  }

  /**
   Whatever key it was derived from, a codec undoes its own encoding; and there is such a codec exactly for the keys
   that can fill a codeset.
   */
  lemma DerivedRoundTrip(parent: seq<Char16>, key: seq<Byte>, split: JavaInt, pad: bool)
    requires |parent| == 64 && Keys.NoNul(parent) && Usable(parent, false) && |key| >= Keys.MIN_KEY
    ensures Coverage.Fits(key, 64, Coverage.Rounds(key, 64)) ==>
              ((exists cs: seq<Char16> :: Derives(parent, key, cs)) <==> Coverage.Meet(key, 64))
    ensures forall cs: seq<Char16>, x: seq<Byte> :: Derives(parent, key, cs) ==> Undoes(cs, split, pad, x)
  {
    if Coverage.Fits(key, 64, Coverage.Rounds(key, 64)) {
      DerivesIff(parent, key);
    }
    forall cs: seq<Char16>, x: seq<Byte> | Derives(parent, key, cs) ensures Undoes(cs, split, pad, x) {
      DerivedUndoes(parent, key, cs, split, pad, x);
    }
  }

  // ---------------------------------------------------------------- passwords

  /** The prefix of hidden passwords in property files. */
  const ENC: seq<Byte> := ['e' as int, 'n' as int, 'c' as int, ':' as int]

  /** AES under a 16-byte key, known only as a pair of inverse functions. */
  datatype CipherPair = CipherPair(enc: (seq<Byte>, seq<Byte>) -> seq<Byte>, dec: (seq<Byte>, seq<Byte>) -> seq<Byte>)

  ghost predicate Inverse(c: CipherPair) {
    forall k: seq<Byte>, x: seq<Byte> :: c.dec(k, c.enc(k, x)) == x
  }

  type Cipher = c: CipherPair | Inverse(c)
    witness CipherPair((k, x) => x, (k, x) => x)

  function Enpassed(cs: seq<Char16>, split: JavaInt, pad: bool, cipher: Cipher, key: seq<Byte>,
                    pass: seq<Byte>, rand: Frames.Random, now: nat): seq<Byte>
    requires |cs| == 64
  {
    Encoded(cs, split, pad, cipher.enc(key, Frames.Frame(pass, rand, now)))
  }

  function Unprefixed(password: seq<Byte>): seq<Byte> {
    if ENC <= password then password[|ENC|..] else password
  }

  function Depassed(convert: Convert, cipher: Cipher, key: seq<Byte>, password: seq<Byte>,
                    now: nat): Option<(seq<Byte>, nat)>
    requires SixBit(convert)
  {
    match Decoded(convert, Unprefixed(password))
    case None => None
    case Some(bytes) => Frames.Unframe(cipher.dec(key, bytes), now)
  }

  // ---------------------------------------------------------------- the codecs of the repository

  /** Letters, digits and two more characters. */
  function Alphabet(c62: Char16, c63: Char16): (cs: seq<Char16>)
    ensures |cs| == 64
    ensures forall i :: 0 <= i < 64 ==>
              cs[i] == if i < 26 then 65 + i else if i < 52 then 71 + i else if i < 62 then i - 4
                       else if i == 62 then c62 else c63
  {
    seq<Char16>(64, i => if 0 <= i < 26 then 65 + i else if 26 <= i < 52 then 71 + i else if 52 <= i < 62 then i - 4
                         else if i == 62 then c62 else c63)
  }

  const BASE64 := Alphabet('+' as int, '/' as int)
  const BASE64_URL := Alphabet('-' as int, '_' as int)

  /**
   Both standard alphabets suit either lookup; the '_' of the URL alphabet has the placeholder offset, but comes
   last.
   */
  lemma AlphabetsUsable(ordered: bool)
    ensures Usable(BASE64, ordered) && Usable(BASE64_URL, ordered)
    ensures BASE64[..62] == BASE64_URL[..62] && BASE64[62..] == ['+' as int, '/' as int]
            && BASE64_URL[62..] == ['-' as int, '_' as int]
    ensures Keys.NoNul(BASE64) && Keys.NoNul(BASE64_URL)
  {
    AlphabetUsable('+' as int, '/' as int, ordered);
    AlphabetUsable('-' as int, '_' as int, ordered);
    assert forall i :: 0 <= i < 62 ==> BASE64[i] == BASE64_URL[i];
    assert BASE64[62] == '+' as int && BASE64[63] == '/' as int;
    assert BASE64_URL[62] == '-' as int && BASE64_URL[63] == '_' as int;
  }

  lemma AlphabetUsable(c62: Char16, c63: Char16, ordered: bool)
    requires (c62 == '+' as int && c63 == '/' as int) || (c62 == '-' as int && c63 == '_' as int)
    ensures Usable(Alphabet(c62, c63), ordered) && Keys.NoNul(Alphabet(c62, c63))
  {
    var cs := Alphabet(c62, c63);
    assert forall i :: 0 <= i < 64 ==> cs[i] != 0;
    forall i | 0 <= i < 64 ensures UsableAt(cs, ordered, i) {
      assert cs[0] == 65;
    }
  }

  /** What `keygen` makes of its random bytes, a key file: their encoding by the codec for URLs, in lines of 76. */
  method Keygen(inkey: seq<Byte>) returns (text: seq<Byte>)
    requires |inkey| == 0x600
    ensures text == Encoded(BASE64_URL, 76, true, inkey)
  {
    var base64url := new Symm(BASE64_URL, 76, true);
    text := base64url.Encode(inkey);
  }

  datatype KeyError = InvalidKey | CannotFill

  lemma UrlIsSixBit()
    ensures SixBit(Compile(BASE64_URL))
  {
    BuiltIsSixBit(BASE64_URL, Compile(BASE64_URL).Ordered?);
  }

  /**
   `Symm.obtain(InputStream)`: the codec for a key file, derived from the one for encryption, which has the alphabet for
   URLs, lines of 1024 and no padding.
   */
  method ObtainFromKeyFile(text: seq<Byte>) returns (r: Result<Symm, KeyError>)
    ensures SixBit(Compile(BASE64_URL))
    ensures var key := Decoded(Compile(BASE64_URL), text);
            if key.None? || |key.value| < 0x88 then r == Err(InvalidKey)
            else if r.Ok? then
              && Derives(BASE64_URL, key.value, r.value.codeset) && r.value.convert == Unordered(r.value.codeset)
              && r.value.splitLinesAt == 1024 && !r.value.endEquals
            else r == Err(CannotFill) && exists n: nat :: Keys.Outcome(BASE64_URL, key.value, n, None)
    ensures var key := Decoded(Compile(BASE64_URL), text);
            key.Some? && 0x88 <= |key.value| <= 0x1_0000 ==> (r.Ok? <==> Coverage.Meet(key.value, 64))
  {
    UrlIsSixBit();
    AlphabetsUsable(false);
    var base64url := new Symm(BASE64_URL, 76, true);
    var encrypt := new Symm(BASE64_URL, 1024, false);
    var bkey := base64url.Decode(text);
    if bkey.None? || |bkey.value| < Keys.FILE_KEY {
      return Err(InvalidKey);
    }
    if |bkey.value| <= 0x1_0000 {
      Coverage.UsualKeysFit(bkey.value);
    }
    var s := encrypt.Obtain(bkey.value);
    r := if s.None? then Err(CannotFill) else Ok(s.value);
  }

  /**
   From key file to text and back: a generated key file is read as the very bytes it was made from; there is a codec
   derived from them exactly when they can fill a codeset, and it undoes its own encoding.
   */
  lemma KeyFileRoundTrip(inkey: seq<Byte>, split: JavaInt, pad: bool)
    requires |inkey| == 0x600
    ensures SixBit(Compile(BASE64_URL))
    ensures Decoded(Compile(BASE64_URL), Encoded(BASE64_URL, 76, true, inkey)) == Some(inkey)
    ensures (exists cs: seq<Char16> :: Derives(BASE64_URL, inkey, cs)) <==> Coverage.Meet(inkey, 64)
    ensures forall cs: seq<Char16>, x: seq<Byte> :: Derives(BASE64_URL, inkey, cs) ==> Undoes(cs, split, pad, x)
  {
    var ordered := Compile(BASE64_URL).Ordered?;
    AlphabetsUsable(ordered);
    AlphabetsUsable(false);
    RoundTripIff(BASE64_URL, ordered, 76, true);
    assert Compile(BASE64_URL) == ConvertOf(BASE64_URL, ordered);
    Coverage.UsualKeysFit(inkey);
    DerivedRoundTrip(BASE64_URL, inkey, split, pad);
  }
}
