/**
 The frame `Symm.enpass` puts around a password before encryption, and its reading by `depass`: a salt that
 fixes how many random bytes follow, the low half of the clock, the length, and the password, interleaved
 with random bytes when it is short.
 */
module PasswordFrame {
  import opened Wrappers

  /** The random generator: its bytes in the order in which they are drawn. */
  type Random = nat -> Byte

  /** Passwords shorter than this are interleaved with random bytes. */
  const MIN_LENGTH := 9

  function Signed(b: Byte): int {
    if b < 128 then b else b - 256
  }

  /** How many random bytes follow the salt. */
  function SaltSkip(a: Byte, b: Byte, c: Byte): (r: nat)
    ensures r < 7 && (AbsByte(a) + AbsByte(b) + AbsByte(c) - r) % 7 == 0
  {
    (AbsByte(a) + AbsByte(b) + AbsByte(c)) % 7
  }

  function Drawn(rand: Random, from: nat, n: nat): (r: seq<Byte>)
    ensures |r| == n && forall i :: 0 <= i < n ==> r[i] == rand(from + i)
  {
    seq(n, i requires 0 <= i < n => rand(from + i))
  }

  /** The low 32 bits of the clock, most significant byte first. */
  function Clock(now: nat): (r: seq<Byte>)
    ensures |r| == 4
  {
    [now / 0x100_0000 % 0x100, now / 0x1_0000 % 0x100, now / 0x100 % 0x100, now % 0x100]
  }

  /** Each password byte after a random one. */
  function Interleaved(pass: seq<Byte>, rand: Random, from: nat): (r: seq<Byte>)
    ensures |r| == 2 * |pass|
  {
    if |pass| == 0 then []
    else
      var n := |pass| - 1;
      Interleaved(pass[..n], rand, from) + [rand(from + n), pass[n]]
  }

  function Body(pass: seq<Byte>, rand: Random, from: nat): seq<Byte> {
    if |pass| < MIN_LENGTH
    then Interleaved(pass, rand, from) + Drawn(rand, from + |pass|, MIN_LENGTH - |pass|)
    else pass
  }

  function Min(a: nat, b: nat): nat {
    if a < b then a else b
  }

  function Header(rand: Random, start: nat, now: nat, length: nat): (r: seq<Byte>)
    ensures |r| == 8 + start
  {
    Drawn(rand, 0, 3 + start) + Clock(now) + [Min(MIN_LENGTH, length)]
  }

  function Frame(pass: seq<Byte>, rand: Random, now: nat): seq<Byte> {
    var start := SaltSkip(rand(0), rand(1), rand(2));
    Header(rand, start, now, |pass|) + Body(pass, rand, 3 + start)
  }

  /** The clock reading `depass` puts together: the stored low half under the high half of its own clock. */
  function Restored(hi: Byte, lo: Byte, now: nat): nat {
    now / 0x1_0000 * 0x1_0000 + hi * 0x100 + lo
  }

  function Odds(s: seq<Byte>, n: nat): (r: seq<Byte>)
    requires 2 * n <= |s|
  {
    seq(n, i requires 0 <= i < n => s[2 * i + 1])
  }

  /** The password and the time read from a frame; None is the EOFException. */
  function Unframe(bytes: seq<Byte>, now: nat): Option<(seq<Byte>, nat)> {
    if |bytes| < 3 then None
    else
      var head := 3 + SaltSkip(bytes[0], bytes[1], bytes[2]) + 5;
      if |bytes| < head then None
      else
        var time := Restored(bytes[head - 3], bytes[head - 2], now);
        var length := Signed(bytes[head - 1]);
        if length >= MIN_LENGTH then Some((bytes[head..], time))
        else if length <= 0 then Some(([], time))
        else if |bytes| < head + 2 * length then None
        else Some((Odds(bytes[head..], length), time))
  }

  /** The bytes at odd positions of the interleaving are the password. */
  lemma {:induction false} OddsInterleaved(pass: seq<Byte>, rand: Random, from: nat, rest: seq<Byte>)
    ensures Odds(Interleaved(pass, rand, from) + rest, |pass|) == pass
  {
    if |pass| > 0 {
      var n := |pass| - 1;
      var last := [rand(from + n), pass[n]];
      var front := Interleaved(pass[..n], rand, from);
      OddsInterleaved(pass[..n], rand, from, last + rest);
      assert front + last + rest == front + (last + rest);
      var s := front + (last + rest);
      assert s[2 * n + 1] == pass[n];
      assert Odds(s, |pass|) == Odds(s, n) + [s[2 * n + 1]];
    }
  }

  /** Where the parts of a frame lie. */
  lemma FrameParts(pass: seq<Byte>, rand: Random, now: nat)
    ensures var f, head := Frame(pass, rand, now), 8 + SaltSkip(rand(0), rand(1), rand(2));
            && head <= |f|
            && f[0] == rand(0) && f[1] == rand(1) && f[2] == rand(2)
            && f[head - 3] == now / 0x100 % 0x100 && f[head - 2] == now % 0x100
            && f[head - 1] == Min(MIN_LENGTH, |pass|)
            && f[head..] == Body(pass, rand, head - 5)
  {
    hide SaltSkip;
    hide Body;
    hide Min;
    var start := SaltSkip(rand(0), rand(1), rand(2));
    var salt, clock := Drawn(rand, 0, 3 + start), Clock(now);
    var header := Header(rand, start, now, |pass|);
    assert Frame(pass, rand, now) == header + Body(pass, rand, 3 + start);
    assert header[5 + start] == clock[2] && header[6 + start] == clock[3];
  }

  lemma LowHalf(now: nat)
    ensures now % 0x1_0000 == now / 0x100 % 0x100 * 0x100 + now % 0x100
  {
    var h, l := now / 0x100, now % 0x100;
    var g, m := h / 0x100, h % 0x100;
    Halves(now, g, 0x100 * m + l);
  }

  lemma Halves(n: nat, high: nat, low: nat)
    requires n == 0x1_0000 * high + low && low < 0x1_0000
    ensures n % 0x1_0000 == low
  {
  }

  /** Reading a frame gives back the password, whatever its length and whatever the random bytes. */
  lemma UnframeFrame(pass: seq<Byte>, rand: Random, now: nat, later: nat)
    ensures Unframe(Frame(pass, rand, now), later) == Some((pass, later / 0x1_0000 * 0x1_0000 + now % 0x1_0000))
  {
    FrameParts(pass, rand, now);
    LowHalf(now);
    if |pass| < MIN_LENGTH {
      var from := 3 + SaltSkip(rand(0), rand(1), rand(2));
      OddsInterleaved(pass, rand, from, Drawn(rand, from + |pass|, MIN_LENGTH - |pass|));
    }
  }

  /** The time survives exactly when both clocks show the same high half, a window of 65.536 seconds. */
  lemma TimeSurvivesIff(now: nat, later: nat)
    ensures later / 0x1_0000 * 0x1_0000 + now % 0x1_0000 == now <==> later / 0x1_0000 == now / 0x1_0000
  {
  }

  /** No frame is shorter than 17 bytes, however short the password. */
  lemma FrameLength(pass: seq<Byte>, rand: Random, now: nat)
    ensures |Frame(pass, rand, now)| ==
            8 + SaltSkip(rand(0), rand(1), rand(2)) + (if |pass| < MIN_LENGTH then MIN_LENGTH + |pass| else |pass|)
    ensures |Frame(pass, rand, now)| >= 17
  {
  }

  lemma {:induction false} InterleavedAt(pass: seq<Byte>, rand: Random, from: nat, i: nat)
    requires i < |pass|
    ensures Interleaved(pass, rand, from)[2 * i] == rand(from + i)
    ensures Interleaved(pass, rand, from)[2 * i + 1] == pass[i]
    decreases |pass|
  {
    var n := |pass| - 1;
    if i < n {
      InterleavedAt(pass[..n], rand, from, i);
    }
  }

  /** The body of a short password: each byte after a random one, then random bytes up to nine. */
  lemma ShortBody(pass: seq<Byte>, rand: Random, from: nat)
    requires |pass| < 9
    ensures var b := Body(pass, rand, from);
            && |b| == 9 + |pass|
            && (forall i :: 0 <= i < |pass| ==> b[2 * i] == rand(from + i) && b[2 * i + 1] == pass[i])
            && forall i :: 2 * |pass| <= i < 9 + |pass| ==> b[i] == rand(from + i - |pass|)
  {
    hide Interleaved;
    forall i | 0 <= i < |pass|
      ensures Interleaved(pass, rand, from)[2 * i] == rand(from + i)
              && Interleaved(pass, rand, from)[2 * i + 1] == pass[i]
    {
      InterleavedAt(pass, rand, from, i);
    }
  }

  /** How many random bytes follow the salt: the magnitudes of its bytes modulo seven. */
  lemma SaltAsks(a: Byte, b: Byte, c: Byte)
    ensures SaltSkip(a, b, c) == (AbsByte(a) + AbsByte(b) + AbsByte(c)) % 7
  {
  }

  /**
   A frame byte by byte, up to the password: three bytes of salt and as many random ones as it asks for, the low half of
   the clock from its most significant byte on, and the length, at most nine.
   */
  lemma FrameBytes(pass: seq<Byte>, rand: Random, now: nat)
    ensures var f, s := Frame(pass, rand, now), SaltSkip(rand(0), rand(1), rand(2));
            && |f| == 8 + s + (if |pass| < 9 then 9 + |pass| else |pass|)
            && (forall i :: 0 <= i < 3 + s ==> f[i] == rand(i))
            && f[3 + s] == now / 0x100_0000 % 0x100 && f[4 + s] == now / 0x1_0000 % 0x100
            && f[5 + s] == now / 0x100 % 0x100 && f[6 + s] == now % 0x100
            && f[7 + s] == if |pass| < 9 then |pass| else 9
  {
    hide SaltSkip, Body, Header, Min;
    var s := SaltSkip(rand(0), rand(1), rand(2));
    HeaderBytes(rand, s, now, |pass|);
    BodySize(pass, rand, 3 + s);
  }

  lemma BodySize(pass: seq<Byte>, rand: Random, from: nat)
    ensures |Body(pass, rand, from)| == if |pass| < 9 then 9 + |pass| else |pass|
  {
  }

  /** And the password: as it is, or a short one interleaved with random bytes and filled up with them. */
  lemma FramePassword(pass: seq<Byte>, rand: Random, now: nat)
    ensures var f, s := Frame(pass, rand, now), SaltSkip(rand(0), rand(1), rand(2));
            && |f| >= 8 + s
            && var body := f[8 + s..];
               if |pass| >= 9 then body == pass
               else
                 && |body| == 9 + |pass|
                 && (forall i :: 0 <= i < |pass| ==> body[2 * i] == rand(3 + s + i) && body[2 * i + 1] == pass[i])
                 && forall i :: 2 * |pass| <= i < 9 + |pass| ==> body[i] == rand(3 + s + i - |pass|)
  {
    hide SaltSkip, Body, Header;
    var s := SaltSkip(rand(0), rand(1), rand(2));
    assert Frame(pass, rand, now)[8 + s..] == Body(pass, rand, 3 + s);
    if |pass| < 9 {
      ShortBody(pass, rand, 3 + s);
    } else {
      LongBody(pass, rand, 3 + s);
    }
  }

  lemma HeaderBytes(rand: Random, s: nat, now: nat, length: nat)
    ensures var h := Header(rand, s, now, length);
            && (forall i :: 0 <= i < 3 + s ==> h[i] == rand(i))
            && h[3 + s] == now / 0x100_0000 % 0x100 && h[4 + s] == now / 0x1_0000 % 0x100
            && h[5 + s] == now / 0x100 % 0x100 && h[6 + s] == now % 0x100
            && h[7 + s] == if length < 9 then length else 9
  {
    hide Clock;
    var h, clock := Header(rand, s, now, length), Clock(now);
    assert h[3 + s] == clock[0] && h[4 + s] == clock[1] && h[5 + s] == clock[2] && h[6 + s] == clock[3];
    ClockBytes(now);
  }

  lemma ClockBytes(now: nat)
    ensures Clock(now) == [now / 0x100_0000 % 0x100, now / 0x1_0000 % 0x100, now / 0x100 % 0x100, now % 0x100]
  {
  }

  lemma LongBody(pass: seq<Byte>, rand: Random, from: nat)
    requires |pass| >= 9
    ensures Body(pass, rand, from) == pass
  {
  }

  /**
   Reading stops in the middle exactly when the salt, the header or a short password is cut off. A length byte of 128 or
   more is negative: such a frame is read as an empty password.
   */
  lemma UnreadIff(bytes: seq<Byte>, now: nat)
    ensures Unframe(bytes, now).None? <==>
            || |bytes| < 3
            || (var s := (AbsByte(bytes[0]) + AbsByte(bytes[1]) + AbsByte(bytes[2])) % 7;
                |bytes| < 8 + s || (0 < bytes[7 + s] < 9 && |bytes| < 8 + s + 2 * bytes[7 + s]))
    ensures Unframe(bytes, now).Some? ==>
              |bytes| >= 8
              && var s := (AbsByte(bytes[0]) + AbsByte(bytes[1]) + AbsByte(bytes[2])) % 7;
                 |bytes| >= 8 + s
                 && var (pass, time) := Unframe(bytes, now).value;
                    && time == now - now % 0x1_0000 + bytes[5 + s] as int * 0x100 + bytes[6 + s] as int
                    && (bytes[7 + s] == 0 || bytes[7 + s] >= 128 ==> pass == [])
                    && (9 <= bytes[7 + s] < 128 ==> pass == bytes[8 + s..])
                    && (0 < bytes[7 + s] < 9 ==>
                          && |pass| == bytes[7 + s]
                          && forall i :: 0 <= i < |pass| ==> pass[i] == bytes[9 + s + 2 * i])
  {
    hide SaltSkip;
    if |bytes| >= 3 {
      SaltAsks(bytes[0], bytes[1], bytes[2]);
    }
  }

  // ---------------------------------------------------------------- the loops

  /** The salt and the random bytes it asks for. */
  method WriteSalt(rand: Random) returns (dos: seq<Byte>, start: nat)
    ensures start == SaltSkip(rand(0), rand(1), rand(2)) && dos == Drawn(rand, 0, 3 + start)
  {
    dos, start := [], 0;
    for i := 0 to 3
      invariant dos == Drawn(rand, 0, i)
      invariant start == (if i > 0 then AbsByte(rand(0)) else 0) + (if i > 1 then AbsByte(rand(1)) else 0)
                         + (if i > 2 then AbsByte(rand(2)) else 0)
    {
      var b := rand(i);
      dos := dos + [b];
      start := start + AbsByte(b);
    }
    start := start % 7;
    for i := 0 to start
      invariant dos == Drawn(rand, 0, 3 + i)
    {
      dos := dos + [rand(3 + i)];
    }
  }

  /** A short password mixed with random bytes and filled up. */
  method WriteShort(pass: seq<Byte>, rand: Random, from: nat) returns (dos: seq<Byte>)
    requires |pass| < MIN_LENGTH
    ensures dos == Body(pass, rand, from)
  {
    dos := [];
    for i := 0 to |pass|
      invariant dos == Interleaved(pass[..i], rand, from)
    {
      dos := dos + [rand(from + i)];
      dos := dos + [pass[i]];
      assert pass[..i + 1][..i] == pass[..i];
    }
    assert pass[..|pass|] == pass;
    ghost var mixed := dos;
    for i := |pass| to MIN_LENGTH
      invariant dos == mixed + Drawn(rand, from + |pass|, i - |pass|)
    {
      dos := dos + [rand(from + i)];
    }
  }

  method BuildFrame(pass: seq<Byte>, rand: Random, now: nat) returns (dos: seq<Byte>)
    ensures dos == Frame(pass, rand, now)
  {
    var start;
    dos, start := WriteSalt(rand);
    dos := dos + Clock(now);
    dos := dos + [Min(MIN_LENGTH, |pass|)];
    assert dos == Header(rand, start, now, |pass|);
    if |pass| < MIN_LENGTH {
      var mixed := WriteShort(pass, rand, 3 + start);
      dos := dos + mixed;
    } else {
      dos := dos + pass;
    }
  }

  method ParseFrame(bytes: seq<Byte>, now: nat) returns (r: Option<(seq<Byte>, nat)>)
    ensures r == Unframe(bytes, now)
  {
    if |bytes| < 3 {
      return None;
    }
    var pos, start := 0, 0;
    while pos < 3
      invariant 0 <= pos <= 3
      invariant start == (if pos > 0 then AbsByte(bytes[0]) else 0) + (if pos > 1 then AbsByte(bytes[1]) else 0)
                         + (if pos > 2 then AbsByte(bytes[2]) else 0)
    {
      start := start + AbsByte(bytes[pos]);
      pos := pos + 1;
    }
    start := start % 7;
    if |bytes| < pos + start + 5 {
      return None;
    }
    pos := pos + start;
    var time := Restored(bytes[pos + 2], bytes[pos + 3], now);
    pos := pos + 4;
    var length := Signed(bytes[pos]);
    pos := pos + 1;
    if length < MIN_LENGTH {
      var out: seq<Byte> := [];
      var i := 0;
      while i < length
        invariant 0 <= i && (i <= length || i == 0) && pos == 3 + start + 5 + 2 * i <= |bytes|
        invariant out == Odds(bytes[3 + start + 5..], i)
      {
        if |bytes| < pos + 2 {
          return None;
        }
        out := out + [bytes[pos + 1]];
        pos := pos + 2;
        i := i + 1;
      }
      r := Some((out, time));
    } else {
      var pre := (8 * 3 + 32 + 8) / 8 + start;
      r := Some((bytes[pre..], time));
    }
  }
}
