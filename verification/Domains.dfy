/**
 Two ways to turn an identity into a namespace, its domain read backwards: `FQI.reverseDomain`, which splits at the
 dots and goes through the pieces from the last, and `UserChainManip.idToNS`, which scans the characters from the end.
 */
module Domains {
  import opened Wrappers

  /** The first place of `c` from `start` on, or -1. */
  function IndexOf(s: string, c: char, start: nat): (i: int)
    requires start <= |s|
    ensures i == -1 || start <= i < |s|
    ensures forall k :: start <= k < (if i < 0 then |s| else i) ==> s[k] != c
    ensures i >= 0 ==> s[i] == c
    decreases |s| - start
  {
    if start == |s| then -1
    else if s[start] == c then start
    else IndexOf(s, c, start + 1)
  }

  /** The text between the separators, empty pieces included. */
  function Pieces(s: string, c: char): (p: seq<string>)
    ensures p != []
    decreases |s|
  {
    var i := IndexOf(s, c, 0);
    if i < 0 then [s] else [s[..i]] + Pieces(s[i + 1..], c)
  }

  function Join(p: seq<string>, c: char): string {
    if p == [] then "" else if |p| == 1 then p[0] else p[0] + [c] + Join(p[1..], c)
  }

  ghost predicate Without(p: seq<string>, c: char) {
    forall i :: 0 <= i < |p| ==> c !in p[i]
  }

  /** The first separator is where it is put. */
  lemma FirstAt(a: string, c: char, b: string)
    requires c !in a
    ensures IndexOf(a + [c] + b, c, 0) == |a|
  {
    var s := a + [c] + b;
    assert s[|a|] == c && forall k :: 0 <= k < |a| ==> s[k] == a[k];
  }

  lemma PiecesFirst(a: string, c: char, b: string)
    requires c !in a
    ensures Pieces(a + [c] + b, c) == [a] + Pieces(b, c)
  {
    FirstAt(a, c, b);
    var s := a + [c] + b;
    assert s[..|a|] == a && s[|a| + 1..] == b;
  }

  lemma JoinFirst(a: string, c: char, p: seq<string>)
    requires p != []
    ensures Join([a] + p, c) == a + [c] + Join(p, c)
    ensures c !in a && Without(p, c) ==> Without([a] + p, c)
  {
    assert ([a] + p)[1..] == p;
  }

  lemma OnePiece(s: string, c: char)
    requires IndexOf(s, c, 0) < 0
    ensures Pieces(s, c) == [s] && Join([s], c) == s && Without([s], c)
  {
  }

  lemma MorePieces(s: string, c: char)
    ensures var i := IndexOf(s, c, 0);
            i >= 0 ==>
              && c !in s[..i] && s == s[..i] + [c] + s[i + 1..]
              && Pieces(s, c) == [s[..i]] + Pieces(s[i + 1..], c)
  {
  }

  /** Splitting is the inverse of joining: the pieces hold no separator and join to the whole. */
  lemma {:induction false} PiecesJoin(s: string, c: char)
    ensures Without(Pieces(s, c), c) && Join(Pieces(s, c), c) == s
    decreases |s|
  {
    hide IndexOf;
    hide Join;
    hide Without;
    hide Pieces;
    var i := IndexOf(s, c, 0);
    if i < 0 {
      OnePiece(s, c);
    } else {
      MorePieces(s, c);
      PiecesJoin(s[i + 1..], c);
      JoinFirst(s[..i], c, Pieces(s[i + 1..], c));
    }
  }

  lemma {:induction false} JoinPieces(p: seq<string>, c: char)
    requires p != [] && Without(p, c)
    ensures Pieces(Join(p, c), c) == p
    decreases |p|
  {
    hide Pieces;
    hide IndexOf;
    assert p == [p[0]] + p[1..] && c !in p[0];
    if |p| == 1 {
      NotThere(p[0], c);
    } else {
      JoinPieces(p[1..], c);
      PiecesFirst(p[0], c, Join(p[1..], c));
    }
  }

  /** A last piece. */
  lemma {:induction false} PiecesLast(a: string, c: char, b: string)
    requires c !in b
    ensures Pieces(a + [c] + b, c) == Pieces(a, c) + [b]
    decreases |a|
  {
    hide IndexOf;
    hide Pieces;
    NotThere(b, c);
    NextPiece(a, c, 0);
    assert a[0..] == a;
    var i := IndexOf(a, c, 0);
    if i < 0 {
      PiecesFirst(a, c, b);
    } else {
      var tail := a[i + 1..];
      PiecesLast(tail, c, b);
      assert a + [c] + b == a[0..i] + [c] + (tail + [c] + b);
      PiecesFirst(a[0..i], c, tail + [c] + b);
    }
  }

  /** The first loop of `Split.split`. */
  method CountPieces(c: char, value: string) returns (count: nat)
    ensures count == |Pieces(value, c)|
  {
    hide Pieces;
    hide IndexOf;
    count := 1;
    NextPiece(value, c, 0);
    assert value[0..] == value;
    var idx := IndexOf(value, c, 0);
    while idx >= 0
      invariant -1 <= idx < |value|
      invariant |Pieces(value, c)| == count + if idx < 0 then 0 else |Pieces(value[idx + 1..], c)|
      decreases if idx < 0 then 0 else |value| - idx
    {
      NextPiece(value, c, idx + 1);
      idx := IndexOf(value, c, idx + 1);
      count := count + 1;
    }
  }

  /** The pieces of a text, none for null. */
  function PiecesOf(value: Option<string>, c: char): seq<string> {
    if value.None? then [] else Pieces(value.value, c)
  }

  /** `Split.split`: an array of as many elements as there are pieces, filled exactly. */
  method Split(c: char, value: Option<string>) returns (rv: array<string>)
    ensures fresh(rv) && rv[..] == PiecesOf(value, c)
    ensures value.None? <==> rv.Length == 0
  {
    hide Pieces;
    hide IndexOf;
    if value.None? {
      rv := new string[0];
      return;
    }
    var text := value.value;
    var count := CountPieces(c, text);
    rv := new string[count](_ => "");
    NextPiece(text, c, 0);
    assert text[0..] == text;
    if count == 1 {
      rv[0] := text;
    } else {
      FillPieces(c, text, rv);
    }
  }

  /** The second loop of `Split.split`. */
  method FillPieces(c: char, value: string, rv: array<string>)
    requires rv.Length == |Pieces(value, c)|
    modifies rv
    ensures rv[..] == Pieces(value, c)
  {
    hide Pieces;
    hide IndexOf;
    var last, count := 0, 0;
    var idx := IndexOf(value, c, 0);
    assert value[0..] == value;
    while idx >= 0
      invariant 0 <= last <= |value| && idx == IndexOf(value, c, last)
      invariant 0 <= count < rv.Length && count + |Pieces(value[last..], c)| == rv.Length
      invariant rv[..count] + Pieces(value[last..], c) == Pieces(value, c)
      decreases if idx < 0 then 0 else |value| - idx
    {
      NextPiece(value, c, last);
      rv[count] := value[last..idx];
      count := count + 1;
      last := idx + 1;
      idx := IndexOf(value, c, last);
    }
    NextPiece(value, c, last);
    rv[count] := value[last..];
  }

  lemma NotThere(s: string, c: char)
    requires forall k :: 0 <= k < |s| ==> s[k] != c
    ensures Pieces(s, c) == [s]
  {
    assert IndexOf(s, c, 0) < 0;
  }

  /** The first piece of what is left. */
  lemma NextPiece(s: string, c: char, start: nat)
    requires start <= |s|
    ensures var i := IndexOf(s, c, start);
            Pieces(s[start..], c) == if i < 0 then [s[start..]] else [s[start..i]] + Pieces(s[i + 1..], c)
  {
    hide IndexOf;
    hide Pieces;
    var i := IndexOf(s, c, start);
    if i < 0 {
      NotThere(s[start..], c);
    } else {
      assert s[start..] == s[start..i] + [c] + s[i + 1..];
      PiecesFirst(s[start..i], c, s[i + 1..]);
    }
  }

  function Reverse(p: seq<string>): (r: seq<string>)
    ensures |r| == |p|
  {
    if p == [] then [] else Reverse(p[1..]) + [p[0]]
  }

  /** A piece without what comes up to its first `@`, unless that is in front. */
  function Stripped(piece: string): string {
    var at := IndexOf(piece, '@', 0);
    if at > 0 then piece[at + 1..] else piece
  }

  function AllStripped(p: seq<string>): (r: seq<string>)
    ensures |r| == |p|
  {
    if p == [] then [] else [Stripped(p[0])] + AllStripped(p[1..])
  }

  /** `FQI.reverseDomain`. */
  method ReverseDomain(fqi: Option<string>) returns (reversed: string)
    ensures reversed == Join(Reverse(AllStripped(PiecesOf(fqi, '.'))), '.')
  {
    hide Pieces;
    hide IndexOf;
    var split := Split('.', fqi);
    ghost var all := AllStripped(split[..]);
    var sb: Option<string> := None;
    var i := split.Length;
    while i > 0
      invariant 0 <= i <= split.Length && split[..] == PiecesOf(fqi, '.')
      invariant sb.None? <==> i == split.Length
      invariant sb.Some? ==> sb.value == Join(Reverse(AllStripped(split[i..])), '.')
    {
      i := i - 1;
      assert split[i..] == [split[i]] + split[i + 1..];
      JoinLast(Reverse(AllStripped(split[i + 1..])), Stripped(split[i]), '.');
      var at := IndexOf(split[i], '@', 0);
      var piece := if at > 0 then split[i][at + 1..] else split[i];
      sb := Some(if sb.None? then piece else sb.value + "." + piece);
    }
    assert split[0..] == split[..];
    reversed := if sb.None? then "" else sb.value;
  }

  lemma {:induction false} JoinLast(p: seq<string>, last: string, c: char)
    ensures Join(p + [last], c) == if p == [] then last else Join(p, c) + [c] + last
    decreases |p|
  {
    if p == [] {
    } else if |p| == 1 {
      assert (p + [last])[1..] == [last];
    } else {
      assert (p + [last])[1..] == p[1..] + [last];
      JoinLast(p[1..], last, c);
    }
  }

  function NonEmpty(p: seq<string>): (r: seq<string>)
    ensures |r| <= |p|
  {
    if p == [] then [] else (if p[0] == "" then [] else [p[0]]) + NonEmpty(p[1..])
  }

  /** What the backward scan still finds in `p` when `seg` has been passed since the last separator. */
  function Back(p: string, seg: string): seq<string>
    decreases |p|
  {
    if p == "" then []
    else
      var c := p[|p| - 1];
      if c == '@' then NonEmpty([seg])
      else if c == '.' then NonEmpty([seg]) + Back(p[..|p| - 1], "")
      else Back(p[..|p| - 1], [c] + seg)
  }

  /** `UserChainManip.idToNS`. */
  method IdToNS(id: Option<string>) returns (ns: string)
    ensures ns == if id.None? then "" else Join(Back(id.value, ""), '.')
  {
    if id.None? {
      return "";
    }
    hide Back;
    hide Join;
    var s := id.value;
    var sb, first, end := "", true, |s| - 1;
    var idx := end;
    ghost var done: seq<string> := [];
    NothingLeft("", '.');
    assert s[..|s|] == s && s[|s|..|s|] == "";
    while idx >= 0
      invariant -1 <= idx <= end < |s|
      invariant sb == Join(done, '.') && (first <==> done == [])
      invariant done + Back(s[..idx + 1], s[idx + 1..end + 1]) == Back(s, "")
    {
      var c := s[idx];
      ScanOne(s, idx, end, done);
      if c == '@' || c == '.' {
        if idx < end {
          JoinLast(done, s[idx + 1..end + 1], '.');
          done := done + [s[idx + 1..end + 1]];
          if first {
            first := false;
          } else {
            sb := sb + ".";
          }
          sb := sb + s[idx + 1..end + 1];
        }
        end := idx - 1;
        if c == '@' {
          return sb;
        }
      }
      idx := idx - 1;
    }
    NothingLeft(s[idx + 1..end + 1], '.');
    assert s[..0] == "" && done + [] == done;
    ns := sb;
  }

  lemma NothingLeft(seg: string, c: char)
    ensures Back("", seg) == [] && Join([], c) == ""
  {
  }

  lemma ScanOne(s: string, idx: nat, end: int, done: seq<string>)
    requires idx <= end < |s|
    ensures var seg := s[idx + 1..end + 1];
            var more := if idx < end then done + [seg] else done;
            done + Back(s[..idx + 1], seg) ==
              if s[idx] == '@' then more
              else if s[idx] == '.' then more + Back(s[..idx], s[idx..idx])
              else done + Back(s[..idx], s[idx..end + 1])
  {
    var p := s[..idx + 1];
    assert p[..|p| - 1] == s[..idx] && [s[idx]] + s[idx + 1..end + 1] == s[idx..end + 1] && s[idx..idx] == "";
  }

  lemma {:induction false} ReverseLast(p: seq<string>, last: string)
    ensures Reverse(p + [last]) == [last] + Reverse(p)
    decreases |p|
  {
    if p != [] {
      assert (p + [last])[1..] == p[1..] + [last];
      ReverseLast(p[1..], last);
    }
  }

  lemma {:induction false} ReverseTwice(p: seq<string>)
    ensures Reverse(Reverse(p)) == p
    ensures forall c :: Without(p, c) ==> Without(Reverse(p), c)
    decreases |p|
  {
    if p != [] {
      ReverseTwice(p[1..]);
      ReverseLast(Reverse(p[1..]), p[0]);
      assert p == [p[0]] + p[1..];
      forall c | Without(p, c) ensures Without(Reverse(p), c) {
        assert Without(p[1..], c) && c !in p[0];
      }
    }
  }

  lemma {:induction false} NonEmptyLast(p: seq<string>, last: string)
    ensures NonEmpty(p + [last]) == NonEmpty(p) + NonEmpty([last])
    decreases |p|
  {
    if p == [] {
      assert p + [last] == [last];
    } else {
      assert (p + [last])[1..] == p[1..] + [last];
      NonEmptyLast(p[1..], last);
    }
  }

  lemma {:induction false} NonEmptySame(p: seq<string>)
    ensures |NonEmpty(p)| == |p| <==> NonEmpty(p) == p
    ensures NonEmpty(p) == p <==> "" !in p
    ensures forall c :: Without(p, c) ==> Without(NonEmpty(p), c)
    decreases |p|
  {
    if p != [] {
      NonEmptySame(p[1..]);
      assert p == [p[0]] + p[1..];
      forall c | Without(p, c) ensures Without(NonEmpty(p), c) {
        assert Without(p[1..], c) && c !in p[0];
      }
    }
  }

  /** The backward scan finds the non-empty pieces of what comes after the last `@`, last first. */
  lemma {:induction false} BackOfDomain(x: string, t: string, seg: string)
    requires '@' !in t && '.' !in seg
    ensures Back(x + ['@'] + t, seg) == Reverse(NonEmpty(Pieces(t + seg, '.')))
    decreases |t|
  {
    hide Pieces;
    hide IndexOf;
    var p := x + ['@'] + t;
    if t == "" {
      NotThere(seg, '.');
      assert t + seg == seg && p[|p| - 1] == '@';
    } else {
      var u, c := t[..|t| - 1], t[|t| - 1];
      assert p[..|p| - 1] == x + ['@'] + u && p[|p| - 1] == c;
      if c == '.' {
        BackOfDomain(x, u, "");
        PiecesLast(u, '.', seg);
        assert t + seg == u + ['.'] + seg && u + "" == u;
        LastFirst(Pieces(u, '.'), seg);
      } else {
        BackOfDomain(x, u, [c] + seg);
        assert t + seg == u + ([c] + seg);
      }
    }
  }

  lemma LastFirst(p: seq<string>, seg: string)
    ensures Reverse(NonEmpty(p + [seg])) == NonEmpty([seg]) + Reverse(NonEmpty(p))
  {
    NonEmptyLast(p, seg);
    if seg == "" {
      assert NonEmpty(p) + [] == NonEmpty(p);
    } else {
      assert [seg][1..] == [] && NonEmpty([seg]) == [seg];
      ReverseLast(NonEmpty(p), seg);
    }
  }

  /** Without an `@` the first piece is not found. */
  lemma {:induction false} BackWithoutAt(t: string, seg: string)
    requires '@' !in t && '.' !in seg
    ensures Back(t, seg) == Reverse(NonEmpty(Pieces(t + seg, '.')[1..]))
    decreases |t|
  {
    hide Pieces;
    hide IndexOf;
    if t == "" {
      NotThere(seg, '.');
      assert t + seg == seg;
    } else {
      var u, c := t[..|t| - 1], t[|t| - 1];
      if c == '.' {
        BackWithoutAt(u, "");
        PiecesLast(u, '.', seg);
        assert t + seg == u + ['.'] + seg && u + "" == u;
        assert (Pieces(u, '.') + [seg])[1..] == Pieces(u, '.')[1..] + [seg];
        LastFirst(Pieces(u, '.')[1..], seg);
      } else {
        BackWithoutAt(u, [c] + seg);
        assert t + seg == u + ([c] + seg);
      }
    }
  }

  /** Text put in front of a text goes to its first piece, and may bring pieces of its own. */
  lemma {:induction false} PiecesAppend(a: string, b: string, c: char)
    ensures |Pieces(a + b, c)| == |Pieces(a, c)| + |Pieces(b, c)| - 1
    ensures c !in a ==> Pieces(a, c) == [a] && Pieces(a + b, c) == [a + Pieces(b, c)[0]] + Pieces(b, c)[1..]
    ensures c in a ==> |Pieces(a, c)| > 1
    decreases |b|
  {
    hide Pieces;
    hide IndexOf;
    NextPiece(b, c, 0);
    assert b[0..] == b;
    var i := IndexOf(b, c, 0);
    if i < 0 {
      AppendPlain(a, b, c);
    } else {
      var d, e := b[..i], b[i + 1..];
      assert b[0..i] == d;
      AppendPlain(a, d, c);
      AppendAfter(a + d, e, c);
      assert a + b == a + d + [c] + e && b == d + [c] + e;
      AppendAfter(d, e, c);
      NotThere(d, c);
    }
  }

  /** Appending without separators. */
  lemma {:induction false} AppendPlain(a: string, b: string, c: char)
    requires c !in b
    ensures Pieces(b, c) == [b]
    ensures |Pieces(a + b, c)| == |Pieces(a, c)|
    ensures if c in a then |Pieces(a, c)| > 1 else Pieces(a, c) == [a] && Pieces(a + b, c) == [a + b]
    decreases |a|
  {
    hide Pieces;
    hide IndexOf;
    NotThere(b, c);
    NextPiece(a, c, 0);
    assert a[0..] == a;
    var i := IndexOf(a, c, 0);
    if i < 0 {
      NotThere(a + b, c);
    } else {
      var rest := a[i + 1..];
      assert a[0..i] == a[..i] && a + b == a[..i] + [c] + (rest + b) && a[i] in a;
      PiecesFirst(a[..i], c, rest + b);
      AppendPlain(rest, b, c);
    }
  }

  /** Appending after a separator. */
  lemma {:induction false} AppendAfter(a: string, e: string, c: char)
    ensures Pieces(a + [c] + e, c) == Pieces(a, c) + Pieces(e, c)
    decreases |a|
  {
    hide Pieces;
    hide IndexOf;
    NextPiece(a, c, 0);
    assert a[0..] == a;
    var i := IndexOf(a, c, 0);
    if i < 0 {
      PiecesFirst(a, c, e);
    } else {
      var rest := a[i + 1..];
      assert a[0..i] == a[..i] && a + [c] + e == a[..i] + [c] + (rest + [c] + e);
      PiecesFirst(a[..i], c, rest + [c] + e);
      AppendAfter(rest, e, c);
    }
  }

  lemma {:induction false} StrippedSame(p: seq<string>)
    requires Without(p, '@')
    ensures AllStripped(p) == p
    decreases |p|
  {
    if p != [] {
      assert Without(p[1..], '@') && '@' !in p[0];
      StrippedSame(p[1..]);
    }
  }

  lemma {:induction false} StrippedWithoutDots(p: seq<string>)
    requires Without(p, '.')
    ensures Without(AllStripped(p), '.')
    decreases |p|
  {
    if p != [] {
      assert Without(p[1..], '.') && '.' !in p[0];
      StrippedWithoutDots(p[1..]);
      assert '.' !in Stripped(p[0]);
    }
  }

  /** An `@` is in the first piece only. */
  lemma StrippedFirst(first: string, rest: seq<string>)
    requires Without(rest, '@')
    ensures AllStripped([first] + rest) == [Stripped(first)] + rest
  {
    assert ([first] + rest)[1..] == rest;
    StrippedSame(rest);
  }

  /** Pieces hold only what the text holds. */
  lemma {:induction false} PiecesWithin(s: string, c: char, d: char)
    requires d !in s
    ensures Without(Pieces(s, c), d)
    decreases |s|
  {
    hide Pieces;
    hide IndexOf;
    NextPiece(s, c, 0);
    assert s[0..] == s;
    var i := IndexOf(s, c, 0);
    if i >= 0 {
      PiecesWithin(s[i + 1..], c, d);
    }
  }

  /** Dot-free names joined by dots are the same only if the names are; no names are like one empty name. */
  lemma JoinedSame(p: seq<string>, q: seq<string>)
    requires q != [] && Without(p, '.') && Without(q, '.')
    ensures Join(p, '.') == Join(q, '.') <==> p == q || (p == [] && q == [""])
  {
    hide Pieces;
    hide IndexOf;
    JoinPieces(q, '.');
    if p == [] {
      NotThere("", '.');
    } else {
      JoinPieces(p, '.');
    }
  }

  /**
   An empty identity, or one `@` after a nonempty name without dots and before a domain without empty parts, or none.
   */
  predicate Proper(id: string) {
    var at := IndexOf(id, '@', 0);
    || id == ""
    || (at > 0 && '.' !in id[..at] && '@' !in id[at + 1..] && (id[at + 1..] == "" || "" !in Pieces(id[at + 1..], '.')))
  }

  /** Both ways come to the same namespace exactly for proper identities. */
  lemma NamespaceIff(id: string)
    ensures Join(Back(id, ""), '.') == Join(Reverse(AllStripped(Pieces(id, '.'))), '.') <==> Proper(id)
  {
    hide Pieces;
    if '@' !in id {
      WithoutAt(id);
    } else {
      var at := LastAt(id);
      SplitAt(id, id[..at], id[at + 1..]);
    }
  }

  lemma LastAt(id: string) returns (at: nat)
    requires '@' in id
    ensures at < |id| && '@' !in id[at + 1..] && id == id[..at] + ['@'] + id[at + 1..]
  {
    var some :| 0 <= some < |id| && id[some] == '@';
    at := |id| - 1;
    while id[at] != '@'
      invariant some <= at < |id|
      invariant forall k :: at < k < |id| ==> id[k] != '@'
      decreases at
    {
      at := at - 1;
    }
    assert id == id[..at] + ['@'] + id[at + 1..];
  }

  lemma WithoutAt(id: string)
    requires '@' !in id
    ensures Join(Back(id, ""), '.') == Join(Reverse(AllStripped(Pieces(id, '.'))), '.') <==> id == ""
    ensures Proper(id) <==> id == ""
  {
    hide Pieces, Back, AllStripped;
    var p := Pieces(id, '.');
    BackWithoutAt(id, "");
    assert id + "" == id;
    PiecesJoin(id, '.');
    PiecesWithin(id, '.', '@');
    StrippedSame(p);
    var rest := NonEmpty(p[1..]);
    NonEmptySame(p[1..]);
    assert Without(p[1..], '.');
    ReverseTwice(p);
    ReverseTwice(rest);
    JoinedSame(Reverse(rest), Reverse(p));
    if Reverse(rest) == [] && Reverse(p) == [""] {
      assert Reverse(Reverse(p)) == [""];
    }
    if id == "" {
      NotThere("", '.');
    }
  }

  /** With `t` what comes after the last `@`. */
  lemma SplitAt(id: string, x: string, t: string)
    requires id == x + ['@'] + t && '@' !in t
    ensures Join(Back(id, ""), '.') == Join(Reverse(AllStripped(Pieces(id, '.'))), '.') <==> Proper(id)
  {
    hide Pieces;
    hide IndexOf;
    var all, domain := AllStripped(Pieces(id, '.')), Pieces(t, '.');
    BackOfDomain(x, t, "");
    assert t + "" == t;
    PiecesJoin(id, '.');
    PiecesJoin(t, '.');
    StrippedWithoutDots(Pieces(id, '.'));
    NonEmptySame(domain);
    ReverseTwice(all);
    ReverseTwice(NonEmpty(domain));
    JoinedSame(Reverse(NonEmpty(domain)), Reverse(all));
    SameNames(id, x, t, all);
  }

  lemma StrippedName(x: string, d: string)
    requires '@' !in d
    ensures Stripped(x + ['@'] + d) == d <==> x != "" && '@' !in x
  {
    var piece := x + ['@'] + d;
    var at := IndexOf(piece, '@', 0);
    assert piece[|x|] == '@';
    if '@' !in x {
      FirstAt(x, '@', d);
      assert piece[|x| + 1..] == d;
    } else {
      assert at < |x| by {
        var i :| 0 <= i < |x| && x[i] == '@';
        assert piece[i] == '@';
      }
      assert at > 0 ==> piece[at + 1..][|x| - at - 1] == '@';
    }
  }

  lemma ProperParts(id: string, x: string, t: string)
    requires id == x + ['@'] + t && '@' !in t
    ensures Proper(id) <==> x != "" && '@' !in x && '.' !in x && (t == "" || "" !in Pieces(t, '.'))
  {
    hide Pieces;
    var at := IndexOf(id, '@', 0);
    assert id[|x|] == '@';
    if '@' !in x {
      FirstAt(x, '@', t);
      assert id[..|x|] == x && id[|x| + 1..] == t;
    } else {
      assert at < |x| by {
        var i :| 0 <= i < |x| && x[i] == '@';
        assert id[i] == '@';
      }
      assert id[at + 1..][|x| - at - 1] == '@';
    }
  }

  /** The names found are those split off exactly for proper identities. */
  lemma SameNames(id: string, x: string, t: string, all: seq<string>)
    requires id == x + ['@'] + t && '@' !in t && all == AllStripped(Pieces(id, '.'))
    ensures NonEmpty(Pieces(t, '.')) == all || (NonEmpty(Pieces(t, '.')) == [] && all == [""]) <==> Proper(id)
  {
    hide Pieces;
    hide IndexOf;
    hide Proper;
    hide Stripped;
    hide AllStripped;
    hide NonEmpty;
    var domain := Pieces(t, '.');
    ProperParts(id, x, t);
    PiecesAppend(x + ['@'], t, '.');
    if '.' in x {
      assert '.' in x + ['@'];
    } else {
      PiecesWithin(t, '.', '@');
      assert Without(domain[1..], '@') && '@' !in domain[0];
      StrippedFirst(x + ['@'] + domain[0], domain[1..]);
      StrippedName(x, domain[0]);
      OneOrMore(t, domain, all);
    }
  }

  lemma OneOrMore(t: string, domain: seq<string>, all: seq<string>)
    requires domain == Pieces(t, '.') && all != [] && all[1..] == domain[1..]
    ensures NonEmpty(domain) == all || (NonEmpty(domain) == [] && all == [""]) <==>
            all[0] == domain[0] && (t == "" || "" !in domain)
  {
    hide Pieces;
    PiecesJoin(t, '.');
    NonEmptySame(domain);
    assert domain == [domain[0]] + domain[1..] && all == [all[0]] + all[1..];
    if t == "" {
      NotThere("", '.');
    } else if |domain| == 1 {
      assert Join(domain, '.') == domain[0];
    }
  }
}
