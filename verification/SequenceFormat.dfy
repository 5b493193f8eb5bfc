/** Fixed-width rendering of sequence numbers (`SequenceFormatter`) and the default maximum of a policy. */
module SequenceFormat {
  import opened Wrappers

  datatype SequenceType = ALPHA | NUMERIC

  /** The radix of a sequence type. */
  function Radix(kind: SequenceType): nat {
    if kind == ALPHA then 36 else 10
  }

  function DigitChar(d: nat): char
    requires d < 36
  {
    if d < 10 then '0' + d as char else 'a' + (d - 10) as char
  }

  /** The digit a character stands for in `Long.valueOf`, which also takes capitals. */
  function DigitValue(c: char): Option<nat> {
    if '0' <= c <= '9' then Some((c - '0') as nat)
    else if 'a' <= c <= 'z' then Some((c - 'a') as nat + 10)
    else if 'A' <= c <= 'Z' then Some((c - 'A') as nat + 10)
    else None
  }

  lemma DigitRoundTrip(d: nat)
    requires d < 36
    ensures DigitValue(DigitChar(d)) == Some(d)
  {
  }

  /** `Long.toString` of a number that is not negative. */
  function Digits(n: nat, base: nat): (r: string)
    requires 2 <= base <= 36
    ensures |r| > 0
    decreases n
  {
    if n < base then [DigitChar(n)] else
    DivisionSmaller(n, base);
    Digits(n / base, base) + [DigitChar(n % base)]
  }

  lemma DivisionSmaller(n: nat, base: nat)
    requires 2 <= base <= n
    ensures n / base < n && n == base * (n / base) + n % base && n / base >= 1
  {
    QuotientSmaller(n, base, n / base, n % base);
  }

  lemma QuotientSmaller(n: nat, base: nat, q: nat, r: nat)
    requires 2 <= base <= n && n == base * q + r && r < base
    ensures 1 <= q < n
  {
    if q > 0 {
      Twice(base, q);
    }
  }

  lemma Twice(base: nat, q: nat)
    requires base >= 2
    ensures base * q >= 2 * q
  {
    assert base * q == 2 * q + (base - 2) * q;
  }

  /** `Long.toString` of any number. */
  function LongText(n: int, base: nat): string
    requires 2 <= base <= 36
  {
    if n < 0 then "-" + Digits(-n, base) else Digits(n, base)
  }

  function Zeros(n: nat): (r: string)
    ensures |r| == n
  {
    seq(n, _ => '0')
  }

  /** Padded with zeros on the left; longer texts stay as they are. */
  function LeftPad(s: string, width: int): (r: string)
    ensures |r| == if |s| < width then width else |s|
  {
    if |s| < width then Zeros(width - |s|) + s else s
  }

  /**
   `formatSequence`; None stands for the exception of an illegal format. The sign of a negative number comes
   before the zeros in base 10, and after them in base 36.
   */
  function Format(n: int, kind: SequenceType, length: int): Option<string> {
    if kind == ALPHA then Some(LeftPad(LongText(n, 36), length))
    else if length <= 0 then None
    else Some(if n < 0 then "-" + LeftPad(Digits(-n, 10), length - 1) else LeftPad(Digits(n, 10), length))
  }

  /** The only illegal format is that of a decimal number without a width. */
  lemma FormatFailsIff(n: int, kind: SequenceType, length: int)
    ensures Format(n, kind, length).None? <==> kind == NUMERIC && length <= 0
  {
    hide LeftPad, LongText, Digits;
  }

  // ---------------------------------------------------------------- reading the digits back

  /** The number that a string of digits stands for; None when a character is not a digit of the base. */
  function Value(s: string, base: nat): Option<nat> {
    if |s| == 0 then Some(0)
    else
      match (Value(s[..|s| - 1], base), DigitValue(s[|s| - 1]))
      case (Some(v), Some(d)) => if d < base then Some(v * base + d) else None
      case _ => None
  }

  lemma Commute(a: int, b: int)
    ensures a * b == b * a
  {
  }

  lemma {:induction false} ValueDigits(n: nat, base: nat)
    requires 2 <= base <= 36
    ensures Value(Digits(n, base), base) == Some(n)
    decreases n
  {
    if n < base {
      DigitRoundTrip(n);
      assert [DigitChar(n)][..0] == [];
    } else {
      DivisionSmaller(n, base);
      ValueDigits(n / base, base);
      DigitRoundTrip(n % base);
      var s := Digits(n, base);
      assert s[..|s| - 1] == Digits(n / base, base);
      Commute(n / base, base);
    }
  }

  lemma {:induction false} ValuePadded(k: nat, s: string, base: nat)
    requires base >= 2
    ensures Value(Zeros(k) + s, base) == Value(s, base)
    decreases |s|, k
  {
    var t := Zeros(k) + s;
    if |s| > 0 {
      assert t[..|t| - 1] == Zeros(k) + s[..|s| - 1];
      ValuePadded(k, s[..|s| - 1], base);
    } else if k > 0 {
      assert t == Zeros(k) && t[..|t| - 1] == Zeros(k - 1) + [];
      ValuePadded(k - 1, [], base);
      assert 0 * base + 0 == 0;
    } else {
      assert t == s;
    }
  }

  lemma ValuePad(s: string, width: int, base: nat)
    requires base >= 2
    ensures Value(LeftPad(s, width), base) == Value(s, base)
  {
    if |s| < width {
      ValuePadded(width - |s|, s, base);
    }
  }

  /** The text of a number reads back as that number, so no two numbers share a text. */
  lemma FormatReadsBack(n: nat, kind: SequenceType, length: int)
    requires kind == ALPHA || length > 0
    ensures Format(n, kind, length).Some? && Value(Format(n, kind, length).value, Radix(kind)) == Some(n)
  {
    ValueDigits(n, Radix(kind));
    ValuePad(Digits(n, Radix(kind)), length, Radix(kind));
  }

  // ---------------------------------------------------------------- the default maximum

  function Power(base: nat, e: nat): (r: nat)
    requires base >= 1
    ensures r >= 1
  {
    if e == 0 then 1 else
    assert base * Power(base, e - 1) >= 1 * 1;
    base * Power(base, e - 1)
  }

  /** The largest number whose text is no longer than `length`; 3 digits when no length is given. */
  function DefaultMax(kind: SequenceType, length: int): nat {
    Power(Radix(kind), if length <= 0 then 3 else length) - 1
  }

  lemma PowerAtLeast(base: nat, e: nat)
    requires base >= 1 && e > 0
    ensures Power(base, e) == base * Power(base, e - 1) >= base
    ensures Power(base, 1) == base
  {
    assert base * Power(base, e - 1) >= base * 1;
    assert Power(base, 1) == base * Power(base, 0);
  }

  lemma {:induction false} DigitsLength(n: nat, base: nat, e: nat)
    requires 2 <= base <= 36 && e > 0
    ensures |Digits(n, base)| <= e <==> n < Power(base, e)
    decreases e
  {
    PowerAtLeast(base, e);
    if n >= base {
      DivisionSmaller(n, base);
      if e > 1 {
        DigitsLength(n / base, base, e - 1);
        QuotientBelow(n, base, Power(base, e - 1));
      }
    }
  }

  lemma QuotientBelow(n: nat, base: nat, p: nat)
    requires base > 0
    ensures n / base < p <==> n < base * p
  {
    var q, r := n / base, n % base;
    assert n == base * q + r;
    if q < p {
      assert base * (q + 1) <= base * p;
      assert base * (q + 1) == base * q + base;
    } else {
      assert base * p <= base * q;
    }
  }

  /** The default maximum is the largest number whose text has exactly the given width. */
  lemma DefaultMaxIsLargest(n: nat, kind: SequenceType, length: nat)
    requires length > 0
    ensures |Format(n, kind, length).value| == length <==> n <= DefaultMax(kind, length)
  {
    DigitsLength(n, Radix(kind), length);
  }

  // ---------------------------------------------------------------- order

  /** Dictionary order by character code, as the database compares strings. */
  predicate Precedes(s: string, t: string) {
    if |t| == 0 then false
    else if |s| == 0 then true
    else s[0] < t[0] || (s[0] == t[0] && Precedes(s[1..], t[1..]))
  }

  /** A digit as `Format` writes it. */
  predicate IsDigit(c: char, base: nat) {
    DigitValue(c).Some? && DigitValue(c).value < base && !('A' <= c <= 'Z')
  }

  predicate Written(s: string, base: nat) {
    forall i :: 0 <= i < |s| ==> IsDigit(s[i], base)
  }

  lemma {:induction false} DigitsWritten(n: nat, base: nat)
    requires 2 <= base <= 36
    ensures Written(Digits(n, base), base)
    decreases n
  {
    if n < base {
      DigitRoundTrip(n);
    } else {
      DivisionSmaller(n, base);
      DigitsWritten(n / base, base);
      DigitRoundTrip(n % base);
    }
  }

  /** The value by the leading digit. */
  lemma {:induction false} ValueHead(s: string, base: nat)
    requires base >= 2 && |s| > 0 && Written(s, base)
    ensures Value(s, base).Some? && Value(s[1..], base).Some?
    ensures Value(s, base).value == DigitValue(s[0]).value * Power(base, |s| - 1) + Value(s[1..], base).value
    ensures Value(s[1..], base).value < Power(base, |s| - 1)
  {
    var d := DigitValue(s[0]).value;
    if |s| == 1 {
      assert s[..0] == [] && s[1..] == [];
      assert Value(s, base) == Some(0 * base + d);
      assert Power(base, 0) == 1 && d * 1 == d;
    } else {
      var front, last := s[..|s| - 1], s[|s| - 1];
      ValueHead(front, base);
      var tail := s[1..];
      assert tail[..|tail| - 1] == front[1..] && tail[|tail| - 1] == last && front[0] == s[0];
      HornerShift(d, Power(base, |s| - 2), Value(front[1..], base).value, base, DigitValue(last).value);
    }
  }

  lemma HornerShift(d: nat, p: nat, v: nat, base: nat, e: nat)
    requires v < p && e < base
    ensures (d * p + v) * base + e == d * (base * p) + (v * base + e)
    ensures v * base + e < base * p
  {
    Distribute(d * p, v, base);
    Regroup(d, p, base);
    Distribute(v, 1, base);
    TimesMonotone(v + 1, p, base);
  }

  lemma Distribute(a: nat, b: nat, c: nat)
    ensures (a + b) * c == a * c + b * c
  {
  }

  lemma Regroup(a: nat, b: nat, c: nat)
    ensures a * b * c == a * (c * b)
  {
    Commute(b, c);
  }

  lemma TimesMonotone(a: nat, b: nat, c: nat)
    requires a <= b
    ensures a * c <= c * b
  {
    Distribute(a, b - a, c);
    Commute(b, c);
  }

  lemma Gap(a: nat, b: nat, p: nat)
    requires a < b
    ensures a * p + p <= b * p
  {
    var k := b - a - 1;
    assert b * p == (a + 1 + k) * p == a * p + p + k * p;
  }

  /** The leading digit decides; the rest only when it is the same. */
  lemma LeadingDigit(a: nat, b: nat, p: nat, v: nat, w: nat)
    requires v < p && w < p
    ensures a * p + v < b * p + w <==> a < b || (a == b && v < w)
  {
    if a < b {
      Gap(a, b, p);
    } else if b < a {
      Gap(b, a, p);
    }
  }

  /** On texts of one width, dictionary order is numeric order. */
  lemma {:induction false} SameWidthOrder(s: string, t: string, base: nat)
    requires base >= 2 && |s| == |t| && Written(s, base) && Written(t, base)
    ensures Value(s, base).Some? && Value(t, base).Some?
    ensures Precedes(s, t) <==> Value(s, base).value < Value(t, base).value
  {
    if |s| > 0 {
      ValueHead(s, base);
      ValueHead(t, base);
      SameWidthOrder(s[1..], t[1..], base);
      var a, b, p := DigitValue(s[0]).value, DigitValue(t[0]).value, Power(base, |s| - 1);
      LeadingDigit(a, b, p, Value(s[1..], base).value, Value(t[1..], base).value);
      DigitOrder(s[0], t[0], base);
    }
  }

  lemma DigitOrder(c: char, d: char, base: nat)
    requires IsDigit(c, base) && IsDigit(d, base)
    ensures c < d <==> DigitValue(c).value < DigitValue(d).value
    ensures c == d <==> DigitValue(c).value == DigitValue(d).value
  {
  }

  lemma PadWritten(n: nat, base: nat, width: int)
    requires 2 <= base <= 36
    ensures Written(LeftPad(Digits(n, base), width), base)
  {
    DigitsWritten(n, base);
  }

  /** Up to the default maximum the database's string order of sequence texts is the order of their numbers. */
  lemma FormatOrder(m: nat, n: nat, kind: SequenceType, length: nat)
    requires length > 0 && m <= DefaultMax(kind, length) && n <= DefaultMax(kind, length)
    ensures Precedes(Format(m, kind, length).value, Format(n, kind, length).value) <==> m < n
  {
    var base := Radix(kind);
    var s, t := LeftPad(Digits(m, base), length), LeftPad(Digits(n, base), length);
    assert Format(m, kind, length) == Some(s) && Format(n, kind, length) == Some(t);
    DefaultMaxIsLargest(m, kind, length);
    DefaultMaxIsLargest(n, kind, length);
    PadWritten(m, base, length);
    PadWritten(n, base, length);
    FormatReadsBack(m, kind, length);
    FormatReadsBack(n, kind, length);
    SameWidthOrder(s, t, base);
  }

  /** Padding in front of a sign. */
  lemma SignedPad(d: string, width: int) returns (k: nat)
    ensures LeftPad("-" + d, width) == Zeros(k) + "-" + d
  {
    var t := "-" + d;
    k := if |t| < width then width - |t| else 0;
    assert Zeros(k) + "-" + d == Zeros(k) + t;
    assert Zeros(0) + t == t;
  }

  /** A negative number's text: its sign among zeros, then digits. */
  lemma NegativeShape(n: int, kind: SequenceType, length: int) returns (k: nat, s: string)
    requires n < 0 && (kind == ALPHA || length > 0)
    ensures Format(n, kind, length) == Some(Zeros(k) + "-" + s) && Value(s, Radix(kind)) == Some(-n)
  {
    hide Digits, Value;
    var d := Digits(-n, Radix(kind));
    ValueDigits(-n, Radix(kind));
    if kind == ALPHA {
      s := d;
      k := SignedPad(d, length);
    } else {
      s := LeftPad(d, length - 1);
      k := SignedPad(s, 0);
      ValuePad(d, length - 1, 10);
    }
  }

  lemma Padded(s: string, width: int)
    ensures var t := LeftPad(s, width);
            && |t| == (if |s| < width then width else |s|) && t[|t| - |s|..] == s
            && forall i :: 0 <= i < |t| - |s| ==> t[i] == '0'
  {
  }

  /**
   The text of a negative number fills the width, too. With decimal numbers the sign comes first, with the others the
   zeros come before it.
   */
  lemma NegativeWidth(n: int, kind: SequenceType, length: int)
    requires n < 0 && (kind == ALPHA || length > 0)
    ensures var s, digits := Format(n, kind, length).value, Digits(-n, Radix(kind));
            && |s| == (if |digits| + 1 < length then length else |digits| + 1)
            && s[|s| - |digits|..] == digits
            && var at := if kind == NUMERIC then 0 else |s| - |digits| - 1;
               s[at] == '-' && forall i :: 0 <= i < |s| - |digits| && i != at ==> s[i] == '0'
  {
    hide Digits, LeftPad;
    var digits := Digits(-n, Radix(kind));
    if kind == ALPHA {
      Padded("-" + digits, length);
      var s := LeftPad("-" + digits, length);
      assert s[|s| - |digits| - 1..][0] == '-' && s[|s| - |digits| - 1..][1..] == digits;
    } else {
      Padded(digits, length - 1);
    }
  }

  lemma SameSignPosition(k: nat, s: string, k': nat, s': string)
    requires Zeros(k) + "-" + s == Zeros(k') + "-" + s'
    ensures s == s'
  {
    var t := Zeros(k) + "-" + s;
    assert t[k] == '-' && forall i :: 0 <= i < k ==> t[i] == '0';
    assert t[k'] == '-' && forall i :: 0 <= i < k' ==> t[i] == '0';
    assert t[k + 1..] == s && t[k' + 1..] == s';
  }

  lemma MinusIff(n: int, kind: SequenceType, length: int)
    requires kind == ALPHA || length > 0
    ensures '-' in Format(n, kind, length).value <==> n < 0
  {
    if n < 0 {
      var k, s := NegativeShape(n, kind, length);
      assert (Zeros(k) + "-" + s)[k] == '-';
    } else {
      PadWritten(n, Radix(kind), length);
      assert !IsDigit('-', Radix(kind));
    }
  }

  /** No two numbers, negative ones included, share a text. */
  lemma FormatInjective(m: int, n: int, kind: SequenceType, length: int)
    requires (kind == ALPHA || length > 0) && Format(m, kind, length) == Format(n, kind, length)
    ensures m == n
  {
    if m < 0 && n < 0 {
      var k, s := NegativeShape(m, kind, length);
      var k', s' := NegativeShape(n, kind, length);
      SameSignPosition(k, s, k', s');
    } else if m < 0 || n < 0 {
      MinusIff(m, kind, length);
      MinusIff(n, kind, length);
    } else {
      FormatReadsBack(m, kind, length);
      FormatReadsBack(n, kind, length);
    }
  }

  // ---------------------------------------------------------------- the maximum of a policy

  predicate IsLong(n: int) {
    -0x8000_0000_0000_0000 <= n < 0x8000_0000_0000_0000
  }

  /** `Long.valueOf(s, base)`: digits after an optional sign, within 64 bits. */
  function ParseLong(s: string, base: nat): Option<int> {
    var signed := |s| > 0 && (s[0] == '-' || s[0] == '+');
    var rest := if signed then s[1..] else s;
    if |rest| == 0 then None
    else
      match Value(rest, base)
      case None => None
      case Some(v) =>
        var n: int := if signed && s[0] == '-' then -(v as int) else v;
        if IsLong(n) then Some(n) else None
  }

  /** The text of a number is read as that number when it is a long, and not at all otherwise. */
  lemma LongReadsBack(n: int, base: nat)
    requires 2 <= base <= 36
    ensures ParseLong(LongText(n, base), base) ==
            if -0x8000_0000_0000_0000 <= n < 0x8000_0000_0000_0000 then Some(n) else None
  {
    hide Digits, Value;
    var digits := Digits(if n < 0 then -n else n, base);
    ValueDigits(if n < 0 then -n else n, base);
    if n < 0 {
      assert ("-" + digits)[1..] == digits;
    } else {
      DigitsWritten(n, base);
      assert IsDigit(digits[0], base);
    }
  }

  /** A plus sign changes nothing, capitals stand for the same digits, and there has to be a digit. */
  lemma ParseForms(s: string, base: nat)
    requires s != "" && s[0] != '-' && s[0] != '+'
    ensures ParseLong("+" + s, base) == ParseLong(s, base)
    ensures ParseLong("", base) == ParseLong("+", base) == ParseLong("-", base) == None
    ensures forall c :: 'a' <= c <= 'z' ==>
              DigitValue(c - 32 as char) == DigitValue(c) == Some(c as int - 'a' as int + 10)
    ensures forall c :: '0' <= c <= '9' ==> DigitValue(c) == Some(c as int - '0' as int)
    ensures forall c :: DigitValue(c).Some? ==> '0' <= c <= '9' || 'a' <= c <= 'z' || 'A' <= c <= 'Z'
    ensures (exists i :: 0 <= i < |s| && DigitValue(s[i]).None?) ==> ParseLong(s, base).None?
  {
    assert ("+" + s)[1..] == s && "+"[1..] == "" && "-"[1..] == "";
    ValueOnlyDigits(s, base);
  }

  lemma {:induction false} ValueOnlyDigits(s: string, base: nat)
    ensures Value(s, base).Some? <==>
            forall i :: 0 <= i < |s| ==> DigitValue(s[i]).Some? && DigitValue(s[i]).value < base
  {
    if |s| > 0 {
      ValueOnlyDigits(s[..|s| - 1], base);
    }
  }

  /** The configured maximum, or the default when none is configured or it cannot be read. */
  function ChosenMax(kind: SequenceType, length: int, text: Option<string>): int {
    if text.Some? && ParseLong(text.value, Radix(kind)).Some? then ParseLong(text.value, Radix(kind)).value
    else DefaultMax(kind, length)
  }

  /** A maximum written with the formatter is read back as it was. */
  lemma WrittenMaxIsRead(n: nat, kind: SequenceType, length: int)
    requires IsLong(n) && (kind == ALPHA || length > 0)
    ensures ChosenMax(kind, length, Format(n, kind, length)) == n
  {
    hide Digits, Value;
    FormatReadsBack(n, kind, length);
    var s := Format(n, kind, length).value;
    DigitsWritten(n, Radix(kind));
    assert IsDigit(s[0], Radix(kind));
  }

  /** The sequence part of a naming policy. */
  class PolicySequence {
    var startValue: int
    var increment: int
    var length: int
    var maxValue: Option<int>
    var maxValueString: Option<string>
    var kind: SequenceType
    var scope: Option<string>
    var value: Option<string>
    var lastReleaseSeqNumTried: Option<int>

    /** A sequence as `PolicyReader.seq` builds it: the maximum is not yet worked out. */
    constructor (startValue: int, increment: int, length: int, maxValueString: Option<string>, kind: SequenceType,
                 scope: Option<string>)
      ensures this.startValue == startValue && this.increment == increment && this.length == length
      ensures this.maxValueString == maxValueString && this.kind == kind && this.scope == scope
      ensures maxValue == None && value == None && lastReleaseSeqNumTried == None
    {
      this.startValue, this.increment, this.length := startValue, increment, length;
      this.maxValueString, this.kind, this.scope := maxValueString, kind, scope;
      maxValue, value, lastReleaseSeqNumTried := None, None, None;
    }

    /** The maximum that `GetMaxValue` gives now and from now on. */
    function Max(): int
      reads this
    {
      if maxValue.Some? then maxValue.value else ChosenMax(kind, length, maxValueString)
    }

    /** Works the maximum out once and keeps it. */
    method GetMaxValue() returns (max: int)
      modifies this`maxValue
      ensures max == old(Max()) && maxValue == Some(max)
    {
      if maxValue == None {
        if maxValueString.Some? {
          maxValue := ParseLong(maxValueString.value, Radix(kind));
        }
        if maxValue == None {
          var mlength := length;
          if mlength <= 0 {
            mlength := 3;
          }
          maxValue := Some(Power(Radix(kind), mlength) - 1);
        }
      }
      max := maxValue.value;
    }
  }
}
