/** String helpers with Python's meaning: digit formatting ("{0:02x}", str(int)),
    digit parsing (int(s, 16), int(s)), str.split/str.join on one separator,
    ASCII str.lower() and forgiving slices. */
module Strings {
  import opened Base

  // ---------------------------------------------------------------------------
  // Digits in base 10 or 16

  predicate IsDigitChar(c: char) {
    '0' <= c <= '9' || 'a' <= c <= 'f' || 'A' <= c <= 'F'
  }

  /** The value of one digit character; upper and lower case hex letters agree. */
  function CharValue(c: char): (d: nat)
    requires IsDigitChar(c)
    ensures d < 16
    ensures d < 10 <==> '0' <= c <= '9'
  {
    if '0' <= c <= '9' then c as int - '0' as int
    else if 'a' <= c <= 'f' then c as int - 'a' as int + 10
    else c as int - 'A' as int + 10
  }

  /** A digit as Python's format() and str() write it. */
  predicate IsLowerDigit(c: char) {
    '0' <= c <= '9' || 'a' <= c <= 'f'
  }

  predicate AllLowerDigits(s: string) {
    forall i :: 0 <= i < |s| ==> IsLowerDigit(s[i])
  }

  /** A digit of `base` written as Python's format() writes it (lower case). */
  function DigitChar(d: nat): (c: char)
    requires d < 16
    ensures IsDigitChar(c) && CharValue(c) == d && IsLowerDigit(c)
    ensures c != '-' && c != '+' && c != '.'
  {
    if d < 10 then ('0' as int + d) as char else ('a' as int + d - 10) as char
  }

  type Radix = b: nat | b == 10 || b == 16 witness 10

  predicate IsDigitIn(c: char, base: Radix) {
    IsDigitChar(c) && CharValue(c) < base
  }

  predicate AllDigits(s: string, base: Radix) {
    forall i :: 0 <= i < |s| ==> IsDigitIn(s[i], base)
  }

  function Pow(base: nat, k: nat): (p: nat)
    ensures base > 0 ==> p >= 1
  {
    if k == 0 then 1 else base * Pow(base, k - 1)
  }

  /** The shortest digit string of `n`: Python's format(n, 'x') or str(n). */
  function Digits(n: nat, base: Radix): (s: string)
    ensures |s| >= 1 && AllDigits(s, base) && AllLowerDigits(s)
    decreases n
  {
    if n < base then [DigitChar(n)] else Digits(n / base, base) + [DigitChar(n % base)]
  }

  /** `n` zero-padded to at least `width` digits: format(n, '0<width>x'). */
  function PadDigits(n: nat, base: Radix, width: nat): (s: string)
    ensures AllDigits(s, base) && AllLowerDigits(s)
  {
    var d := Digits(n, base);
    if |d| < width then seq(width - |d|, _ => '0') + d else d
  }

  function Hex(n: nat, width: nat): string {
    PadDigits(n, 16, width)
  }

  /** The number a digit string denotes, most significant digit first. */
  function Number(s: string, base: Radix): nat
    requires AllDigits(s, base)
  {
    if s == [] then 0 else Number(s[..|s| - 1], base) * base + CharValue(s[|s| - 1])
  }

  /** int(s, 16) restricted to strings of hex digits of either case; any other string,
      including the ones Python also accepts (a 0x prefix, a sign, surrounding whitespace,
      underscores between digits), gives None. */
  function ParseHex(s: string): (r: Option<nat>)
    ensures r.Some? <==> |s| > 0 && AllDigits(s, 16)
  {
    if |s| > 0 && AllDigits(s, 16) then Some(Number(s, 16)) else None
  }

  function ParseNat(s: string): (r: Option<nat>)
    ensures r.Some? <==> |s| > 0 && AllDigits(s, 10)
  {
    if |s| > 0 && AllDigits(s, 10) then Some(Number(s, 10)) else None
  }

  /** str(i) for a Python int. */
  function IntToString(i: int): string {
    if i < 0 then "-" + Digits(-i, 10) else Digits(i, 10)
  }

  /** int(s) for an optional sign followed by decimal digits. */
  function ParseInt(s: string): (r: Option<int>)
    ensures |s| == 0 ==> r.None?
  {
    if |s| > 0 && s[0] == '-' then
      var n := ParseNat(s[1..]);
      if n.Some? then Some(0 - n.value) else None
    else if |s| > 0 && s[0] == '+' then ParseNat(s[1..])
    else ParseNat(s)
  }

  // ---------------------------------------------------------------------------
  // Digit lemmas

  lemma {:induction false} ValueOfAppend(a: string, b: string, base: Radix)
    requires AllDigits(a, base) && AllDigits(b, base)
    ensures AllDigits(a + b, base)
    ensures Number(a + b, base) == Number(a, base) * Pow(base, |b|) + Number(b, base)
    decreases |b|
  {
    if b == [] {
      assert a + b == a;
    } else {
      var b' := b[..|b| - 1];
      assert (a + b)[..|a + b| - 1] == a + b';
      ValueOfAppend(a, b', base);
      ShiftDigit(Number(a, base), Pow(base, |b'|), Number(b', base), base, CharValue(b[|b| - 1]));
    }
  }

  lemma ShiftDigit(va: nat, p: nat, vb: nat, base: nat, d: nat)
    ensures (va * p + vb) * base + d == va * (base * p) + (vb * base + d)
  {
    calc {
      (va * p + vb) * base + d;
      va * p * base + vb * base + d;
      va * (base * p) + (vb * base + d);
    }
  }

  lemma {:induction false} ValueOfDigits(n: nat, base: Radix)
    ensures Number(Digits(n, base), base) == n
    decreases n
  {
    if n >= base {
      ValueOfDigits(n / base, base);
      ValueOfAppend(Digits(n / base, base), [DigitChar(n % base)], base);
    }
  }

  lemma {:induction false} ValueOfZeros(k: nat, base: Radix)
    ensures AllDigits(seq(k, _ => '0'), base)
    ensures Number(seq(k, _ => '0'), base) == 0
  {
    if k > 0 {
      var z := seq(k, _ => '0');
      assert z[..k - 1] == seq(k - 1, _ => '0');
      ValueOfZeros(k - 1, base);
    }
  }

  /** Only a string of zeros denotes zero. */
  lemma {:induction false} ValueZero(s: string, base: Radix)
    requires AllDigits(s, base) && Number(s, base) == 0
    ensures forall i :: 0 <= i < |s| ==> s[i] == '0'
  {
    if s != [] {
      var init := s[..|s| - 1];
      assert Number(init, base) * base + CharValue(s[|s| - 1]) == 0;
      ValueZero(init, base);
      assert forall i :: 0 <= i < |s| - 1 ==> s[i] == init[i];
    }
  }

  lemma {:induction false} ValueBound(s: string, base: Radix)
    requires AllDigits(s, base)
    ensures Number(s, base) < Pow(base, |s|)
  {
    if s != [] {
      ValueBound(s[..|s| - 1], base);
      var v := Number(s[..|s| - 1], base);
      assert v + 1 <= Pow(base, |s| - 1);
      assert (v + 1) * base <= Pow(base, |s| - 1) * base;
    }
  }

  /** The shortest form fits in `width` digits exactly when `n` is below base^width. */
  lemma {:induction false} DigitsFit(n: nat, base: Radix, width: nat)
    requires width >= 1
    ensures |Digits(n, base)| <= width <==> n < Pow(base, width)
    decreases n
  {
    if n >= base {
      if width == 1 {
        assert |Digits(n, base)| >= 2;
      } else {
        DigitsFit(n / base, base, width - 1);
        DivBelow(n, base, Pow(base, width - 1));
      }
    }
  }

  lemma DivBelow(n: nat, b: Radix, p: nat)
    ensures n / b < p <==> n < b * p
  {
    assert n == b * (n / b) + n % b;
    if n / b < p {
      assert n / b + 1 <= p;
      assert b * (n / b + 1) <= b * p;
    } else {
      assert b * p <= b * (n / b);
    }
  }

  lemma PadDigitsValue(n: nat, base: Radix, width: nat)
    ensures Number(PadDigits(n, base, width), base) == n
    ensures width >= 1 && n < Pow(base, width) ==> |PadDigits(n, base, width)| == width
    ensures |PadDigits(n, base, width)| >= width
  {
    PadDigitsNumber(n, base, width);
    if width >= 1 && n < Pow(base, width) {
      DigitsFit(n, base, width);
    }
  }

  lemma PadDigitsNumber(n: nat, base: Radix, width: nat)
    ensures Number(PadDigits(n, base, width), base) == n
  {
    var d := Digits(n, base);
    ValueOfDigits(n, base);
    if |d| < width {
      var z := seq(width - |d|, _ => '0');
      ValueOfZeros(width - |d|, base);
      ValueOfAppend(z, d, base);
      var p := Pow(base, |d|);
      assert Number(z + d, base) == 0 * p + n;
    }
  }

  lemma {:induction false} DigitsNoSign(n: nat, base: Radix)
    ensures Digits(n, base)[0] != '-' && Digits(n, base)[0] != '+'
    decreases n
  {
    if n >= base {
      DigitsNoSign(n / base, base);
    }
  }

  /** int(str(i)) == i. */
  lemma ParseIntOfString(i: int)
    ensures ParseInt(IntToString(i)) == Some(i)
  {
    if i < 0 {
      var d := Digits(-i, 10);
      ValueOfDigits(-i, 10);
      assert IntToString(i) == "-" + d;
      assert ("-" + d)[1..] == d;
      assert ParseNat(d) == Some(-i);
    } else {
      var d := Digits(i, 10);
      ValueOfDigits(i, 10);
      DigitsNoSign(i, 10);
      assert ParseNat(d) == Some(i);
    }
  }

  // ---------------------------------------------------------------------------
  // str.split(sep) and sep.join(parts)

  /** Python's s.split(sep) for a one-character separator: never an empty list. */
  function Split(s: string, sep: char): (parts: seq<string>)
    ensures |parts| >= 1
  {
    if s == [] then [""]
    else if s[0] == sep then [""] + Split(s[1..], sep)
    else
      var rest := Split(s[1..], sep);
      [[s[0]] + rest[0]] + rest[1..]
  }

  /** Python's sep.join(parts). */
  function Join(sep: char, parts: seq<string>): string {
    if parts == [] then ""
    else if |parts| == 1 then parts[0]
    else parts[0] + [sep] + Join(sep, parts[1..])
  }

  lemma {:induction false} JoinSplit(s: string, sep: char)
    ensures Join(sep, Split(s, sep)) == s
  {
    if s != [] {
      JoinSplit(s[1..], sep);
      if s[0] != sep {
        var rest := Split(s[1..], sep);
        if |rest| > 1 {
          assert ([[s[0]] + rest[0]] + rest[1..])[1..] == rest[1..];
        }
      }
    }
  }

  /** Splitting a segment free of the separator, then the separator, then the rest. */
  lemma {:induction false} SplitAfterSegment(c: string, sep: char, r: string)
    requires sep !in c
    ensures Split(c + [sep] + r, sep) == [c] + Split(r, sep)
  {
    if c != [] {
      assert (c + [sep] + r)[1..] == c[1..] + [sep] + r;
      SplitAfterSegment(c[1..], sep, r);
      assert [c[0]] + c[1..] == c;
    }
  }

  lemma {:induction false} SplitNoSeparator(s: string, sep: char)
    requires sep !in s
    ensures Split(s, sep) == [s]
  {
    if s != [] {
      SplitNoSeparator(s[1..], sep);
      assert [s[0]] + s[1..] == s;
    }
  }

  // ---------------------------------------------------------------------------
  // Case folding and slices

  /** str.lower() on ASCII letters (other characters unchanged). */
  function Lower(s: string): (r: string)
    ensures |r| == |s|
  {
    seq(|s|, i requires 0 <= i < |s| => if 'A' <= s[i] <= 'Z' then (s[i] as int + 32) as char else s[i])
  }

  /** s[i:j] in Python for non-negative i and j: out-of-range ends are clamped. */
  function Slice(s: string, i: nat, j: nat): (r: string)
    ensures i <= j <= |s| ==> r == s[i..j]
  {
    var lo := if i <= |s| then i else |s|;
    var hi := if j <= |s| then j else |s|;
    if lo <= hi then s[lo..hi] else ""
  }

  /** s[n:] in Python. */
  function Drop(s: string, n: nat): (r: string)
    ensures n <= |s| ==> r == s[n..]
    ensures n > |s| ==> r == ""
  {
    if n <= |s| then s[n..] else ""
  }

  function StartsWith(s: string, prefix: string): bool {
    |prefix| <= |s| && s[..|prefix|] == prefix
  }

  /** {x for x in s} == set('0'): a non-empty string of zeros only. */
  predicate AllZeros(s: string) {
    |s| > 0 && forall i :: 0 <= i < |s| ==> s[i] == '0'
  }
}
