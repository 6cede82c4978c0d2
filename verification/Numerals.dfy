// itoa and atoi of libk/string.c.
module Numerals {
  import opened Arithmetic
  import opened Common

  const INT_MAX: nat := 0x7FFF_FFFF

  type Int32 = n: int | -0x8000_0000 <= n <= 0x7FFF_FFFF
  type Base = b: nat | 2 <= b <= 36 witness 10

  // The operators / and % of C on signed operands truncate toward zero.
  function TruncDiv(n: int, b: Base): int {
    if n >= 0 then n / b else -(-n / b)
  }

  function TruncMod(n: int, b: Base): int {
    n - b * TruncDiv(n, b)
  }

  // The character stored for a remainder. A negative remainder is a huge
  // unsigned number and takes the letter branch, modulo 256.
  function DigitChar(rem: int): char
    requires -36 < rem < 36
  {
    if 0 <= rem < 10 then '0' + rem as char else (87 + rem) as char
  }

  lemma AtLeastDouble(b: int, q: int)
    requires b >= 2 && q >= 0
    ensures b * q >= q + q
  {
    assert b * q == 2 * q + (b - 2) * q;
  }

  lemma QuotientShrinks(m: nat, b: Base)
    ensures 0 <= m / b && (m > 0 ==> m / b < m)
    ensures m - b * (m / b) == m % b
  {
    DivMod(m, b);
    AtLeastDouble(b, m / b);
  }

  lemma RemainderRange(n: int, b: Base)
    ensures -(b as int) < TruncMod(n, b) < b
    ensures n >= 0 ==> TruncDiv(n, b) == n / b && TruncMod(n, b) == n % b
    ensures n < 0 ==> n < TruncDiv(n, b) <= 0 && TruncMod(n, b) <= 0
    ensures n > 0 ==> 0 <= TruncDiv(n, b) < n
  {
    if n >= 0 {
      QuotientShrinks(n, b);
    } else {
      QuotientShrinks(-n, b);
      assert b * -(-n / b) == -(b * (-n / b));
    }
  }

  // The characters itoa leaves in the buffer, most significant first.
  function Digits(n: int, b: Base): (s: string)
    ensures |s| > 0
    decreases if n < 0 then -n else n
  {
    RemainderRange(n, b);
    var last := [DigitChar(TruncMod(n, b))];
    if TruncDiv(n, b) == 0 then last else Digits(TruncDiv(n, b), b) + last
  }

  // ----- numerals -----

  function DigitValue(c: char): int {
    if '0' <= c <= '9' then c as int - '0' as int else if 'a' <= c <= 'z' then c as int - 'a' as int + 10 else -1
  }

  predicate IsNumeral(s: string, b: Base) {
    s != "" && AllDigits(s, b) && (|s| > 1 ==> s[0] != '0')
  }

  predicate AllDigits(s: string, b: Base) {
    forall i :: 0 <= i < |s| ==> 0 <= DigitValue(s[i]) < b
  }

  function Value(s: string, b: Base): int {
    if s == "" then 0 else b * Value(s[..|s| - 1], b) + DigitValue(s[|s| - 1])
  }

  lemma DigitRoundTrip(d: nat)
    requires d < 36
    ensures DigitValue(DigitChar(d)) == d && (DigitChar(d) == '0' <==> d == 0)
  {
  }

  // One step of itoa on a non-negative number: quotient, remainder and the
  // characters before the last.
  lemma DigitsUnfold(n: nat, b: Base) returns (q: nat, r: nat, t: string)
    ensures n == b * q + r && r < b && (n > 0 ==> q < n) && (n == 0 ==> q == 0)
    ensures Digits(n, b) == t + [DigitChar(r)]
    ensures t == if q == 0 then "" else Digits(q, b)
  {
    RemainderRange(n, b);
    DivMod(n, b);
    q, r := n / b, n % b;
    t := if q == 0 then "" else Digits(q, b);
  }

  lemma ValueSnoc(t: string, c: char, b: Base)
    ensures Value(t + [c], b) == b * Value(t, b) + DigitValue(c)
  {
    assert (t + [c])[..|t|] == t;
  }

  lemma {:induction false} ValueOfDigits(n: nat, b: Base)
    ensures Value(Digits(n, b), b) == n
    decreases n
  {
    var q, r, t := DigitsUnfold(n, b);
    if q != 0 {
      ValueOfDigits(q, b);
    }
    assert Value(t, b) == q;
    ValueStep(Digits(n, b), t, n, q, r, b);
  }

  lemma ValueStep(s: string, t: string, n: nat, q: nat, r: nat, b: Base)
    requires r < b && s == t + [DigitChar(r)] && Value(t, b) == q && n == b * q + r
    ensures Value(s, b) == n
  {
    DigitRoundTrip(r);
    ValueSnoc(t, DigitChar(r), b);
  }

  lemma {:induction false} DigitsAreDigits(n: nat, b: Base)
    ensures AllDigits(Digits(n, b), b)
    ensures Digits(n, b)[0] == '0' <==> n == 0
    ensures n == 0 ==> |Digits(n, b)| == 1
    decreases n
  {
    var q, r, t := DigitsUnfold(n, b);
    DigitRoundTrip(r);
    if q != 0 {
      DigitsAreDigits(q, b);
    }
  }

  // For a non-negative number itoa writes its numeral.
  lemma DigitsIsNumeral(n: nat, b: Base)
    ensures IsNumeral(Digits(n, b), b) && Value(Digits(n, b), b) == n
  {
    ValueOfDigits(n, b);
    DigitsAreDigits(n, b);
  }

  lemma {:induction false} ValueBounds(s: string, b: Base)
    requires s != "" && AllDigits(s, b)
    ensures Value(s, b) >= 0 && (s[0] != '0' ==> Value(s, b) > 0)
  {
    var t := s[..|s| - 1];
    assert 0 <= DigitValue(s[|s| - 1]) < b;
    if t == "" {
      assert Value(t, b) == 0;
    } else {
      ValueBounds(t, b);
      AtLeast(b, Value(t, b));
    }
  }

  lemma AtLeast(b: Base, v: int)
    requires v >= 0
    ensures b * v >= v
  {
    assert b * v == v + (b - 1) * v;
  }

  lemma DigitUnique(c: char, d: nat)
    requires d < 36 && DigitValue(c) == d
    ensures c == DigitChar(d)
  {
  }

  lemma DivModOf(b: Base, q: nat, r: nat)
    requires r < b
    ensures (b * q + r) / b == q && (b * q + r) % b == r
  {
    Quotient(b * q + r, b, q, r);
  }

  // The numeral is the only one: itoa inverts Value.
  lemma {:induction false} NumeralUnique(s: string, b: Base)
    requires IsNumeral(s, b)
    ensures Value(s, b) >= 0 && Digits(Value(s, b), b) == s
    decreases |s|
  {
    var t, r := s[..|s| - 1], DigitValue(s[|s| - 1]);
    ValueBounds(s, b);
    DigitUnique(s[|s| - 1], r);
    assert s == t + [s[|s| - 1]];
    RemainderRange(Value(s, b), b);
    if t == "" {
      DivModOf(b, 0, r);
    } else {
      assert t[0] == s[0];
      ValueBounds(t, b);
      DivModOf(b, Value(t, b), r);
      NumeralUnique(t, b);
    }
  }

  // ----- atoi -----

  function Skip(s: string): string {
    if s != "" && s[0] == ' ' then Skip(s[1..]) else s
  }

  // The value of the longest prefix of decimal digits, on top of `acc`.
  function Accumulate(s: string, acc: nat): nat {
    if s != "" && '0' <= s[0] <= '9' then Accumulate(s[1..], 10 * acc + (s[0] as int - '0' as int)) else acc
  }

  function Atoi(s: string): int {
    var t := Skip(s);
    if t != "" && t[0] == '-' then -(Accumulate(t[1..], 0) as int)
    else if t != "" && t[0] == '+' then Accumulate(t[1..], 0)
    else Accumulate(t, 0)
  }

  lemma {:induction false} AccumulateSnoc(s: string, c: char, acc: nat)
    requires forall i :: 0 <= i < |s| ==> '0' <= s[i] <= '9'
    requires '0' <= c <= '9'
    ensures Accumulate(s + [c], acc) == 10 * Accumulate(s, acc) + (c as int - '0' as int)
    decreases |s|
  {
    if s == "" {
      assert (s + [c])[1..] == "";
    } else {
      assert (s + [c])[1..] == s[1..] + [c];
      AccumulateSnoc(s[1..], c, 10 * acc + (s[0] as int - '0' as int));
    }
  }

  lemma {:induction false} AccumulateDigits(n: nat)
    ensures forall i :: 0 <= i < |Digits(n, 10)| ==> '0' <= Digits(n, 10)[i] <= '9'
    ensures Accumulate(Digits(n, 10), 0) == n
    decreases n
  {
    RemainderRange(n, 10);
    var c := DigitChar(n % 10);
    if n / 10 == 0 {
      assert Digits(n, 10) == [c];
      AccumulateSnoc("", c, 0);
      assert "" + [c] == [c];
    } else {
      AccumulateDigits(n / 10);
      AccumulateSnoc(Digits(n / 10, 10), c, 0);
    }
  }

  // A text that atoi is given: spaces, a sign or none, decimal digits, and what
  // follows them.
  function Spaces(k: nat): string {
    seq(k, _ => ' ')
  }

  ghost predicate Splits(sign: string, digits: string, rest: string) {
    && (sign == "" || sign == "-" || sign == "+") && AllDigits(digits, 10)
    && (rest != "" ==> !('0' <= rest[0] <= '9'))
    && (sign == "" && digits == "" && rest != "" ==> rest[0] != ' ' && rest[0] != '-' && rest[0] != '+')
  }

  // Every text splits so.
  lemma {:induction false} EveryTextSplits(s: string) returns (k: nat, sign: string, digits: string, rest: string)
    ensures Splits(sign, digits, rest) && s == Spaces(k) + (sign + (digits + rest))
  {
    if s != "" && s[0] == ' ' {
      k, sign, digits, rest := EveryTextSplits(s[1..]);
      k := k + 1;
      assert Spaces(k) == [' '] + Spaces(k - 1);
    } else {
      k, sign := 0, if s != "" && (s[0] == '-' || s[0] == '+') then s[..1] else "";
      digits, rest := SplitDigits(s[|sign|..]);
      assert sign == "" || sign == "-" || sign == "+";
    }
  }

  lemma {:induction false} SplitDigits(s: string) returns (digits: string, rest: string)
    ensures AllDigits(digits, 10) && s == digits + rest && (rest != "" ==> !('0' <= rest[0] <= '9'))
    ensures digits == "" ==> rest == s
  {
    if s != "" && '0' <= s[0] <= '9' {
      digits, rest := SplitDigits(s[1..]);
      digits := [s[0]] + digits;
    } else {
      digits, rest := "", s;
    }
  }

  lemma {:induction false} SkipSpaces(k: nat, s: string)
    requires s != "" ==> s[0] != ' '
    ensures Skip(Spaces(k) + s) == s
  {
    if k == 0 {
      assert Spaces(0) + s == s;
    } else {
      SkipSpaces(k - 1, s);
      assert (Spaces(k) + s)[1..] == Spaces(k - 1) + s;
    }
  }

  lemma {:induction false} AccumulateValue(digits: string)
    requires AllDigits(digits, 10)
    ensures Accumulate(digits, 0) == Value(digits, 10)
  {
    if digits != "" {
      var n := |digits| - 1;
      AccumulateValue(digits[..n]);
      forall i | 0 <= i < |digits| ensures '0' <= digits[i] <= '9' {
        assert 0 <= DigitValue(digits[i]) < 10;
      }
      AccumulateSnoc(digits[..n], digits[n], 0);
      assert digits == digits[..n] + [digits[n]];
    }
  }

  lemma {:induction false} AccumulateStops(digits: string, rest: string, acc: nat)
    requires AllDigits(digits, 10) && (rest != "" ==> !('0' <= rest[0] <= '9'))
    ensures Accumulate(digits + rest, acc) == Accumulate(digits, acc)
    decreases |digits|
  {
    if digits == "" {
      assert digits + rest == rest;
    } else {
      assert 0 <= DigitValue(digits[0]) < 10;
      AccumulateStops(digits[1..], rest, 10 * acc + (digits[0] as int - '0' as int));
      assert (digits + rest)[1..] == digits[1..] + rest;
    }
  }

  // atoi gives the value of the digits, negated after a minus sign; without
  // digits it gives 0.
  lemma AtoiReads(k: nat, sign: string, digits: string, rest: string)
    requires Splits(sign, digits, rest)
    ensures Atoi(Spaces(k) + (sign + (digits + rest))) == if sign == "-" then -Value(digits, 10) else Value(digits, 10)
  {
    var body := digits + rest;
    var t := sign + body;
    if digits != "" {
      assert 0 <= DigitValue(digits[0]) < 10;
    }
    SkipSpaces(k, t);
    AccumulateStops(digits, rest, 0);
    AccumulateValue(digits);
    if sign == "" {
      assert t == body;
    } else {
      assert t[1..] == body;
    }
  }

  // itoa writes a digit d > 0 of a negative number as the character 87 - d.
  predicate IsNegated(c: char, digit: char) {
    c as int == if digit == '0' then 48 else 87 - DigitValue(digit)
  }

  lemma {:induction false} NegativeDigits(m: int, b: Base)
    requires m > 0
    ensures |Digits(-m, b)| == |Digits(m, b)|
    ensures forall i :: 0 <= i < |Digits(m, b)| ==> IsNegated(Digits(-m, b)[i], Digits(m, b)[i])
    decreases m
  {
    var q, r := m / b, m % b;
    RemainderRange(m, b);
    RemainderRange(-m, b);
    MirrorRemainder(m, b);
    DigitMirrored(r);
    LastDigit(m, b, q, r);
    LastDigit(-m, b, -q, -r);
    if q != 0 {
      NegativeDigits(q, b);
    }
  }

  lemma MirrorRemainder(m: int, b: Base)
    requires m > 0
    ensures TruncDiv(m, b) == m / b && TruncMod(m, b) == m % b
    ensures TruncDiv(-m, b) == -(m / b) && TruncMod(-m, b) == -(m % b)
  {
    RemainderRange(m, b);
    assert b * -(m / b) == -(b * (m / b));
  }

  lemma DigitMirrored(d: int)
    requires 0 <= d < 36
    ensures IsNegated(DigitChar(-d), DigitChar(d))
  {
    DigitRoundTrip(d);
  }

  lemma LastDigit(n: int, b: Base, q: int, r: int)
    requires TruncDiv(n, b) == q && TruncMod(n, b) == r && -36 < r < 36
    ensures Digits(n, b) == (if q == 0 then [] else Digits(q, b)) + [DigitChar(r)]
  {
  }

  // The first character written for a negative number is no digit, space or sign.
  lemma {:induction false} NegativeHead(n: int)
    requires n < 0
    ensures 'N' <= Digits(n, 10)[0] <= 'V'
    decreases -n
  {
    RemainderRange(n, 10);
    if TruncDiv(n, 10) != 0 {
      NegativeHead(TruncDiv(n, 10));
    }
  }

  // atoi undoes itoa in base 10 exactly on the numbers that are not negative.
  lemma {:induction false} AtoiOfItoa(n: Int32)
    ensures Atoi(Digits(n, 10)) == n <==> n >= 0
  {
    if n >= 0 {
      AccumulateDigits(n);
      assert '0' <= Digits(n, 10)[0] <= '9';
    } else {
      NegativeHead(n);
    }
  }

  // ----- the code -----

  // itoa, into a buffer that holds the digits and the NUL.
  method ItoaInto(value: Int32, result: array<char>, b: Base)
    requires |Digits(value, b)| < result.Length
    modifies result
    ensures result[..|Digits(value, b)|] == Digits(value, b) && result[|Digits(value, b)|] == NUL
  {
    var n := WriteReversed(value, result, b);
    result[n] := NUL;
    ReverseFirst(result, n);
  }

  // Lines 128 to 132: the digits, least significant first.
  method WriteReversed(value: Int32, result: array<char>, b: Base) returns (i: nat)
    requires |Digits(value, b)| < result.Length
    modifies result
    ensures i == |Digits(value, b)| && forall k :: 0 <= k < i ==> result[k] == Digits(value, b)[i - 1 - k]
  {
    ghost var all := Digits(value, b);
    var v := value as int;
    i := 0;
    var more := true;
    while more
      invariant 0 <= i <= |all|
      invariant if more then i < |all| && Digits(v, b) == all[..|all| - i] else i == |all|
      invariant forall k :: 0 <= k < i ==> result[k] == all[|all| - 1 - k]
      decreases more, if v < 0 then -v else v
    {
      RemainderRange(v, b);
      ghost var rest := all[..|all| - i];
      assert rest[|rest| - 1] == DigitChar(TruncMod(v, b));
      result[i] := DigitChar(TruncMod(v, b));
      i := i + 1;
      v := TruncDiv(v, b);
      more := v != 0;
      if more {
        assert Digits(v, b) == rest[..|rest| - 1];
      }
    }
  }

  // Lines 135 to 139: the first `n` characters are reversed in place.
  method ReverseFirst(a: array<char>, n: nat)
    requires 0 < n <= a.Length
    modifies a
    ensures forall k :: 0 <= k < n ==> a[k] == old(a[n - 1 - k])
    ensures forall k :: n <= k < a.Length ==> a[k] == old(a[k])
  {
    var j, i := 0, n - 1;
    while j < i
      invariant 0 <= j <= i + 1 && i == n - 1 - j
      invariant forall k :: 0 <= k < j ==> a[k] == old(a[n - 1 - k])
      invariant forall k :: i < k < n ==> a[k] == old(a[n - 1 - k])
      invariant forall k :: j <= k <= i ==> a[k] == old(a[k])
      invariant forall k :: n <= k < a.Length ==> a[k] == old(a[k])
    {
      a[j], a[i] := a[i], a[j];
      j, i := j + 1, i - 1;
    }
  }

  // atoi of a NUL-terminated text, where the accumulated value fits an int.
  method ParseInt(str: string) returns (r: int)
    requires forall i :: 0 <= i < |str| ==> str[i] != NUL
    requires -(INT_MAX as int) <= Atoi(str) <= INT_MAX
    ensures r == Atoi(str)
  {
    var s := str + [NUL];
    var p := 0;
    while s[p] == ' '
      invariant 0 <= p <= |str| && Skip(str[p..]) == Skip(str)
      decreases |str| - p
    {
      assert str[p..][1..] == str[p + 1..];
      p := p + 1;
    }
    assert Skip(str) == str[p..];
    var negative := false;
    if s[p] == '-' {
      negative := true;
      p := p + 1;
    } else if s[p] == '+' {
      p := p + 1;
    }
    var result: nat := 0;
    ghost var p0 := p;
    while '0' <= s[p] <= '9'
      invariant p0 <= p <= |str| && Accumulate(str[p..], result) == Accumulate(str[p0..], 0)
      decreases |str| - p
    {
      assert str[p..][1..] == str[p + 1..];
      result := 10 * result + (s[p] as int - '0' as int);
      p := p + 1;
    }
    return if negative then -(result as int) else result;
  }
}
