/** Printing and parsing numbers. */
module Numbers {
  import opened Division

  const U32_MAX := 0xFFFF_FFFF
  const I32_MAX := 0x7FFF_FFFF
  const I32_MIN := -0x8000_0000
  const TMP_SIZE := 21

  // ----- what a digit string means -----

  function DigitChar(d: nat, upper: bool): char
    requires d < 16
  {
    if d < 10 then ('0' as int + d) as char else ((if upper then 'A' else 'a') as int + d - 10) as char
  }

  /** The value of a character as a digit of base 16, 16 if it is none. */
  function DigitValue(c: char): nat {
    if '0' <= c <= '9' then c as int - '0' as int
    else if 'a' <= c <= 'f' then c as int - 'a' as int + 10
    else if 'A' <= c <= 'F' then c as int - 'A' as int + 10
    else 16
  }

  /** The numeral of v in positional notation, most significant digit first, no leading zeros. */
  ghost function Digits(v: nat, base: nat, upper: bool): string
    requires 2 <= base <= 16
  {
    if v < base then [DigitChar(v, upper)]
    else Digits(v / base, base, upper) + [DigitChar(v % base, upper)]
  }

  /** The number a digit string denotes. */
  ghost function Value(s: string, base: nat): nat {
    if s == [] then 0 else Value(s[..|s| - 1], base) * base + DigitValue(s[|s| - 1])
  }

  ghost predicate AllDigits(s: string, base: nat) {
    forall i | 0 <= i < |s| :: DigitValue(s[i]) < base
  }

  lemma DigitBack(d: nat, upper: bool)
    requires d < 16
    ensures DigitValue(DigitChar(d, upper)) == d
    ensures '0' <= DigitChar(d, upper) <= '9' <==> d < 10
  {
  }

  /** Reading back a numeral gives the number. */
  lemma {:induction false} DigitsValue(v: nat, base: nat, upper: bool)
    requires 2 <= base <= 16
    ensures Digits(v, base, upper) != [] && AllDigits(Digits(v, base, upper), base)
    ensures Value(Digits(v, base, upper), base) == v
    decreases v
  {
    hide Value, DigitValue, DigitChar;
    if v < base {
      DigitBack(v, upper);
      ValueOne(DigitChar(v, upper), base);
    } else {
      DigitsValue(v / base, base, upper);
      DigitBack(v % base, upper);
      ValueAdd(Digits(v / base, base, upper), DigitChar(v % base, upper), base);
      Euclid(v, base);
    }
  }

  /** Positional notation: a digit more is the number so far times the base plus the digit. */
  lemma ValueMeans(s: string, c: char, base: nat)
    ensures Value("", base) == 0
    ensures '0' <= c <= '9' ==> Value(s + [c], base) == Value(s, base) * base + (c as int - 48)
    ensures 'a' <= c <= 'f' ==> Value(s + [c], base) == Value(s, base) * base + (c as int - 87)
    ensures 'A' <= c <= 'F' ==> Value(s + [c], base) == Value(s, base) * base + (c as int - 55)
  {
    ValueAdd(s, c, base);
  }

  /** A numeral has the characters of its base and no leading zero. */
  lemma {:induction false} DigitsLook(v: nat, base: nat, upper: bool)
    requires base == 10 || base == 16
    ensures var t := Digits(v, base, upper);
      && t != [] && (|t| > 1 ==> t[0] != '0') && (v > 0 ==> t[0] != '0')
      && (base == 10 ==> forall i | 0 <= i < |t| :: '0' <= t[i] <= '9')
      && (base == 16 && !upper ==> forall i | 0 <= i < |t| :: '0' <= t[i] <= '9' || 'a' <= t[i] <= 'f')
      && (base == 16 && upper ==> forall i | 0 <= i < |t| :: '0' <= t[i] <= '9' || 'A' <= t[i] <= 'F')
    decreases v
  {
    if v >= base {
      BigQuotient(v, base);
      DigitsLook(v / base, base, upper);
    }
  }

  /** A number has one decimal numeral without leading zeros. */
  lemma {:induction false} NumeralUnique(t: string)
    requires t != "" && (|t| > 1 ==> t[0] != '0') && forall i | 0 <= i < |t| :: '0' <= t[i] <= '9'
    ensures t == Digits(Value(t, 10), 10, false)
    ensures t[0] != '0' ==> Value(t, 10) > 0
    decreases |t|
  {
    hide Value, Digits, DigitChar;
    var r, c := t[..|t| - 1], t[|t| - 1];
    assert t == r + [c];
    ValueMeans(r, c, 10);
    var d := c as int - 48;
    if r == "" {
      DigitsNext(0, c);
    } else {
      NumeralUnique(r);
      DigitsNext(Value(r, 10), c);
    }
  }

  /** Ten times a number and a digit: the digit behind the number's numeral. */
  lemma DigitsNext(q: nat, c: char)
    requires '0' <= c <= '9'
    ensures var v := q * 10 + (c as int - 48);
      Digits(v, 10, false) == (if q == 0 then [] else Digits(q, 10, false)) + [c]
  {
    QuotientIs(q, c as int - 48);
  }

  lemma QuotientIs(q: nat, d: nat)
    requires d < 10
    ensures (q * 10 + d) / 10 == q && (q * 10 + d) % 10 == d
  {
  }

  lemma ValueOne(c: char, base: nat)
    ensures Value([c], base) == DigitValue(c)
  {
    assert [c][..0] == [];
    assert Value([], base) == 0;
  }

  lemma Euclid(v: nat, base: nat)
    requires base > 0
    ensures v / base * base + v % base == v
  {
  }

  lemma ValueAdd(s: string, c: char, base: nat)
    ensures Value(s + [c], base) == Value(s, base) * base + DigitValue(c)
    ensures AllDigits(s, base) && DigitValue(c) < base ==> AllDigits(s + [c], base)
  {
    assert (s + [c])[..|s|] == s;
  }

  ghost function Pow10(n: nat): nat {
    if n == 0 then 1 else 10 * Pow10(n - 1)
  }

  lemma {:induction false} FewDigits(v: nat, base: nat, upper: bool, n: nat)
    requires 10 <= base <= 16 && n > 0 && v < Pow10(n)
    ensures |Digits(v, base, upper)| <= n
    decreases n
  {
    assert Pow10(1) == 10 * Pow10(0);
    if v >= base {
      SmallerQuotient(v, base);
      FewDigits(v / base, base, upper, n - 1);
    }
  }

  lemma SmallerQuotient(v: nat, base: nat)
    requires base >= 10
    ensures v / base <= v / 10
  {
    var q := v / base;
    assert q * base <= v;
    assert q * 10 <= q * base;
  }

  /** Twenty digits are enough for every 64-bit number. */
  lemma TwentyDigits(v: Long, base: nat, upper: bool)
    requires 10 <= base <= 16
    ensures |Digits(v, base, upper)| <= 20
  {
    assert Pow10(5) == 10_0000;
    assert Pow10(10) == 100_0000_0000;
    assert Pow10(15) == 1000_0000_0000_0000;
    assert Pow10(20) == 1_0000_0000_0000_0000_0000;
    FewDigits(v, base, upper, 20);
  }

  // ----- printing -----

  ghost function Reversed(s: string): string {
    seq(|s|, i requires 0 <= i < |s| => s[|s| - 1 - i])
  }

  lemma DigitsStep(v: Long, base: nat, upper: bool, s: string, d: nat)
    requires 2 <= base <= 16 && v > 0 && d == v % base
    ensures Digits(v, base, upper) + Reversed(s)
         == (if v / base == 0 then [] else Digits(v / base, base, upper)) + Reversed(s + [DigitChar(d, upper)])
    ensures 0 <= v / base < v
  {
    assert Reversed(s + [DigitChar(d, upper)]) == [DigitChar(d, upper)] + Reversed(s);
    if v < base { SmallQuotient(v, base); } else { BigQuotient(v, base); }
  }

  /** While digits are left to print, fewer than twenty have been. */
  lemma DigitsTotal(val0: Long, val: Long, base: nat, upper: bool, s: string)
    requires 10 <= base <= 16 && Digits(val0, base, upper) == Digits(val, base, upper) + Reversed(s)
    ensures |s| < 20
  {
    TwentyDigits(val0, base, upper);
    DigitsValue(val, base, upper);
    assert |Reversed(s)| == |s|;
  }

  lemma RemainderSmall(v: nat, base: nat)
    requires base > 0
    ensures 0 <= v % base < base
  {
  }

  lemma ZeroDigits(base: nat, upper: bool)
    requires 2 <= base <= 16
    ensures Digits(0, base, upper) == ['0']
  {
  }

  lemma NoneReversed(s: string)
    requires s == []
    ensures Reversed(s) == []
  {
  }

  lemma ReversedAt(s: string)
    ensures |Reversed(s)| == |s| && forall i | 0 <= i < |s| :: Reversed(s)[i] == s[|s| - 1 - i]
  {
  }

  lemma SmallQuotient(v: nat, base: nat)
    requires v < base
    ensures v / base == 0 && v % base == v
  {
  }

  lemma BigQuotient(v: nat, base: nat)
    requires v >= base >= 2
    ensures 0 < v / base < v
  {
    Euclid(v, base);
    QuotientBounds(v / base, v % base, base);
  }

  lemma QuotientBounds(q: nat, r: nat, base: nat)
    requires r < base && q * base + r >= base >= 2
    ensures 0 < q < q * base + r
  {
    assert q * base == q * 2 + q * (base - 2);
  }

  /** Collect the digits of a positive number, least significant first; the buffer of 21 is large enough. */
  method DigitsBackwards(tmp: array<char>, val0: Long, base: nat, upper: bool) returns (len: nat)
    requires tmp.Length == TMP_SIZE && val0 > 0 && (base == 10 || base == 16)
    modifies tmp
    ensures len <= 20 && Reversed(tmp[..len]) == Digits(val0, base, upper)
  {
    hide Digits, Reversed, DigitChar;
    var val: Long := val0;
    len := 0;
    NoneReversed(tmp[..0]);
    while val != 0
      invariant len <= 20
      invariant Digits(val0, base, upper) == (if val == 0 then [] else Digits(val, base, upper)) + Reversed(tmp[..len])
      decreases val
    {
      var d := UMod(val, base);
      ghost var sofar := tmp[..len];
      DigitsStep(val, base, upper, sofar, d);
      DigitsTotal(val0, val, base, upper, sofar);
      RemainderSmall(val, base);
      tmp[len] := DigitChar(d, upper);
      len := len + 1;
      assert tmp[..len] == sofar + [DigitChar(d, upper)];
      val := UDiv(val, base);
    }
  }

  /** Print a number at place `at` of the buffer. */
  method FmtUnsigned(out: array<char>, at: nat, val: Long, base: nat, upper: bool) returns (len: nat)
    requires (base == 10 || base == 16) && at + 20 <= out.Length
    modifies out
    ensures len <= 20 && out[at..at + len] == Digits(val, base, upper)
    ensures forall k | 0 <= k < out.Length && !(at <= k < at + len) :: out[k] == old(out[k])
  {
    hide Digits, Reversed;
    if val == 0 {
      out[at] := '0';
      ZeroDigits(base, upper);
      assert out[at..at + 1] == Digits(0, base, upper);
      return 1;
    }
    var tmp := new char[TMP_SIZE];
    len := DigitsBackwards(tmp, val, base, upper);
    CopyReversed(out, at, tmp, len);
  }

  /** Copy the first characters of tmp in reverse order. */
  method CopyReversed(out: array<char>, at: nat, tmp: array<char>, len: nat)
    requires len <= tmp.Length && at + len <= out.Length && tmp != out
    modifies out
    ensures out[at..at + len] == Reversed(tmp[..len])
    ensures forall k | 0 <= k < out.Length && !(at <= k < at + len) :: out[k] == old(out[k])
  {
    hide Reversed;
    ghost var r := Reversed(tmp[..len]);
    ReversedAt(tmp[..len]);
    for i := 0 to len
      invariant out[at..at + i] == r[..i]
      invariant forall k | 0 <= k < out.Length && !(at <= k < at + i) :: out[k] == old(out[k])
    {
      out[at + i] := tmp[len - 1 - i];
    }
  }

  /** The decimal text of a signed number. */
  ghost function SignedText(v: int): string {
    if v < 0 then "-" + Digits(-v, 10, false) else Digits(v, 10, false)
  }

  /** A 64-bit number, signed or not, takes at most twenty characters. */
  lemma SignedLength(v: int)
    requires -0x8000_0000_0000_0000 <= v < 0x8000_0000_0000_0000
    ensures |SignedText(v)| <= 20
  {
    assert Pow10(5) == 10_0000;
    assert Pow10(10) == 100_0000_0000;
    assert Pow10(15) == 1000_0000_0000_0000;
    assert Pow10(19) == 1000_0000_0000_0000_0000;
    FewDigits(if v < 0 then -v else v, 10, false, 19);
  }

  method FmtSigned(out: array<char>, at: nat, val: int) returns (len: nat)
    requires -0x8000_0000_0000_0000 <= val < 0x8000_0000_0000_0000
    requires at + TMP_SIZE <= out.Length
    modifies out
    ensures len <= 20 && out[at..at + len] == SignedText(val)
    ensures forall k | 0 <= k < out.Length && !(at <= k < at + len) :: out[k] == old(out[k])
  {
    hide Digits;
    SignedLength(val);
    if val < 0 {
      out[at] := '-';
      var n := FmtUnsigned(out, at + 1, -(val + 1) + 1, 10, false);
      assert out[at..at + 1 + n] == [out[at]] + out[at + 1..at + 1 + n];
      return 1 + n;
    }
    len := FmtUnsigned(out, at, val, 10, false);
  }

  // ----- parsing -----

  /** How many digits a string starts with. */
  ghost function DigitRun(s: string, base: nat): (k: nat)
    ensures k <= |s| && AllDigits(s[..k], base) && (k < |s| ==> DigitValue(s[k]) >= base)
  {
    if s == [] || DigitValue(s[0]) >= base then 0
    else
      var k := DigitRun(s[1..], base);
      assert s[..k + 1] == [s[0]] + s[1..][..k];
      k + 1
  }

  /** The value of the digits a string starts with. */
  ghost function LeadingValue(s: string, base: nat): nat {
    Value(s[..DigitRun(s, base)], base)
  }

  lemma RunIs(s: string, base: nat, k: nat)
    requires k <= |s| && AllDigits(s[..k], base) && (k < |s| ==> DigitValue(s[k]) >= base)
    ensures DigitRun(s, base) == k
  {
    var r := DigitRun(s, base);
    assert forall j | 0 <= j < k :: s[..k][j] == s[j];
    assert forall j | 0 <= j < r :: s[..r][j] == s[j];
  }

  /** A prefix that is over a limit already stays over it. */
  lemma {:induction false} LeadingMore(s: string, base: nat, k: nat)
    requires base > 0 && k <= |s| && AllDigits(s[..k], base)
    ensures k <= DigitRun(s, base) && Value(s[..k], base) <= LeadingValue(s, base)
  {
    var r := DigitRun(s, base);
    assert forall j | 0 <= j < k :: s[..k][j] == s[j];
    ValueGrows(s[..r], base, k);
    assert s[..r][..k] == s[..k];
  }

  lemma {:induction false} ValueGrows(s: string, base: nat, k: nat)
    requires base > 0 && k <= |s|
    ensures Value(s[..k], base) <= Value(s, base)
    decreases |s|
  {
    if k == |s| {
      assert s[..k] == s;
    } else {
      ValueGrows(s[..|s| - 1], base, k);
      assert s[..|s| - 1][..k] == s[..k];
      ProductGrows(base, Value(s[..|s| - 1], base));
    }
  }

  function Clamp(v: int): int {
    if v > I32_MAX then I32_MAX else if v < I32_MIN then I32_MIN else v
  }

  /** What the text of a signed number stands for: its sign and leading digits, cut off at the 32-bit limits. */
  ghost function IntOf(s: string): int {
    if s != [] && s[0] == '-' then Clamp(0 - LeadingValue(s[1..], 10)) else Clamp(LeadingValue(s, 10))
  }

  /** Two's complement reading of the low 32 bits. */
  function Wrap32(v: int): int {
    var u := v % 0x1_0000_0000;
    if u > I32_MAX then u - 0x1_0000_0000 else u
  }

  /** The sign and the k digits that follow it. */
  lemma IntOfMeans(s: string, k: nat)
    requires var t := if s != "" && s[0] == '-' then s[1..] else s;
      k <= |t| && (forall i | 0 <= i < k :: '0' <= t[i] <= '9') && (k < |t| ==> !('0' <= t[k] <= '9'))
    ensures s != "" && s[0] == '-' ==>
      IntOf(s) == if Value(s[1..][..k], 10) > 0x8000_0000 then -0x8000_0000 else 0 - Value(s[1..][..k], 10)
    ensures s == "" || s[0] != '-' ==>
      IntOf(s) == if Value(s[..k], 10) > 0x7FFF_FFFF then 0x7FFF_FFFF else Value(s[..k], 10)
  {
    hide Value;
    var t := if s != "" && s[0] == '-' then s[1..] else s;
    assert AllDigits(t[..k], 10) by { assert forall i | 0 <= i < k :: t[..k][i] == t[i]; }
    RunIs(t, 10, k);
  }

  method StrToInt(s: string) returns (r: int)
    ensures r == IntOf(s)
  {
    hide Value, DigitRun, AllDigits, Wrap32;
    var n: int, sign: int := 0, 1;
    var t := s;
    if |t| > 0 && t[0] == '-' {
      sign := -1;
      t := t[1..];
    }
    var i := 0;
    ValueNone(t, 10);
    while i < |t| && '0' <= t[i] <= '9'
      invariant i <= |t| && AllDigits(t[..i], 10) && 0 <= n <= I32_MAX && n == Value(t[..i], 10)
    {
      var d := t[i] as int - '0' as int;
      ValueNext(t, i, 10);
      LeadingMore(t, 10, i + 1);
      i := i + 1;
      OverLimit(n, d);
      if n > (I32_MAX - d) / 10 {
        n := if sign == 1 then I32_MAX else I32_MIN;
        Wrapped(n, sign);
        return Wrap32(n * sign);
      }
      n := n * 10 + d;
    }
    RunIs(t, 10, i);
    Wrapped(n, sign);
    return Wrap32(n * sign);
  }

  lemma OverLimit(n: nat, d: nat)
    requires d < 10
    ensures n > (I32_MAX - d) / 10 <==> n * 10 + d > I32_MAX
  {
  }

  /** The negation of the least number is itself. */
  lemma Wrapped(n: int, sign: int)
    requires I32_MIN <= n <= I32_MAX && (sign == 1 || sign == -1)
    ensures Wrap32(n * sign) == if sign == -1 && n != I32_MIN then -n else n
  {
  }

  lemma ValueNone(s: string, base: nat)
    ensures Value(s[..0], base) == 0 && AllDigits(s[..0], base)
  {
  }

  lemma ValueNext(s: string, i: nat, base: nat)
    requires i < |s| && AllDigits(s[..i], base) && DigitValue(s[i]) < base
    ensures AllDigits(s[..i + 1], base) && Value(s[..i + 1], base) == Value(s[..i], base) * base + DigitValue(s[i])
  {
    assert s[..i + 1] == s[..i] + [s[i]];
    ValueAdd(s[..i], s[i], base);
  }

  /** What a hexadecimal text stands for: the leading digits after an optional 0x, cut off at 32 bits. */
  ghost function HexOf(s: string): nat {
    var v := LeadingValue(if |s| >= 2 && s[0] == '0' && s[1] in {'x', 'X'} then s[2..] else s, 16);
    if v > U32_MAX then U32_MAX else v
  }

  /** The k digits behind an optional 0x, in either case. */
  lemma HexOfMeans(s: string, k: nat)
    requires var t := if |s| >= 2 && s[0] == '0' && (s[1] == 'x' || s[1] == 'X') then s[2..] else s;
      && k <= |t|
      && (forall i | 0 <= i < k :: '0' <= t[i] <= '9' || 'a' <= t[i] <= 'f' || 'A' <= t[i] <= 'F')
      && (k < |t| ==> !('0' <= t[k] <= '9' || 'a' <= t[k] <= 'f' || 'A' <= t[k] <= 'F'))
    ensures var t := if |s| >= 2 && s[0] == '0' && (s[1] == 'x' || s[1] == 'X') then s[2..] else s;
      HexOf(s) == if Value(t[..k], 16) > 0xFFFF_FFFF then 0xFFFF_FFFF else Value(t[..k], 16)
  {
    hide Value;
    var t := if |s| >= 2 && s[0] == '0' && (s[1] == 'x' || s[1] == 'X') then s[2..] else s;
    assert AllDigits(t[..k], 16) by { assert forall i | 0 <= i < k :: t[..k][i] == t[i]; }
    RunIs(t, 16, k);
  }

  method StrToHex(s: string) returns (n: nat)
    ensures n == HexOf(s)
  {
    hide Value, DigitRun;
    var t := s;
    if |t| >= 2 && t[0] == '0' && (t[1] == 'x' || t[1] == 'X') { t := t[2..]; }
    n := 0;
    var i := 0;
    ValueNone(t, 16);
    while i < |t|
      invariant i <= |t| && AllDigits(t[..i], 16) && 0 <= n <= U32_MAX && n == Value(t[..i], 16)
    {
      var c := t[i];
      var d: nat;
      if '0' <= c <= '9' { d := c as int - '0' as int; }
      else if 'a' <= c <= 'f' { d := c as int - 'a' as int + 10; }
      else if 'A' <= c <= 'F' { d := c as int - 'A' as int + 10; }
      else { break; }
      ValueNext(t, i, 16);
      LeadingMore(t, 16, i + 1);
      if n > (U32_MAX - d) / 16 { return U32_MAX; }
      n := n * 16 + d;
      i := i + 1;
    }
    RunIs(t, 16, i);
  }

  // ----- round trips -----

  lemma AllOfIt(s: string, base: nat)
    requires AllDigits(s, base)
    ensures LeadingValue(s, base) == Value(s, base)
  {
    assert s[..|s|] == s;
    RunIs(s, base, |s|);
  }

  /** Printing a 32-bit integer and reading it back gives it back. */
  lemma IntRoundTrip(v: int)
    requires I32_MIN <= v <= I32_MAX
    ensures IntOf(SignedText(v)) == v
  {
    var m := if v < 0 then -v else v;
    DigitsValue(m, 10, false);
    AllOfIt(Digits(m, 10, false), 10);
    var s := SignedText(v);
    if v < 0 {
      assert s[1..] == Digits(m, 10, false);
    } else {
      assert DigitValue(s[0]) < 10;
    }
  }

  /** So does printing a 32-bit word in hexadecimal, in either case. */
  lemma HexRoundTrip(v: nat, upper: bool)
    requires v <= U32_MAX
    ensures HexOf(Digits(v, 16, upper)) == v
  {
    DigitsValue(v, 16, upper);
    AllOfIt(Digits(v, 16, upper), 16);
    var s := Digits(v, 16, upper);
    if |s| >= 2 { assert DigitValue(s[1]) < 16; }
  }
}
