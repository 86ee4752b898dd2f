/** Go's decimal integers: `strconv.Atoi`, the `%d` verb of `fmt`, and the
    integer quotient operator, on a 64-bit platform. */
module Decimal {

  const MaxInt64: int := 0x7fff_ffff_ffff_ffff
  const MinInt64: int := -0x8000_0000_0000_0000
  const MaxUint64: int := 0xffff_ffff_ffff_ffff

  /** The accumulator value from which one more digit overflows (`maxUint64 / 10 + 1`). */
  const Cutoff: int := MaxUint64 / 10 + 1

  /** Go's `a / b` on integers: the quotient truncated toward zero. */
  function Quo(a: int, b: int): (q: int)
    requires b > 0
    ensures a >= 0 ==> 0 <= a - q * b < b
    ensures a < 0 ==> -b < a - q * b <= 0
  {
    if a >= 0 then a / b else -((-a) / b)
  }

  /** How `strconv.ParseUint` ends. */
  datatype Scan = Value(n: nat) | SyntaxError | RangeError

  predicate IsDigit(c: char) { '0' <= c <= '9' }

  /** The digit loop of `strconv.ParseUint(s, 10, 64)`, from accumulator `acc`:
      a non-digit is a syntax error; the first digit that would take the value
      past 2^64-1 is a range error. */
  function ScanDigits(s: string, acc: nat): (r: Scan)
    requires acc <= MaxUint64
    ensures r.Value? ==> acc <= r.n <= MaxUint64
  {
    if s == [] then Value(acc)
    else if !IsDigit(s[0]) then SyntaxError
    else if acc >= Cutoff then RangeError
    else
      var n1 := acc * 10 + (s[0] as int - '0' as int);
      if n1 > MaxUint64 then RangeError else ScanDigits(s[1..], n1)
  }

  /** The integer that `strconv.Atoi(s)` returns, its error being ignored: an
      optional sign, then decimal digits; 0 on a syntax error, the nearest
      64-bit bound when the value does not fit. */
  function Atoi(s: string): (n: int)
    ensures MinInt64 <= n <= MaxInt64
  {
    if s == [] then 0
    else
      var neg := s[0] == '-';
      var body := if s[0] == '+' || s[0] == '-' then s[1..] else s;
      if body == [] then 0
      else
        match ScanDigits(body, 0)
        case SyntaxError => 0
        case RangeError => if neg then MinInt64 else MaxInt64
        case Value(u) =>
          var v: int := u;
          if !neg && u > MaxInt64 then MaxInt64
          else if neg && u > -MinInt64 then MinInt64
          else if neg then -v else v
  }

  function DigitChar(d: int): char
    requires 0 <= d < 10
  {
    ('0' as int + d) as char
  }

  /** The decimal digits of `n`, most significant first, with no leading zero. */
  function NatToDecimal(n: nat): (s: string)
    ensures |s| >= 1
    ensures forall i :: 0 <= i < |s| ==> IsDigit(s[i])
  {
    if n < 10 then [DigitChar(n)] else NatToDecimal(n / 10) + [DigitChar(n % 10)]
  }

  /** `fmt.Sprintf("%d", n)`. */
  function FormatInt(n: int): string {
    if n < 0 then "-" + NatToDecimal(-n) else NatToDecimal(n)
  }

  /** Text written by `%d` holds only a sign and digits: no space, no `/`. */
  lemma FormatIntRunes(n: int)
    ensures ' ' !in FormatInt(n) && '/' !in FormatInt(n)
  {
    var d := NatToDecimal(if n < 0 then -n else n);
    assert forall i :: 0 <= i < |d| ==> IsDigit(d[i]);
  }

  lemma {:induction false} ScanDecimal(n: nat)
    requires n <= MaxUint64
    ensures ScanDigits(NatToDecimal(n), 0) == Value(n)
  {
    if n >= 10 {
      ScanDecimal(n / 10);
      ScanAppend(NatToDecimal(n / 10), [DigitChar(n % 10)], 0);
    }
  }

  /** Scanning `a + b` is scanning `a`, then going on with `b` from there. */
  lemma {:induction false} ScanAppend(a: string, b: string, acc: nat)
    requires acc <= MaxUint64
    ensures ScanDigits(a + b, acc) ==
      match ScanDigits(a, acc)
      case Value(m) => ScanDigits(b, m)
      case e => e
  {
    if a == [] {
      assert a + b == b;
    } else {
      assert (a + b)[0] == a[0] && (a + b)[1..] == a[1..] + b;
      if IsDigit(a[0]) && acc < Cutoff {
        var n1 := acc * 10 + (a[0] as int - '0' as int);
        if n1 <= MaxUint64 {
          ScanAppend(a[1..], b, n1);
        }
      }
    }
  }

  function Pow10(n: nat): (p: nat)
    ensures p >= 1
  {
    if n == 0 then 1 else 10 * Pow10(n - 1)
  }

  /** A digit run too short to overflow ends in a syntax error at its first
      non-digit. */
  lemma {:induction false} ScanNonDigit(s: string, acc: nat)
    requires |s| <= 19 && acc < Pow10(19 - |s|)
    requires exists i :: 0 <= i < |s| && !IsDigit(s[i])
    ensures acc <= MaxUint64 && ScanDigits(s, acc) == SyntaxError
  {
    var p := Pow10(19 - |s|);
    assert p <= 1_000_000_000_000_000_000 by {
      PowMonotone(19 - |s|, 18);
      Pow18();
    }
    if IsDigit(s[0]) {
      var d := s[0] as int - '0' as int;
      var n1 := acc * 10 + d;
      assert 0 <= d <= 9 && n1 < 10 * p;
      ScanStep(s, acc);
      NonDigitInTail(s);
      assert Pow10(19 - |s[1..]|) == 10 * p;
      ScanNonDigit(s[1..], n1);
    }
  }

  /** One turn of the digit loop that neither fails nor overflows. */
  lemma ScanStep(s: string, acc: nat)
    requires s != [] && IsDigit(s[0]) && acc < Cutoff
    requires acc * 10 + (s[0] as int - '0' as int) <= MaxUint64
    ensures ScanDigits(s, acc) == ScanDigits(s[1..], acc * 10 + (s[0] as int - '0' as int))
  {
  }

  lemma NonDigitInTail(s: string)
    requires s != [] && IsDigit(s[0])
    requires exists i :: 0 <= i < |s| && !IsDigit(s[i])
    ensures exists i :: 0 <= i < |s[1..]| && !IsDigit(s[1..][i])
  {
    var i :| 0 <= i < |s| && !IsDigit(s[i]);
    assert i > 0 && s[1..][i - 1] == s[i];
  }

  lemma Pow18()
    ensures Pow10(18) == 1_000_000_000_000_000_000
  {
    assert Pow10(4) == 10_000;
    assert Pow10(8) == 100_000_000;
    assert Pow10(12) == 1_000_000_000_000;
    assert Pow10(16) == 10_000_000_000_000_000;
  }

  /** A mask text of at most 19 runes that holds anything but digits after
      an optional sign reads as 0. */
  lemma AtoiNonNumeric(s: string)
    requires |s| <= 19
    requires exists i :: 0 <= i < |s| && !IsDigit(s[i]) && !(i == 0 && (s[0] == '+' || s[0] == '-'))
    ensures Atoi(s) == 0
  {
    var body := if s[0] == '+' || s[0] == '-' then s[1..] else s;
    if body != [] {
      assert exists i :: 0 <= i < |body| && !IsDigit(body[i]) by {
        var i :| 0 <= i < |s| && !IsDigit(s[i]) && !(i == 0 && (s[0] == '+' || s[0] == '-'));
        if s[0] == '+' || s[0] == '-' {
          assert body[i - 1] == s[i];
        } else {
          assert body[i] == s[i];
        }
      }
      PowMonotone(0, 19 - |body|);
      ScanNonDigit(body, 0);
    }
  }

  lemma {:induction false} PowMonotone(m: nat, n: nat)
    requires m <= n
    ensures Pow10(m) <= Pow10(n)
  {
    if m < n {
      PowMonotone(m, n - 1);
    }
  }

  /** The value of a run of decimal digits, most significant first. */
  function DigitsValue(d: string): nat
    requires forall i :: 0 <= i < |d| ==> IsDigit(d[i])
  {
    if d == [] then 0
    else
      assert IsDigit(d[|d| - 1]);
      10 * DigitsValue(d[..|d| - 1]) + (d[|d| - 1] as int - '0' as int)
  }

  /** The digit loop reads a run of digits as its value, or reports a range
      error once the value passes 2^64-1. */
  lemma {:induction false} ScanValue(d: string)
    requires forall i :: 0 <= i < |d| ==> IsDigit(d[i])
    ensures ScanDigits(d, 0) == if DigitsValue(d) <= MaxUint64 then Value(DigitsValue(d)) else RangeError
  {
    if d != [] {
      var init, c := d[..|d| - 1], d[|d| - 1];
      assert d == init + [c];
      ScanValue(init);
      ScanAppend(init, [c], 0);
      assert [c][1..] == [];
    }
  }

  /** `strconv.Atoi` of an optional sign and a run of digits, leading zeros
      allowed: the signed value of the digits, clamped to the 64-bit range. */
  lemma AtoiDigits(sign: string, d: string)
    requires sign == "" || sign == "+" || sign == "-"
    requires d != [] && forall i :: 0 <= i < |d| ==> IsDigit(d[i])
    ensures Atoi(sign + d) ==
      if sign == "-" then (if DigitsValue(d) > -MinInt64 then MinInt64 else -(DigitsValue(d) as int))
      else (if DigitsValue(d) > MaxInt64 then MaxInt64 else DigitsValue(d))
  {
    var s := sign + d;
    ScanValue(d);
    if sign == "" {
      assert s == d;
    } else {
      assert s[0] == sign[0] && s[1..] == d;
    }
  }

  /** A mask with a plus sign or with leading zeros reads as its value. */
  lemma AtoiSignAndZeros()
    ensures Atoi("+64") == 64 && Atoi("064") == 64 && Atoi("-8") == -8
  {
    AtoiDigits("+", "64");
    AtoiDigits("", "064");
    AtoiDigits("-", "8");
  }

  /** `strconv.Atoi` reads back every 64-bit integer that `%d` writes. */
  lemma AtoiFormatInt(n: int)
    requires MinInt64 <= n <= MaxInt64
    ensures Atoi(FormatInt(n)) == n
  {
    var m := if n < 0 then -n else n;
    ScanDecimal(m);
    var s := FormatInt(n);
    if n < 0 {
      assert s[0] == '-' && s[1..] == NatToDecimal(m);
    } else {
      assert IsDigit(s[0]);
    }
  }
}
