/**
  `Number.prototype.toString(base)` for non-negative integers, `String(n)` for integers,
  `padStart`, and the digit-string readers that invert them.
 */
module Numerals {

  /** The digit for `d`: '0'..'9', then 'a'..'f'. */
  function DigitChar(d: nat): char
    requires d < 16
  {
    if d < 10 then ('0' as int + d) as char else ('a' as int + d - 10) as char
  }

  /** Value of a lower-case hexadecimal digit, or -1 for any other character. */
  function DigitValue(c: char): int
  {
    if '0' <= c <= '9' then c as int - '0' as int
    else if 'a' <= c <= 'f' then c as int - 'a' as int + 10
    else -1
  }

  lemma DigitRoundTrip(d: nat)
    requires d < 16
    ensures DigitValue(DigitChar(d)) == d
  {
  }

  /** True when every character of `s` is a digit of the given base. */
  predicate AllDigits(s: string, base: nat)
  {
    forall i :: 0 <= i < |s| ==> 0 <= DigitValue(s[i]) < base
  }

  /** `n.toString(base)`: no leading zeros, "0" for zero. */
  function ToBase(n: nat, base: nat): (r: string)
    requires 2 <= base <= 16
    ensures |r| >= 1 && AllDigits(r, base)
    ensures |r| > 1 ==> r[0] != '0'
    decreases n
  {
    if n < base then
      DigitRoundTrip(n);
      [DigitChar(n)]
    else
      DivMod(n, base);
      var m := n % base;
      DigitRoundTrip(m);
      ToBase(n / base, base) + [DigitChar(m)]
  }

  /** The number a digit string denotes (digits of the base only). */
  function FromBase(s: string, base: nat): int
    requires 2 <= base <= 16
  {
    if |s| == 0 then 0
    else FromBase(s[..|s| - 1], base) * base + DigitValue(s[|s| - 1])
  }

  /** Reading back what `ToBase` wrote gives the number. */
  lemma {:induction false} FromToBase(n: nat, base: nat)
    requires 2 <= base <= 16
    ensures FromBase(ToBase(n, base), base) == n
    decreases n
  {
    if n >= base {
      var q, m := n / base, n % base;
      DivMod(n, base);
      var s := ToBase(q, base);
      var t := s + [DigitChar(m)];
      assert ToBase(n, base) == t;
      FromToBase(q, base);
      assert t[..|t| - 1] == s;
      DigitRoundTrip(m);
      assert FromBase(t, base) == q * base + m;
    } else {
      DigitRoundTrip(n);
      assert [DigitChar(n)][..0] == [];
    }
  }

  lemma DivMod(n: nat, b: nat)
    requires b >= 2
    ensures n == (n / b) * b + n % b && 0 <= n % b < b
    ensures n >= b ==> 1 <= n / b < n
  {
  }

  /** `String(n)` for a non-negative integer. */
  function Decimal(n: nat): string
  {
    ToBase(n, 10)
  }

  /** `String(i)` for an integer. */
  function IntToString(i: int): (r: string)
    ensures |r| >= 1
  {
    if i < 0 then "-" + Decimal(-i) else Decimal(i)
  }

  /** Different numbers print differently. */
  lemma DecimalInjective(m: nat, n: nat)
    requires Decimal(m) == Decimal(n)
    ensures m == n
  {
    FromToBase(m, 10);
    FromToBase(n, 10);
  }

  function Pow(b: nat, k: nat): nat
  {
    if k == 0 then 1 else b * Pow(b, k - 1)
  }

  /** A number below `base^k` needs at most `k` digits. */
  lemma {:induction false} ToBaseLength(n: nat, base: nat, k: nat)
    requires 2 <= base <= 16 && k >= 1 && n < Pow(base, k)
    ensures |ToBase(n, base)| <= k
    decreases n
  {
    if n >= base {
      assert k >= 2;
      var p := Pow(base, k - 1);
      var q := n / base;
      DivMod(n, base);
      assert Pow(base, k) == base * p;
      DivBelow(n, base, p);
      ToBaseLength(q, base, k - 1);
    }
  }

  lemma DivBelow(n: nat, b: nat, p: nat)
    requires b >= 2 && n < b * p
    ensures n / b < p
  {
    DivMod(n, b);
    if n / b >= p {
      MulMono(b, p, n / b);
      assert false;
    }
  }

  lemma MulMono(b: nat, x: nat, y: nat)
    requires x <= y
    ensures b * x <= b * y
  {
  }

  function Repeat(c: char, n: nat): (r: string)
    ensures |r| == n && forall i :: 0 <= i < n ==> r[i] == c
  {
    if n == 0 then "" else Repeat(c, n - 1) + [c]
  }

  /** `s.padStart(len, c)`. */
  function PadStart(s: string, len: nat, c: char): (r: string)
    ensures |s| >= len ==> r == s
    ensures |s| < len ==> |r| == len && r == Repeat(c, len - |s|) + s
  {
    if |s| >= len then s else Repeat(c, len - |s|) + s
  }

  /** Leading zeros do not change the value of a digit string. */
  lemma {:induction false} FromBaseLeadingZeros(z: nat, s: string, base: nat)
    requires 2 <= base <= 16
    ensures FromBase(Repeat('0', z) + s, base) == FromBase(s, base)
    decreases |s|, z
  {
    if |s| == 0 {
      assert Repeat('0', z) + s == Repeat('0', z);
      if z > 0 {
        assert Repeat('0', z)[..z - 1] == Repeat('0', z - 1);
        FromBaseLeadingZeros(z - 1, [], base);
        assert Repeat('0', z - 1) + [] == Repeat('0', z - 1);
      }
    } else {
      var t := Repeat('0', z) + s;
      assert t[..|t| - 1] == Repeat('0', z) + s[..|s| - 1];
      FromBaseLeadingZeros(z, s[..|s| - 1], base);
    }
  }
}
