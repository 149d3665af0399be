/**
 * Positional numerals in radix 2, 10 and 16: the value of a digit string, the digit string of a
 * number (Number.prototype.toString(radix), upper-cased), and parseInt(text, radix).
 */
module Numerals {
  import opened Wrappers
  import opened TextUtil

  /** b raised to the power e. */
  function Pow(b: nat, e: nat): (r: nat)
    ensures b > 0 ==> r > 0
  {
    if e == 0 then 1 else b * Pow(b, e - 1)
  }

  /** Value of a hexadecimal digit in either case; 16 for any other character. */
  function DigitValue(c: char): nat
  {
    if '0' <= c <= '9' then c as int - '0' as int
    else if 'A' <= c <= 'F' then c as int - 'A' as int + 10
    else if 'a' <= c <= 'f' then c as int - 'a' as int + 10
    else 16
  }

  /** c is a digit of radix base (case-insensitive, as parseInt and the page's character classes are). */
  predicate IsDigit(c: char, base: nat)
  {
    DigitValue(c) < base
  }

  predicate AllDigits(s: string, base: nat)
  {
    forall i :: 0 <= i < |s| ==> IsDigit(s[i], base)
  }

  /** The upper-case digit character for k < 16. */
  function DigitChar(k: nat): (c: char)
    requires k < 16
    ensures DigitValue(c) == k && !('a' <= c <= 'z')
  {
    if k < 10 then ('0' as int + k) as char else ('A' as int + k - 10) as char
  }

  /** The number a digit string denotes, most significant digit first. */
  function ValueOf(s: string, base: nat): nat
    requires AllDigits(s, base)
  {
    if s == [] then 0 else ValueOf(s[..|s| - 1], base) * base + DigitValue(s[|s| - 1])
  }

  /**
   * n.toString(base).toUpperCase(): the shortest digit string of n, "0" for zero, whose value is n.
   */
  function ToDigits(n: nat, base: nat): (r: string)
    requires 2 <= base <= 16
    ensures |r| >= 1 && AllDigits(r, base) && NoLowerCase(r)
    ensures ValueOf(r, base) == n
    ensures |r| > 1 ==> r[0] != '0'
    decreases n
  {
    if n < base then [DigitChar(n)]
    else
      var q := n / base;
      DivDecreases(n, base);
      var high := ToDigits(q, base);
      var low := DigitChar(n % base);
      ValueOfSnoc(high, low, base);
      DigitStep(q, n, base);
      high + [low]
  }

  lemma DigitStep(v: nat, n: nat, base: nat)
    requires 2 <= base && v == n / base
    ensures v * base + n % base == n
  {
  }

  lemma DivDecreases(n: nat, base: nat)
    requires 2 <= base && 1 <= n
    ensures n / base < n
  {
  }

  /** Appending one digit multiplies the value so far by the radix and adds the digit. */
  lemma ValueOfSnoc(s: string, c: char, base: nat)
    requires AllDigits(s, base) && IsDigit(c, base)
    ensures AllDigits(s + [c], base)
    ensures ValueOf(s + [c], base) == ValueOf(s, base) * base + DigitValue(c)
  {
    assert (s + [c])[..|s|] == s;
  }

  /** Two digit strings whose digits have the same values denote the same number. */
  lemma {:induction false} ValueOfSameDigits(s: string, t: string, base: nat)
    requires AllDigits(t, base) && |s| == |t|
    requires forall i :: 0 <= i < |s| ==> DigitValue(s[i]) == DigitValue(t[i])
    ensures AllDigits(s, base) && ValueOf(s, base) == ValueOf(t, base)
    decreases |s|
  {
    if s != [] {
      ValueOfSameDigits(s[..|s| - 1], t[..|t| - 1], base);
    }
  }

  /** A digit string of length w denotes less than base^w. */
  lemma {:induction false} ValueOfBound(s: string, base: nat)
    requires AllDigits(s, base)
    ensures ValueOf(s, base) < Pow(base, |s|)
    decreases |s|
  {
    if s != [] {
      var init := s[..|s| - 1];
      ValueOfBound(init, base);
      BoundStep(ValueOf(init, base), DigitValue(s[|s| - 1]), base, Pow(base, |s| - 1));
    }
  }

  lemma BoundStep(v: nat, d: nat, base: nat, p: nat)
    requires v < p && d < base
    ensures v * base + d < base * p
  {
    assert (v + 1) * base <= p * base by {
      MulMonotone(v + 1, p, base);
    }
  }

  lemma MulMonotone(a: nat, b: nat, c: nat)
    requires a <= b
    ensures a * c <= b * c
  {
  }

  /** Appending digits shifts the value of the prefix by base^|b|. */
  lemma {:induction false} ValueOfAppend(a: string, b: string, base: nat)
    requires AllDigits(a, base) && AllDigits(b, base)
    ensures AllDigits(a + b, base)
    ensures ValueOf(a + b, base) == ValueOf(a, base) * Pow(base, |b|) + ValueOf(b, base)
    decreases |b|
  {
    assert AllDigits(a + b, base) by {
      forall i | 0 <= i < |a + b| ensures IsDigit((a + b)[i], base) {
        if i < |a| { assert (a + b)[i] == a[i]; } else { assert (a + b)[i] == b[i - |a|]; }
      }
    }
    if b != [] {
      var b', c := b[..|b| - 1], b[|b| - 1];
      assert b == b' + [c];
      assert a + b == (a + b') + [c];
      ValueOfAppend(a, b', base);
      ValueOfSnoc(a + b', c, base);
      ValueOfSnoc(b', c, base);
      var pa, p, pb, d := ValueOf(a, base), Pow(base, |b'|), ValueOf(b', base), DigitValue(c);
      assert Pow(base, |b|) == base * p;
      calc {
        ValueOf(a + b, base);
      == ValueOf((a + b') + [c], base);
      == ValueOf(a + b', base) * base + d;
      == (pa * p + pb) * base + d;
      == { AppendStep(pa, p, pb, base, d); }
        pa * (base * p) + (pb * base + d);
      == pa * Pow(base, |b|) + ValueOf(b' + [c], base);
      }
    } else {
      assert a + b == a;
    }
  }

  lemma AppendStep(pa: nat, p: nat, pb: nat, base: nat, d: nat)
    ensures (pa * p + pb) * base + d == pa * (base * p) + (pb * base + d)
  {
    calc {
      (pa * p + pb) * base + d;
    == pa * p * base + pb * base + d;
    == pa * (base * p) + (pb * base + d);
    }
  }

  /** Leading zeros do not change the value of a digit string. */
  lemma {:induction false} LeadingZeros(k: nat, s: string, base: nat)
    requires 2 <= base && AllDigits(s, base)
    ensures AllDigits(Repeat('0', k) + s, base)
    ensures ValueOf(Repeat('0', k) + s, base) == ValueOf(s, base)
  {
    ZerosValue(k, base);
    ValueOfAppend(Repeat('0', k), s, base);
  }

  lemma {:induction false} ZerosValue(k: nat, base: nat)
    requires 2 <= base
    ensures AllDigits(Repeat('0', k), base) && ValueOf(Repeat('0', k), base) == 0
  {
    if k > 0 {
      var z := Repeat('0', k);
      assert z[..k - 1] == Repeat('0', k - 1);
      ZerosValue(k - 1, base);
    }
  }

  /** The digit string of n fits in w digits when n < base^w. */
  lemma {:induction false} ToDigitsLength(n: nat, base: nat, w: nat)
    requires 2 <= base <= 16 && 1 <= w && n < Pow(base, w)
    ensures |ToDigits(n, base)| <= w
    decreases w
  {
    if n >= base {
      assert Pow(base, w) == base * Pow(base, w - 1);
      DivBelow(n, base, Pow(base, w - 1));
      ToDigitsLength(n / base, base, w - 1);
    }
  }

  lemma DivBelow(n: nat, base: nat, p: nat)
    requires 2 <= base && n < base * p
    ensures n / base < p
  {
  }

  /** 16^k == 2^(4k): k hexadecimal digits hold exactly 4k bits. */
  lemma {:induction false} PowSixteen(k: nat)
    ensures Pow(16, k) == Pow(2, 4 * k)
  {
    if k > 0 {
      PowSixteen(k - 1);
      var m := 4 * (k - 1);
      assert Pow(2, m + 4) == 2 * Pow(2, m + 3) == 4 * Pow(2, m + 2) == 8 * Pow(2, m + 1) == 16 * Pow(2, m);
    }
  }

  /** base^e grows with e. */
  lemma {:induction false} PowMonotone(base: nat, e: nat, f: nat)
    requires 1 <= base && e <= f
    ensures Pow(base, e) <= Pow(base, f)
    decreases f
  {
    if e < f {
      PowMonotone(base, e, f - 1);
    }
  }

  /** The longest leading run of digits of s. */
  function DigitPrefix(s: string, base: nat): (p: string)
    ensures p <= s && AllDigits(p, base)
    ensures |p| < |s| ==> !IsDigit(s[|p|], base)
  {
    if s == [] || !IsDigit(s[0], base) then [] else [s[0]] + DigitPrefix(s[1..], base)
  }

  /**
   * parseInt(s, base): the value of the leading digits of s; None stands for NaN, which is what
   * JavaScript gives when s does not start with a digit.
   */
  function ParseInt(s: string, base: nat): (r: Option<nat>)
    ensures r.None? <==> (s == [] || !IsDigit(s[0], base))
  {
    var p := DigitPrefix(s, base);
    if p == [] then None else Some(ValueOf(p, base))
  }

  lemma {:induction false} DigitPrefixWhole(s: string, base: nat)
    requires AllDigits(s, base)
    ensures DigitPrefix(s, base) == s
  {
    if s != [] {
      DigitPrefixWhole(s[1..], base);
      assert s == [s[0]] + s[1..];
    }
  }

  /** On a non-empty digit string parseInt reads every digit. */
  lemma ParseIntDigits(s: string, base: nat)
    requires s != [] && AllDigits(s, base)
    ensures ParseInt(s, base) == Some(ValueOf(s, base))
  {
    DigitPrefixWhole(s, base);
  }

  /** parseInt reads back what toString wrote, after any number of leading zeros. */
  lemma ParseIntPadded(n: nat, base: nat, width: nat)
    requires 2 <= base <= 16
    ensures ParseInt(PadStart(ToDigits(n, base), width, '0'), base) == Some(n)
  {
    var d := ToDigits(n, base);
    var p := PadStart(d, width, '0');
    LeadingZeros(|p| - |d|, d, base);
    if |d| >= width {
      assert p == d == Repeat('0', 0) + d;
    } else {
      assert p == Repeat('0', |p| - |d|) + d;
    }
    ParseIntDigits(p, base);
  }

  /** The digits that remain when every non-hexadecimal character is removed (replace(/[^0-9A-Fa-f]/g, '')). */
  function CleanHex(s: string): (r: string)
    ensures AllDigits(r, 16) && |r| <= |s|
    ensures AllDigits(s, 16) ==> r == s
  {
    if s == [] then []
    else if IsDigit(s[0], 16) then [s[0]] + CleanHex(s[1..])
    else CleanHex(s[1..])
  }

  /** Stripping works character by character: the kept digits of a + b are those of a, then those of b. */
  lemma {:induction false} CleanHexAppend(a: string, b: string)
    ensures CleanHex(a + b) == CleanHex(a) + CleanHex(b)
    decreases |a|
  {
    if a == [] {
      assert a + b == b;
    } else {
      assert (a + b)[0] == a[0] && (a + b)[1..] == a[1..] + b;
      CleanHexAppend(a[1..], b);
      if IsDigit(a[0], 16) {
        assert CleanHex(a + b) == [a[0]] + (CleanHex(a[1..]) + CleanHex(b));
      }
    }
  }

  /** One character is kept exactly when it is a hexadecimal digit. */
  lemma CleanHexChar(c: char)
    ensures CleanHex([c]) == if IsDigit(c, 16) then [c] else []
  {
  }

  /** "1G2" is stripped to "12": the digits are kept in order around the removed character. */
  lemma CleanHexKeepsOrder()
    ensures CleanHex("1G2") == "12"
  {
    assert "1G2" == "1" + "G" + "2";
    CleanHexAppend("1" + "G", "2");
    CleanHexAppend("1", "G");
    CleanHexChar('1');
    CleanHexChar('G');
    CleanHexChar('2');
  }
}
