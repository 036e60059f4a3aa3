/**
 * The decimal parse behind `Integer.valueOf(String)` and the `Integer(String)`
 * constructor: `Integer.parseInt(s, 10)` of the Java SE API. Text is an optional
 * '+' or '-' followed by one or more decimal digits, and the value must fit the
 * 32-bit range. Only ASCII digits are modelled (Java also accepts other Unicode
 * decimal digits).
 */
module JavaInt {
  import opened Wrappers

  const MinValue: int := -0x8000_0000
  const MaxValue: int := 0x7fff_ffff

  predicate InRange(n: int) {
    MinValue <= n <= MaxValue
  }

  predicate IsDigit(c: char) {
    '0' <= c <= '9'
  }

  predicate IsSign(c: char) {
    c == '-' || c == '+'
  }

  predicate AllDigits(s: string) {
    forall i :: 0 <= i < |s| ==> IsDigit(s[i])
  }

  function DigitValue(c: char): (d: nat)
    requires IsDigit(c)
    ensures d < 10
  {
    (c - '0') as nat
  }

  function DigitChar(d: nat): (c: char)
    requires d < 10
    ensures IsDigit(c) && DigitValue(c) == d
  {
    ('0' as int + d) as char
  }

  /** The value of a string of decimal digits, most significant digit first. */
  function DigitsValue(ds: string): (v: nat)
    requires AllDigits(ds)
  {
    if |ds| == 0 then 0 else DigitsValue(ds[..|ds| - 1]) * 10 + DigitValue(ds[|ds| - 1])
  }

  /** `Integer.parseInt(s)`: `None` where Java throws `NumberFormatException`. */
  function ParseInt(s: string): (r: Option<int>)
    ensures r.Some? ==> InRange(r.value)
  {
    if |s| == 0 then None
    else
      var start := if IsSign(s[0]) then 1 else 0;
      var ds := s[start..];
      if |ds| == 0 || !AllDigits(ds) then None
      else
        var n: int := if s[0] == '-' then -(DigitsValue(ds) as int) else DigitsValue(ds);
        if InRange(n) then Some(n) else None
  }

  /** The canonical decimal digits of a natural number, without leading zeros. */
  function NatDigits(m: nat): (ds: string)
    ensures |ds| >= 1 && AllDigits(ds)
    ensures |ds| > 1 ==> ds[0] != '0'
  {
    if m < 10 then [DigitChar(m)] else NatDigits(m / 10) + [DigitChar(m % 10)]
  }

  /** `Integer.toString(n)`: a '-' for negative numbers, then the digits of the magnitude. */
  function ToDecimal(n: int): (s: string) {
    if n < 0 then "-" + NatDigits(-n) else NatDigits(n)
  }

  function Zeros(k: nat): (z: string)
    ensures |z| == k && AllDigits(z)
  {
    if k == 0 then "" else Zeros(k - 1) + "0"
  }

  /** The value that `p + ds` denotes when `p` is a sign prefix and `ds` a digit string. */
  function Signed(p: string, ds: string): (n: int)
    requires AllDigits(ds)
  {
    if p == "-" then -(DigitsValue(ds) as int) else DigitsValue(ds)
  }

  predicate SignPrefix(p: string) {
    p == "" || p == "+" || p == "-"
  }

  // ---------------------------------------------------------------------------
  // What ParseInt accepts. Together the four lemmas below cover every string:
  // it is accepted exactly when it is an optional sign, one or more digits,
  // and the denoted value is in range.

  /** An optional sign, one or more digits, in range: accepted with that value. */
  lemma ParseIntAccepts(p: string, ds: string)
    requires SignPrefix(p) && |ds| >= 1 && AllDigits(ds)
    requires InRange(Signed(p, ds))
    ensures ParseInt(p + ds) == Some(Signed(p, ds))
  {
    var s := p + ds;
    assert s[0] == if p == "" then ds[0] else p[0];
    assert s[|p|..] == ds;
  }

  /** An optional sign and one or more digits that denote a value out of range: rejected. */
  lemma ParseIntRejectsOutOfRange(p: string, ds: string)
    requires SignPrefix(p) && |ds| >= 1 && AllDigits(ds)
    requires !InRange(Signed(p, ds))
    ensures ParseInt(p + ds) == None
  {
    var s := p + ds;
    assert s[0] == if p == "" then ds[0] else p[0];
    assert s[|p|..] == ds;
  }

  /** Empty text and a lone sign are rejected. */
  lemma ParseIntRejectsNoDigits(s: string)
    requires s == "" || s == "+" || s == "-"
    ensures ParseInt(s) == None
  {
  }

  /** A character other than a digit anywhere but in a leading sign position: rejected. */
  lemma ParseIntRejectsNonDigit(s: string, i: nat)
    requires i < |s| && !IsDigit(s[i])
    requires i > 0 || !IsSign(s[0])
    ensures ParseInt(s) == None
  {
    var start := if IsSign(s[0]) then 1 else 0;
    assert s[start..][i - start] == s[i];
  }

  // ---------------------------------------------------------------------------
  // Round trip and leading zeros.

  lemma {:induction false} NatDigitsValue(m: nat)
    ensures DigitsValue(NatDigits(m)) == m
  {
    var ds := NatDigits(m);
    if m >= 10 {
      NatDigitsValue(m / 10);
      assert ds[..|ds| - 1] == NatDigits(m / 10);
    }
  }

  /** Every 32-bit integer survives `Integer.parseInt(Integer.toString(n))`. */
  lemma ParseIntToDecimal(n: int)
    requires InRange(n)
    ensures ParseInt(ToDecimal(n)) == Some(n)
  {
    if n < 0 {
      var ds := NatDigits(-n);
      NatDigitsValue(-n);
      assert Signed("-", ds) == n;
      ParseIntAccepts("-", ds);
    } else {
      var ds := NatDigits(n);
      NatDigitsValue(n);
      assert Signed("", ds) == n;
      ParseIntAccepts("", ds);
      assert "" + ds == ds;
    }
  }

  lemma {:induction false} ZerosValue(k: nat)
    ensures DigitsValue(Zeros(k)) == 0
  {
    if k > 0 {
      ZerosValue(k - 1);
      assert Zeros(k)[..k - 1] == Zeros(k - 1);
    }
  }

  lemma {:induction false} ZerosPrefixValue(k: nat, ds: string)
    requires AllDigits(ds)
    ensures DigitsValue(Zeros(k) + ds) == DigitsValue(ds)
  {
    var s := Zeros(k) + ds;
    if |ds| == 0 {
      assert s == Zeros(k);
      ZerosValue(k);
    } else {
      ZerosPrefixValue(k, ds[..|ds| - 1]);
      assert s[..|s| - 1] == Zeros(k) + ds[..|ds| - 1];
    }
  }

  lemma AllDigitsConcat(a: string, b: string)
    requires AllDigits(a) && AllDigits(b)
    ensures AllDigits(a + b)
  {
    forall i | 0 <= i < |a + b| ensures IsDigit((a + b)[i]) {
      if i < |a| { assert (a + b)[i] == a[i]; } else { assert (a + b)[i] == b[i - |a|]; }
    }
  }

  /** Leading zeros after the optional sign do not change the outcome of the parse. */
  lemma LeadingZerosIgnored(p: string, k: nat, ds: string)
    requires SignPrefix(p) && |ds| >= 1 && AllDigits(ds)
    ensures ParseInt(p + (Zeros(k) + ds)) == ParseInt(p + ds)
  {
    var zs := Zeros(k) + ds;
    AllDigitsConcat(Zeros(k), ds);
    ZerosPrefixValue(k, ds);
    assert Signed(p, zs) == Signed(p, ds);
    if InRange(Signed(p, ds)) {
      ParseIntAccepts(p, zs);
      ParseIntAccepts(p, ds);
    } else {
      ParseIntRejectsOutOfRange(p, zs);
      ParseIntRejectsOutOfRange(p, ds);
    }
  }

  /** A single digit parses to its value. */
  lemma SingleDigitParses(c: char)
    requires IsDigit(c)
    ensures ParseInt([c]) == Some(DigitValue(c))
  {
    assert DigitsValue([c]) == DigitValue(c) by {
      assert [c][..0] == [];
    }
    ParseIntAccepts("", [c]);
    assert "" + [c] == [c];
  }

  /** "007" is 7. */
  lemma LeadingZerosExample()
    ensures ParseInt("007") == Some(7)
  {
    assert Zeros(2) == "00" by {
      assert Zeros(1) == "" + "0";
    }
    ZerosPrefixValue(2, "7");
    assert Zeros(2) + "7" == "007";
    assert DigitsValue("7") == 7 by {
      assert "7"[..0] == [];
    }
    ParseIntAccepts("", "007");
    assert "" + "007" == "007";
  }

  /** "-0" is 0. */
  lemma NegativeZeroExample()
    ensures ParseInt("-0") == Some(0)
  {
    assert "-" + "0" == "-0";
    assert DigitsValue("0") == 0 by {
      assert "0"[..0] == [];
    }
    ParseIntAccepts("-", "0");
  }
}
