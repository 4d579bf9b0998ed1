/** The Python string conversions of the filename rewriting: `int()` on a
    string, `str()` on an integer and `str.zfill`. */
module PyText {
  import opened Wrappers

  predicate IsDigit(c: char)
  {
    '0' <= c <= '9'
  }

  predicate AllDigits(s: string)
  {
    forall i :: 0 <= i < |s| ==> IsDigit(s[i])
  }

  function DigitValue(c: char): nat
    requires IsDigit(c)
  {
    (c as int - '0' as int) as nat
  }

  function DigitChar(d: nat): (c: char)
    requires d < 10
    ensures IsDigit(c) && DigitValue(c) == d
  {
    ('0' as int + d) as char
  }

  /** The value of a string of decimal digits, most significant first. */
  function Value(s: string): nat
    requires AllDigits(s)
  {
    if |s| == 0 then 0 else 10 * Value(s[..|s| - 1]) + DigitValue(s[|s| - 1])
  }

  /** `int(s)` on a string: an optional sign and at least one decimal digit;
      anything else is a `ValueError`. */
  function ParseInt(s: string): (r: Result<int>)
    ensures r.Ok? <==>
      (|s| > 0 && AllDigits(s)) || (|s| > 1 && (s[0] == '-' || s[0] == '+') && AllDigits(s[1..]))
    ensures r.Ok? && AllDigits(s) ==> r.value == Value(s)
  {
    if |s| > 0 && AllDigits(s) then Ok(Value(s))
    else if |s| > 1 && s[0] == '-' && AllDigits(s[1..]) then Ok(-(Value(s[1..]) as int))
    else if |s| > 1 && s[0] == '+' && AllDigits(s[1..]) then Ok(Value(s[1..]))
    else Err(ValueError)
  }

  /** The decimal digits of a natural number, without leading zeros. */
  function ShowNat(n: nat): (s: string)
    ensures |s| > 0 && AllDigits(s)
  {
    if n < 10 then [DigitChar(n)] else ShowNat(n / 10) + [DigitChar(n % 10)]
  }

  /** `str(n)`. */
  function Show(n: int): (s: string)
    ensures |s| > 0
  {
    if n < 0 then "-" + ShowNat(-n) else ShowNat(n)
  }

  /** `'0' * n`. */
  function Zeros(n: nat): (s: string)
    ensures |s| == n && forall i :: 0 <= i < n ==> s[i] == '0'
  {
    seq(n, _ => '0')
  }

  /** `s.zfill(width)`: zeros inserted after a leading sign, up to `width`
      characters. */
  function ZFill(s: string, width: int): (r: string)
    ensures |s| >= width ==> r == s
    ensures |s| < width ==> |r| == width
    ensures |s| < width && (|s| == 0 || (s[0] != '-' && s[0] != '+')) ==> r == Zeros(width - |s|) + s
  {
    if |s| >= width then s
    else if |s| > 0 && (s[0] == '-' || s[0] == '+') then [s[0]] + Zeros(width - |s|) + s[1..]
    else Zeros(width - |s|) + s
  }

  /** A string of zeros is worth nothing. */
  lemma {:induction false} ZerosValue(z: nat)
    ensures Value(Zeros(z)) == 0
  {
    if z > 0 {
      assert Zeros(z)[..z - 1] == Zeros(z - 1);
      ZerosValue(z - 1);
    }
  }

  /** Leading zeros do not change the value of a digit string. */
  lemma {:induction false} ValueLeadingZeros(z: nat, s: string)
    requires AllDigits(s)
    ensures AllDigits(Zeros(z) + s)
    ensures Value(Zeros(z) + s) == Value(s)
    decreases |s|
  {
    var t := Zeros(z) + s;
    assert AllDigits(t) by {
      forall i | 0 <= i < |t|
        ensures IsDigit(t[i])
      {
        if i < z { assert t[i] == '0'; } else { assert t[i] == s[i - z]; }
      }
    }
    if |s| == 0 {
      assert t == Zeros(z);
      ZerosValue(z);
    } else {
      var init := s[..|s| - 1];
      assert AllDigits(init) by {
        forall i | 0 <= i < |init|
          ensures IsDigit(init[i])
        {
          assert init[i] == s[i];
        }
      }
      assert t[..|t| - 1] == Zeros(z) + init;
      assert t[|t| - 1] == s[|s| - 1];
      ValueLeadingZeros(z, init);
    }
  }

  function Pow10(k: nat): nat
  {
    if k == 0 then 1 else 10 * Pow10(k - 1)
  }

  /** `int(str(n)) == n`. */
  lemma {:induction false} ShowNatValue(n: nat)
    ensures Value(ShowNat(n)) == n
  {
    if n >= 10 {
      var s := ShowNat(n);
      assert s[..|s| - 1] == ShowNat(n / 10);
      ShowNatValue(n / 10);
    }
  }

  /** The zero-padded decimal form of a natural number reads back as that
      number: `int(str(n).zfill(w)) == n`. */
  lemma ZFillRoundTrip(n: nat, width: int)
    ensures ParseInt(ZFill(Show(n), width)) == Ok(n)
  {
    var s := ShowNat(n);
    ShowNatValue(n);
    assert Show(n) == s;
    assert s[0] != '-' && s[0] != '+' by { assert IsDigit(s[0]); }
    var r := ZFill(s, width);
    if |s| < width {
      assert r == Zeros(width - |s|) + s;
      ValueLeadingZeros(width - |s|, s);
    } else {
      assert r == s;
    }
    assert |r| > 0 && AllDigits(r) && Value(r) == n;
  }
}
