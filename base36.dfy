/**
  Number-to-text conversions behind the atom names: the generator's own
  base-36 encoder, Python's decimal rendering of a natural number and
  `str.zfill`, together with a positional decoder used to state what the
  encoders produce.
*/
module Base36 {

  /**
    The digit of value `d` in the base-36 encoder's alphabet, the decimal
    digits followed by the lower-case letters (`AlphabetText` spells the
    whole alphabet out).
  */
  function DigitChar(d: int): char
    requires 0 <= d < 36
  {
    if d < 10 then ('0' as int + d) as char else ('a' as int + d - 10) as char
  }

  /** The alphabet, digit by digit, is the encoder's digit string. */
  lemma AlphabetText()
    ensures seq(36, DigitChar) == "0123456789abcdefghijklmnopqrstuvwxyz"
  {
  }

  /** 36 to the third power: the base-36 names wrap at this serial. */
  const Base36Modulus: nat := 36 * 36 * 36

  /** The value of one digit character (36 for a character outside the alphabet). */
  function DigitValue(c: char): (d: nat)
    ensures d <= 36
  {
    if '0' <= c <= '9' then c as int - '0' as int
    else if 'a' <= c <= 'z' then c as int - 'a' as int + 10
    else 36
  }

  /** Each digit character decodes to its value. */
  lemma AlphabetDigit(d: nat)
    requires d < 36
    ensures DigitValue(DigitChar(d)) == d
  {
  }

  /** Every character of `s` is a digit below `radix`. */
  predicate IsDigits(s: string, radix: nat)
  {
    forall k :: 0 <= k < |s| ==> DigitValue(s[k]) < radix
  }

  /** The value of the digit string `s` read most significant digit first in base `radix`. */
  function Value(s: string, radix: nat): nat
  {
    if s == [] then 0 else Value(s[..|s| - 1], radix) * radix + DigitValue(s[|s| - 1])
  }

  /** Value of an optionally signed base-36 numeral, as Python's `int(s, 36)` reads the strings `Encode` produces. */
  function SignedValue(s: string): int
  {
    if |s| > 0 && s[0] == '-' then -(Value(s[1..], 36) as int) else Value(s, 36)
  }

  function Pow(b: nat, k: nat): (p: nat)
    ensures b > 0 ==> p > 0
  {
    if k == 0 then 1 else b * Pow(b, k - 1)
  }

  /**
    `b36_encode`: a negative number is a minus sign before the encoding of
    its magnitude; a number below 36 is its single digit; anything larger is
    the encoding of its quotient by 36 followed by the encoding of its
    remainder. The result of a natural number is a base-36 numeral of that
    value without leading zeros.
  */
  function Encode(i: int): (s: string)
    ensures i >= 0 ==> |s| >= 1 && IsDigits(s, 36) && Value(s, 36) == i
    ensures i >= 0 ==> (s[0] == '0' ==> i == 0) && (|s| == 1 <==> i < 36)
    ensures i < 0 ==> |s| >= 2 && s[0] == '-' && s[1] != '0' && IsDigits(s[1..], 36) && Value(s[1..], 36) == -i
    decreases if i < 0 then 1 - 2 * i else 2 * i
  {
    if i < 0 then
      var t := Encode(-i);
      assert ("-" + t)[1..] == t;
      "-" + t
    else if i < 36 then
      AlphabetDigit(i);
      [DigitChar(i)]
    else
      var hi := Encode(i / 36);
      var lo := Encode(i % 36);
      AppendDigit(hi, lo, 36);
      DigitsConcat(hi, lo, 36);
      hi + lo
  }

  /** Decoding the encoding in base 36, sign included, gives the number back. */
  lemma EncodeRoundTrip(i: int)
    ensures SignedValue(Encode(i)) == i
  {
    var s := Encode(i);
    if i >= 0 {
      assert DigitValue(s[0]) < 36;
    }
  }

  /** Sample values: the last single digit, the first two-digit number, a padded zero. */
  lemma EncodeSamples()
    ensures Encode(35) == "z" && Encode(36) == "10" && ZFill(Encode(0), 3) == "000"
  {
    assert Encode(35) == [DigitChar(35)];
    assert Encode(1) == "1" && Encode(0) == "0";
    assert Encode(36) == Encode(1) + Encode(0);
    assert Zeros(2) == "00";
  }

  /** Appending one digit multiplies the value by the radix and adds the digit. */
  lemma AppendDigit(s: string, t: string, radix: nat)
    requires |t| == 1
    ensures Value(s + t, radix) == Value(s, radix) * radix + DigitValue(t[0])
  {
    assert (s + t)[..|s + t| - 1] == s;
  }

  lemma DigitsConcat(s: string, t: string, radix: nat)
    requires IsDigits(s, radix) && IsDigits(t, radix)
    ensures IsDigits(s + t, radix)
  {
    forall k | 0 <= k < |s + t|
      ensures DigitValue((s + t)[k]) < radix
    {
      if k >= |s| {
        assert (s + t)[k] == t[k - |s|];
      }
    }
  }

  /** Python's decimal rendering `str(x)` of a natural number. */
  function Decimal(x: nat): (s: string)
    ensures |s| >= 1 && IsDigits(s, 10) && Value(s, 10) == x
    ensures s[0] == '0' ==> x == 0
  {
    if x < 10 then
      AlphabetDigit(x);
      [DigitChar(x)]
    else
      var hi := Decimal(x / 10);
      var lo := [DigitChar(x % 10)];
      AlphabetDigit(x % 10);
      AppendDigit(hi, lo, 10);
      DigitsConcat(hi, lo, 10);
      hi + lo
  }

  /** `k` zero digits. */
  function Zeros(k: nat): (z: string)
    ensures |z| == k
  {
    if k == 0 then "" else Zeros(k - 1) + "0"
  }

  /**
    Python's `s.zfill(width)`: pad on the left with '0' up to `width`
    characters, keeping a leading sign in front of the padding.
  */
  function ZFill(s: string, width: nat): (r: string)
    ensures |r| == if |s| >= width then |s| else width
  {
    if |s| >= width then s
    else if |s| > 0 && s[0] in "+-" then [s[0]] + Zeros(width - |s|) + s[1..]
    else Zeros(width - |s|) + s
  }

  /**
    What `ZFill` writes: the input, preceded by as many '0' as it lacks to
    reach `width`; a leading '+' or '-' stays in front of those zeros.
  */
  lemma ZFillContents(s: string, width: nat)
    ensures var r := ZFill(s, width);
      var pad := |r| - |s|;
      if |s| > 0 && s[0] in "+-" then
        r[0] == s[0] && (forall k :: 1 <= k <= pad ==> r[k] == '0') && r[pad + 1..] == s[1..]
      else
        (forall k :: 0 <= k < pad ==> r[k] == '0') && r[pad..] == s
  {
    var r := ZFill(s, width);
    if |s| < width {
      var z := Zeros(width - |s|);
      ZerosAreZero(width - |s|);
      if |s| > 0 && s[0] in "+-" {
        assert r == [s[0]] + z + s[1..];
        assert forall k :: 1 <= k <= |z| ==> r[k] == z[k - 1];
        assert r[|z| + 1..] == s[1..];
      } else {
        assert r == z + s;
        assert forall k :: 0 <= k < |z| ==> r[k] == z[k];
        assert r[|z|..] == s;
      }
    }
  }

  lemma {:induction false} ZerosAreZero(k: nat)
    ensures forall j :: 0 <= j < k ==> Zeros(k)[j] == '0'
  {
    if k > 0 {
      ZerosAreZero(k - 1);
      assert forall j :: 0 <= j < k - 1 ==> Zeros(k)[j] == Zeros(k - 1)[j];
    }
  }

  /** A digit string of length `k` in base `radix` has a value below `radix` to the `k`. */
  lemma {:induction false} ValueBound(s: string, radix: nat)
    requires IsDigits(s, radix)
    ensures Value(s, radix) < Pow(radix, |s|)
  {
    if s != [] {
      var init := s[..|s| - 1];
      assert IsDigits(init, radix);
      ValueBound(init, radix);
      var v, p, d := Value(init, radix), Pow(radix, |init|), DigitValue(s[|s| - 1]);
      assert d < radix;
      assert Value(s, radix) == v * radix + d;
      assert Pow(radix, |s|) == radix * p;
      NextMultiple(v, p, radix);
    }
  }

  /** Below `p`, one more multiple of `c` still stays within `p*c`. */
  lemma NextMultiple(v: nat, p: nat, c: nat)
    requires v < p
    ensures v * c + c <= c * p
  {
    MulLe(v + 1, p, c);
    assert (v + 1) * c == v * c + c;
    assert p * c == c * p;
  }

  lemma MulLe(a: nat, b: nat, c: nat)
    requires a <= b
    ensures a * c <= b * c
  {
  }

  lemma {:induction false} PowMonotone(b: nat, j: nat, k: nat)
    requires b > 0 && j <= k
    ensures Pow(b, j) <= Pow(b, k)
    decreases k
  {
    if j < k {
      PowMonotone(b, j, k - 1);
      assert Pow(b, k) == b * Pow(b, k - 1);
    }
  }

  /** A number below 36 to the `k` encodes to at most `k` digits. */
  lemma {:induction false} EncodeFits(i: nat, k: nat)
    requires k >= 1 && i < Pow(36, k)
    ensures |Encode(i)| <= k
  {
    if i >= 36 {
      var p := Pow(36, k - 1);
      assert Pow(36, k) == 36 * p;
      assert i / 36 < p;
      EncodeFits(i / 36, k - 1);
    }
  }

  /**
    A natural number fits in `k` base-36 digits exactly when it is below 36
    to the `k`; in particular every remainder modulo 36 cubed encodes to at
    most three digits.
  */
  lemma EncodeLength(i: nat, k: nat)
    requires k >= 1
    ensures |Encode(i)| <= k <==> i < Pow(36, k)
  {
    if i < Pow(36, k) {
      EncodeFits(i, k);
    } else {
      ValueBound(Encode(i), 36);
      if |Encode(i)| <= k {
        PowMonotone(36, |Encode(i)|, k);
      }
    }
  }

  /** Leading zero digits do not change the value of a digit string. */
  lemma {:induction false} LeadingZeros(k: nat, s: string, radix: nat)
    ensures Value(Zeros(k) + s, radix) == Value(s, radix)
    decreases |s|
  {
    if s == [] {
      ZerosValue(k, radix);
      assert Zeros(k) + s == Zeros(k);
    } else {
      var init := s[..|s| - 1];
      assert (Zeros(k) + s)[..|Zeros(k) + s| - 1] == Zeros(k) + init;
      LeadingZeros(k, init, radix);
    }
  }

  lemma {:induction false} ZerosValue(k: nat, radix: nat)
    ensures Value(Zeros(k), radix) == 0
  {
    if k > 0 {
      var z := Zeros(k - 1);
      ZerosValue(k - 1, radix);
      AppendDigit(z, "0", radix);
      assert Value(z + "0", radix) == 0 * radix + DigitValue('0');
    }
  }

  /** Zero digits are digits of every positive radix. */
  lemma {:induction false} ZerosDigits(k: nat, radix: nat)
    requires radix >= 1
    ensures IsDigits(Zeros(k), radix)
  {
    if k > 0 {
      ZerosDigits(k - 1, radix);
      DigitsConcat(Zeros(k - 1), "0", radix);
    }
  }
}
