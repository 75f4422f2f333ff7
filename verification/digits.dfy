/** Decimal digits: reading fixed-width fields and rendering numbers, as
    `strptime`'s numeric fields, `strftime`'s zero padding and Python's
    `str(int)` do. */
module Digits {

  predicate IsDigit(c: char) {
    '0' <= c <= '9'
  }

  predicate AllDigits(s: string) {
    forall k :: 0 <= k < |s| ==> IsDigit(s[k])
  }

  function DigitChar(n: int): (c: char)
    requires 0 <= n <= 9
    ensures IsDigit(c)
  {
    ('0' as int + n) as char
  }

  function DigitValue(c: char): (n: int)
    requires IsDigit(c)
    ensures 0 <= n <= 9 && DigitChar(n) == c
  {
    c as int - '0' as int
  }

  /** Two-digit zero-padded rendering (`%02d`). */
  function Pad2(n: int): (s: string)
    requires 0 <= n < 100
    ensures |s| == 2 && AllDigits(s)
  {
    [DigitChar(n / 10), DigitChar(n % 10)]
  }

  /** Four-digit zero-padded rendering (`%04d`). */
  function Pad4(n: int): (s: string)
    requires 0 <= n < 10000
    ensures |s| == 4 && AllDigits(s)
  {
    Pad2(n / 100) + Pad2(n % 100)
  }

  /** The number written by the two digits `s[i]`, `s[i + 1]`. */
  function Read2(s: string, i: nat): (n: int)
    requires i + 2 <= |s| && AllDigits(s[i..i + 2])
    ensures 0 <= n < 100
  {
    assert IsDigit(s[i..i + 2][0]) && IsDigit(s[i..i + 2][1]);
    10 * DigitValue(s[i]) + DigitValue(s[i + 1])
  }

  /** The number written by the four digits starting at `s[i]`. */
  function Read4(s: string, i: nat): (n: int)
    requires i + 4 <= |s| && AllDigits(s[i..i + 4])
    ensures 0 <= n < 10000
  {
    assert s[i..i + 2] == s[i..i + 4][..2] && s[i + 2..i + 4] == s[i..i + 4][2..];
    100 * Read2(s, i) + Read2(s, i + 2)
  }

  lemma Read2Pad2(n: int)
    requires 0 <= n < 100
    ensures Read2(Pad2(n), 0) == n
  {
    assert Pad2(n)[0..2] == Pad2(n);
  }

  lemma Pad2Read2(s: string, i: nat)
    requires i + 2 <= |s| && AllDigits(s[i..i + 2])
    ensures Pad2(Read2(s, i)) == s[i..i + 2]
  {
    assert IsDigit(s[i..i + 2][0]) && IsDigit(s[i..i + 2][1]);
    var a, b := DigitValue(s[i]), DigitValue(s[i + 1]);
    assert (10 * a + b) / 10 == a && (10 * a + b) % 10 == b;
  }

  /** Reading back a zero-padded four-digit field gives the number. */
  lemma {:induction false} Read4Pad4(n: int)
    requires 0 <= n < 10000
    ensures Read4(Pad4(n), 0) == n
  {
    var s := Pad4(n);
    Read2Pad2(n / 100);
    Read2Pad2(n % 100);
    assert s[0..2] == Pad2(n / 100) && s[2..4] == Pad2(n % 100);
    assert Read2(s, 0) == Read2(s[0..2], 0);
    assert Read2(s, 2) == Read2(s[2..4], 0);
  }

  /** Rendering a four-digit field that was read gives the same text. */
  lemma {:induction false} Pad4Read4(s: string, i: nat)
    requires i + 4 <= |s| && AllDigits(s[i..i + 4])
    ensures Pad4(Read4(s, i)) == s[i..i + 4]
  {
    assert s[i..i + 2] == s[i..i + 4][..2] && s[i + 2..i + 4] == s[i..i + 4][2..];
    var x, y := Read2(s, i), Read2(s, i + 2);
    assert (100 * x + y) / 100 == x && (100 * x + y) % 100 == y;
    Pad2Read2(s, i);
    Pad2Read2(s, i + 2);
  }

  /** Python's `str(n)` (and `f"{n}"`) for a natural number: no padding. */
  function Decimal(n: nat): (s: string)
    ensures 1 <= |s| && AllDigits(s)
  {
    if n < 10 then [DigitChar(n)] else Decimal(n / 10) + [DigitChar(n % 10)]
  }

  /** Below 1000 the unpadded rendering is shorter than four characters. */
  lemma {:induction false} DecimalShort(n: nat)
    requires n < 1000
    ensures |Decimal(n)| <= 3
  {
    if n >= 10 {
      DecimalShort(n / 10);
      if n / 10 >= 10 {
        assert n / 10 / 10 < 10;
      }
    }
  }

  /** From 10000 up the unpadded rendering is longer than four characters. */
  lemma {:induction false} DecimalLong(n: nat)
    requires n >= 10000
    ensures |Decimal(n)| >= 5
  {
    if n / 10 >= 10000 {
      DecimalLong(n / 10);
    } else {
      DecimalFourDigits(n / 10);
    }
  }

  /** The unpadded rendering has exactly four characters just for the
      numbers from 1000 to 9999, where it is the zero-padded one. */
  lemma DecimalFourIff(n: nat)
    ensures |Decimal(n)| == 4 <==> 1000 <= n <= 9999
    ensures |Decimal(n)| == 4 ==> Decimal(n) == Pad4(n)
  {
    if n < 1000 {
      DecimalShort(n);
    } else if n >= 10000 {
      DecimalLong(n);
    } else {
      DecimalFourDigits(n);
    }
  }

  /** From 1000 to 9999 the unpadded rendering is the four-digit one. */
  lemma {:induction false} DecimalFourDigits(n: nat)
    requires 1000 <= n <= 9999
    ensures Decimal(n) == Pad4(n)
  {
    var a, b, c := n / 10, n / 100, n / 1000;
    assert a / 10 == b && b / 10 == c && c < 10;
    assert Decimal(b) == [DigitChar(c), DigitChar(b % 10)];
    assert b / 10 == c;
    assert n % 100 / 10 == a % 10 && n % 100 % 10 == n % 10;
  }

  /** Reading the whole of a digit string as one number. */
  function Number(s: string): (n: nat)
    requires AllDigits(s)
  {
    if s == [] then 0
    else
      assert AllDigits(s[..|s| - 1]);
      10 * Number(s[..|s| - 1]) + DigitValue(s[|s| - 1])
  }

  /** `Number` is the inverse of `Decimal`. */
  lemma {:induction false} NumberDecimal(n: nat)
    ensures Number(Decimal(n)) == n
  {
    if n >= 10 {
      var s := Decimal(n);
      assert s[..|s| - 1] == Decimal(n / 10);
      NumberDecimal(n / 10);
    }
  }
}
