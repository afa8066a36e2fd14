/** Decimal rendering of the per-source extraction counter, as Python's
    format spec `04d` prints a non-negative int: decimal digits, left-padded
    with '0' to at least four characters. */
module Counter {

  import opened Paths

  predicate IsDigit(c: char) {
    '0' <= c <= '9'
  }

  predicate AllDigits(s: string) {
    forall i :: 0 <= i < |s| ==> IsDigit(s[i])
  }

  function DigitChar(d: nat): (c: char)
    requires d < 10
    ensures IsDigit(c)
    ensures (c as int) - ('0' as int) == d
  {
    ('0' as int + d) as char
  }

  function DigitValue(c: char): nat
    requires IsDigit(c)
  {
    (c as int) - ('0' as int)
  }

  /** The value a string of decimal digits denotes (leading zeros allowed). */
  function ParseDigits(s: string): nat
    requires AllDigits(s)
    decreases |s|
  {
    if |s| == 0 then 0
    else ParseDigits(s[..|s| - 1]) * 10 + DigitValue(s[|s| - 1])
  }

  /** Python's `str(n)` for a non-negative int: shortest decimal, no leading zero. */
  function Decimal(n: nat): (r: string)
    ensures 1 <= |r|
    ensures AllDigits(r)
    ensures |r| > 1 ==> r[0] != '0'
    ensures n < 10 <==> |r| == 1
    decreases n
  {
    if n < 10 then [DigitChar(n)] else Decimal(n / 10) + [DigitChar(n % 10)]
  }

  /** A run of `k` zero characters. */
  function Zeros(k: nat): (r: string)
    ensures |r| == k
    ensures forall i :: 0 <= i < k ==> r[i] == '0'
  {
    seq(k, _ => '0')
  }

  /** `f"{n:04d}"`. */
  function Pad4(n: nat): string {
    var s := Decimal(n);
    if |s| >= 4 then s else Zeros(4 - |s|) + s
  }

  /** The padded counter is all digits, at least four of them: the decimal
      rendering preceded by as many zeros as it takes. */
  lemma Pad4Spec(n: nat)
    ensures AllDigits(Pad4(n))
    ensures |Pad4(n)| == if |Decimal(n)| >= 4 then |Decimal(n)| else 4
    ensures IsSuffix(Decimal(n), Pad4(n))
    ensures forall i :: 0 <= i < |Pad4(n)| - |Decimal(n)| ==> Pad4(n)[i] == '0'
  {}

  /** Reading back what `Decimal` printed gives the number. */
  lemma {:induction false} ParseDecimal(n: nat)
    ensures ParseDigits(Decimal(n)) == n
    decreases n
  {
    var r := Decimal(n);
    if n >= 10 {
      ParseDecimal(n / 10);
      assert r[..|r| - 1] == Decimal(n / 10);
    }
  }

  /** Leading zeros do not change the value read. */
  lemma {:induction false} ParseLeadingZeros(k: nat, s: string)
    requires AllDigits(s)
    ensures AllDigits(Zeros(k) + s)
    ensures ParseDigits(Zeros(k) + s) == ParseDigits(s)
    decreases |s|
  {
    var z := Zeros(k) + s;
    if |s| == 0 {
      assert z == Zeros(k);
      ParseZeros(k);
    } else {
      assert z[..|z| - 1] == Zeros(k) + s[..|s| - 1];
      ParseLeadingZeros(k, s[..|s| - 1]);
    }
  }

  lemma {:induction false} ParseZeros(k: nat)
    ensures ParseDigits(Zeros(k)) == 0
    decreases k
  {
    if k > 0 {
      assert Zeros(k)[..k - 1] == Zeros(k - 1);
      ParseZeros(k - 1);
    }
  }

  /** The padded counter reads back as the counter: no two counters share a
      rendering. */
  lemma Pad4RoundTrip(n: nat)
    ensures ParseDigits(Pad4(n)) == n
  {
    var s := Decimal(n);
    ParseDecimal(n);
    Pad4Spec(n);
    if |s| < 4 {
      ParseLeadingZeros(4 - |s|, s);
    }
  }

  lemma Pad4Injective(m: nat, n: nat)
    requires Pad4(m) == Pad4(n)
    ensures m == n
  {
    Pad4RoundTrip(m);
    Pad4RoundTrip(n);
  }

  /** Counters below 10000 take exactly four characters. */
  lemma {:induction false} Pad4Width(n: nat)
    ensures n < 10000 <==> |Pad4(n)| == 4
  {
    DecimalLength(n);
  }

  lemma {:induction false} DecimalLength(n: nat)
    ensures n < 10 ==> |Decimal(n)| == 1
    ensures n < 100 <==> |Decimal(n)| <= 2
    ensures n < 1000 <==> |Decimal(n)| <= 3
    ensures n < 10000 <==> |Decimal(n)| <= 4
    decreases n
  {
    if n >= 10 {
      DecimalLength(n / 10);
    }
  }
}
