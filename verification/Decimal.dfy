/** Decimal numbers in headers: printing and Rust's `str::parse::<usize>` on a 64-bit target. */
module Decimal {
  import opened Options
  import opened Bytes

  predicate IsDigit(b: byte) {
    48 <= b <= 57
  }

  predicate AllDigits(s: Bytes) {
    forall i | 0 <= i < |s| :: IsDigit(s[i])
  }

  function Digits(n: nat): (s: Bytes)
    ensures s != [] && AllDigits(s)
  {
    if n < 10 then [48 + n] else Digits(n / 10) + [48 + n % 10]
  }

  function Value(s: Bytes): nat
    requires AllDigits(s)
  {
    if s == [] then 0 else 10 * Value(s[..|s| - 1]) + (s[|s| - 1] as int - 48)
  }

  /** An optional plus sign, at least one digit, and no overflow. */
  function ParseUsize(s: Bytes): Option<nat> {
    var d := if s != [] && s[0] == 43 then s[1..] else s;
    if d != [] && AllDigits(d) && Value(d) < U64 then Some(Value(d)) else None
  }

  /** `parse().unwrap_or(0)` */
  function ParseOrZero(s: Bytes): (n: nat)
    ensures n < U64
  {
    match ParseUsize(s)
    case Some(n) => n
    case None => 0
  }

  lemma {:induction false} ValueOfDigits(n: nat)
    ensures Value(Digits(n)) == n
  {
    if n >= 10 {
      var s := Digits(n);
      assert s[..|s| - 1] == Digits(n / 10);
      ValueOfDigits(n / 10);
    }
  }

  /** Parsing undoes printing for every number a usize can hold, and overflow reads as zero. */
  lemma ParseOfDigits(n: nat)
    ensures ParseOrZero(Digits(n)) == if n < U64 then n else 0
  {
    ValueOfDigits(n);
    assert IsDigit(Digits(n)[0]);
  }

  lemma {:induction false} ValueOfZeros(k: nat, n: nat)
    ensures AllDigits(Zeroes(k) + Digits(n)) && Value(Zeroes(k) + Digits(n)) == n
    decreases k, n
  {
    var s := Zeroes(k) + Digits(n);
    ValueOfDigits(n);
    if n >= 10 {
      assert s[..|s| - 1] == Zeroes(k) + Digits(n / 10);
      ValueOfZeros(k, n / 10);
    } else {
      assert s[..|s| - 1] == Zeroes(k);
      ValueOfNothing(k);
    }
  }

  function Zeroes(k: nat): (s: Bytes)
    ensures |s| == k && AllDigits(s)
  {
    seq(k, i => 48)
  }

  lemma {:induction false} ValueOfNothing(k: nat)
    ensures Value(Zeroes(k)) == 0
  {
    if k > 0 {
      assert Zeroes(k)[..k - 1] == Zeroes(k - 1);
      ValueOfNothing(k - 1);
    }
  }

  /** Leading zeros and one plus sign do not matter; anything else that is no digit, and no digit at all, reads as
      zero. */
  lemma ParsesLikeRust(k: nat, n: nat, junk: Bytes, i: nat)
    ensures n < 0x1_0000_0000_0000_0000 ==>
              ParseOrZero(Zeroes(k) + Digits(n)) == n && ParseOrZero([43] + (Zeroes(k) + Digits(n))) == n
    ensures n >= 0x1_0000_0000_0000_0000 ==> ParseOrZero(Zeroes(k) + Digits(n)) == 0
    ensures ParseOrZero([]) == 0 && ParseOrZero([43]) == 0
    ensures i < |junk| && (junk[i] < 48 || junk[i] > 57) && (i > 0 || junk[0] != 43) ==> ParseOrZero(junk) == 0
  {
    var d := Zeroes(k) + Digits(n);
    ValueOfZeros(k, n);
    assert IsDigit(d[0]);
    assert ([43] + d)[1..] == d;
    if i < |junk| && !IsDigit(junk[i]) && junk[0] == 43 && i > 0 {
      assert junk[1..][i - 1] == junk[i];
    }
  }
}
