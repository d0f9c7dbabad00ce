/** What several components share. */
module Common {
  datatype Option<+T> = None | Some(value: T)

  function Pow2(n: nat): (p: nat)
    ensures p > 0
  {
    if n == 0 then 1 else 2 * Pow2(n - 1)
  }

  // ----- quotients and remainders -----

  lemma MulGrows(d: nat, k: nat)
    requires k >= 1
    ensures d * k >= d
  {
    assert d * k == d + d * (k - 1);
  }

  /** The only multiple of `d` strictly between `-d` and `d` is zero. */
  lemma SmallMultiple(d: nat, k: int)
    requires -(d as int) < d * k < d
    ensures k == 0
  {
    assert d * k == -(d * (-k));
    if k >= 1 {
      MulGrows(d, k);
    } else if k <= -1 {
      MulGrows(d, -k);
    }
  }

  lemma ModUnique(n: int, d: nat, q: int, r: nat)
    requires d > 0 && n == d * q + r && r < d
    ensures n % d == r && n / d == q
  {
    var q', r' := n / d, n % d;
    assert d * (q - q') == r' - r;
    SmallMultiple(d, q - q');
  }

  // ----- decimal numbers -----

  function Digit(d: nat): char requires d < 10 { '0' + d as char }

  predicate IsDigit(c: char) { '0' <= c <= '9' }

  predicate AllDigits(s: string) { forall i :: 0 <= i < |s| ==> IsDigit(s[i]) }

  /** `std::to_string`. */
  function Decimal(n: nat): (s: string)
    ensures s != [] && AllDigits(s)
  {
    if n < 10 then [Digit(n)] else Decimal(n / 10) + [Digit(n % 10)]
  }

  function DigitValue(c: char): nat requires IsDigit(c) { c as nat - '0' as nat }

  /** The value of a digit string (`std::stoull` before its range check). */
  function Value(s: string): nat
    requires AllDigits(s)
  {
    if s == [] then 0 else 10 * Value(s[..|s| - 1]) + DigitValue(s[|s| - 1])
  }

  lemma {:induction false} ValueOfDecimal(n: nat)
    ensures Value(Decimal(n)) == n
  {
    var s := Decimal(n);
    if n < 10 {
      assert s[..0] == [] && DigitValue(Digit(n)) == n;
    } else {
      ValueOfDecimal(n / 10);
      assert s[..|s| - 1] == Decimal(n / 10) && DigitValue(Digit(n % 10)) == n % 10;
    }
  }

  /** The digits by name, and their places: the last digit counts ones. */
  lemma DecimalPlaces(s: string, d: nat)
    requires d < 10 && AllDigits(s)
    ensures Digit(d) == "0123456789"[d] && DigitValue("0123456789"[d]) == d
    ensures AllDigits(s + ["0123456789"[d]]) && Value(s + ["0123456789"[d]]) == 10 * Value(s) + d
  {
    var t := s + ["0123456789"[d]];
    assert t[..|t| - 1] == s;
  }

  // ----- lines -----

  /** Index of the first newline, or the length. */
  function LineLength(s: string): (n: nat)
    ensures n <= |s| && (n < |s| ==> s[n] == '\n') && '\n' !in s[..n]
  {
    if s == [] || s[0] == '\n' then 0
    else
      assert s[..LineLength(s[1..]) + 1] == [s[0]] + s[1..][..LineLength(s[1..])];
      LineLength(s[1..]) + 1
  }
}
