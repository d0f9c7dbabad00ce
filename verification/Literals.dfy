/** Integer literals of the P4 lexer (`Lexer::read_number`, server/p4l/lexer.cpp). */
module Literals {
  import opened Common

  // ----- bit operations on non-negative integers -----

  /** Bitwise and. */
  function And(a: nat, b: nat): nat {
    if a == 0 || b == 0 then 0 else (a % 2) * (b % 2) + 2 * And(a / 2, b / 2)
  }

  lemma {:induction false} HalfStep(m: nat, n: nat)
    requires m > 0
    ensures n % (2 * m) == n % 2 + 2 * ((n / 2) % m)
  {
    var q, r := (n / 2) / m, (n / 2) % m;
    assert n / 2 == m * q + r;
    assert n == (2 * m) * q + (2 * r + n % 2) by {
      assert 2 * (m * q) == (2 * m) * q;
    }
    ModUnique(n, 2 * m, q, 2 * r + n % 2);
  }

  lemma SameResidue(x: int, y: int, d: nat)
    requires d > 0 && x % d == y % d && -(d as int) < x - y < d
    ensures x == y
  {
    assert x - y == d * (x / d - y / d);
    SmallMultiple(d, x / d - y / d);
  }

  /** Masking with `2^w - 1` is the remainder modulo `2^w`. */
  lemma {:induction false} AndMask(w: nat, n: nat)
    ensures And(Pow2(w) - 1, n) == n % Pow2(w)
  {
    if w > 0 {
      var m := Pow2(w) - 1;
      assert m % 2 == 1 && m / 2 == Pow2(w - 1) - 1;
      AndMask(w - 1, n / 2);
      HalfStep(Pow2(w - 1), n);
    }
  }

  /** Masking with a single bit tests that bit. */
  lemma {:induction false} AndBit(k: nat, n: nat)
    requires n < Pow2(k + 1)
    ensures And(n, Pow2(k)) == if n >= Pow2(k) then Pow2(k) else 0
  {
    if k == 0 {
      assert Pow2(1) == 2 * Pow2(0);
      assert n < 2;
    } else {
      assert Pow2(k) % 2 == 0 && Pow2(k) / 2 == Pow2(k - 1);
      AndBit(k - 1, n / 2);
    }
  }

  lemma {:induction false} AndCommutes(a: nat, b: nat)
    ensures And(a, b) == And(b, a)
  {
    if a != 0 && b != 0 {
      AndCommutes(a / 2, b / 2);
    }
  }

  // ----- the value of a sized literal -----

  /** `value = mask & n`, then for a signed literal
      `(value & (mask >> 1)) - (value & (1 << (width - 1)))`. */
  function Truncate(width: nat, signed: bool, n: nat): int
    requires signed ==> 1 <= width
  {
    var mask := Pow2(width) - 1;
    var value := And(mask, n);
    if signed then And(value, mask / 2) - And(value, Pow2(width - 1)) else value
  }

  /** The values of the type `bit<width>` or `int<width>`. */
  predicate Representable(width: nat, signed: bool, v: int)
    requires 1 <= width
  {
    var half: int := Pow2(width - 1);
    if signed then -half <= v < half else 0 <= v < 2 * half
  }

  /** Without sign the remainder modulo `2^width`; with sign, less `2^width` when the sign bit
      of the remainder is set. */
  lemma TruncateValue(width: nat, signed: bool, n: nat)
    requires 1 <= width
    ensures var r := n % Pow2(width);
      Truncate(width, signed, n) == if signed && r >= Pow2(width - 1) then r - Pow2(width) else r
  {
    hide And;
    var p, h := Pow2(width), Pow2(width - 1);
    AndMask(width, n);
    var r := n % p;
    if signed {
      assert p == 2 * h && (p - 1) / 2 == h - 1;
      AndCommutes(r, h - 1);
      AndMask(width - 1, r);
      AndBit(width - 1, r);
      if r >= h {
        ModUnique(r, h, 1, r - h);
      } else {
        ModUnique(r, h, 0, r);
      }
    }
  }

  /** The result lies in the range of the type and is congruent to the literal. */
  lemma TruncateIsTwosComplement(width: nat, signed: bool, n: nat)
    requires 1 <= width
    ensures Representable(width, signed, Truncate(width, signed, n))
    ensures Truncate(width, signed, n) % Pow2(width) == n % Pow2(width)
  {
    hide Truncate;
    var p := Pow2(width);
    var r := n % p;
    TruncateValue(width, signed, n);
    ModUnique(r, p, 0, r);
    ModUnique(r - p, p, -1, r);
  }

  /** Reading back the two's-complement pattern of a representable value is the identity. */
  lemma TruncateRoundTrip(width: nat, signed: bool, x: int)
    requires 1 <= width && Representable(width, signed, x)
    ensures Truncate(width, signed, x % Pow2(width)) == x
  {
    var p := Pow2(width);
    var v := Truncate(width, signed, x % p);
    TruncateIsTwosComplement(width, signed, x % p);
    ModUnique(x % p, p, 0, x % p);
    SameResidue(v, x, p);
  }

  // ----- digits in a base -----

  function HexValue(c: char): nat
    requires IsHex(c)
  {
    if IsDigit(c) then c as nat - '0' as nat
    else if 'a' <= c then c as nat - 'a' as nat + 10 else c as nat - 'A' as nat + 10
  }

  predicate IsHex(c: char) { IsDigit(c) || 'a' <= c <= 'f' || 'A' <= c <= 'F' }

  predicate InBase(s: string, base: nat) {
    forall i :: 0 <= i < |s| ==> IsHex(s[i]) && HexValue(s[i]) < base
  }

  function BaseValue(s: string, base: nat): nat
    requires InBase(s, base)
  {
    if s == [] then 0 else base * BaseValue(s[..|s| - 1], base) + HexValue(s[|s| - 1])
  }

  function HexDigit(d: nat): char requires d < 16 {
    if d < 10 then '0' + d as char else 'a' + (d - 10) as char
  }

  function SpellIn(n: nat, base: nat): (s: string)
    requires 2 <= base <= 16
    ensures s != []
  {
    if n < base then [HexDigit(n)]
    else
      DivSmaller(n, base);
      SpellIn(n / base, base) + [HexDigit(n % base)]
  }

  lemma DivSmaller(n: nat, base: nat)
    requires 2 <= base <= n
    ensures 0 <= n / base < n
  {
    var q := n / base;
    assert n == base * q + n % base;
    if q >= 1 {
      assert base * q >= 2 * q;
    }
  }

  lemma HexDigitValue(d: nat)
    requires d < 16
    ensures IsHex(HexDigit(d)) && HexValue(HexDigit(d)) == d
  {
  }

  lemma {:induction false} SpellValue(n: nat, base: nat)
    requires 2 <= base <= 16
    ensures InBase(SpellIn(n, base), base) && BaseValue(SpellIn(n, base), base) == n
  {
    hide BaseValue;
    if n < base {
      HexDigitValue(n);
      EmptyValue(base);
      AppendDigit([], HexDigit(n), base);
      assert [] + [HexDigit(n)] == SpellIn(n, base);
      assert base * 0 == 0;
    } else {
      DivSmaller(n, base);
      SpellValue(n / base, base);
      HexDigitValue(n % base);
      AppendDigit(SpellIn(n / base, base), HexDigit(n % base), base);
      DivModSum(n, base);
    }
  }

  lemma DivModSum(n: nat, base: nat)
    requires base > 0
    ensures base * (n / base) + n % base == n
  {
  }

  lemma EmptyValue(base: nat)
    ensures BaseValue([], base) == 0
  {
  }

  lemma AppendDigit(s: string, c: char, base: nat)
    requires InBase(s, base) && IsHex(c) && HexValue(c) < base
    ensures InBase(s + [c], base) && BaseValue(s + [c], base) == base * BaseValue(s, base) + HexValue(c)
  {
    assert (s + [c])[..|s|] == s;
  }
}
