/**
 * The pure parts of the simulator's trace loop: reading the hexadecimal
 * address of a trace line, and splitting an address into tag, set index and
 * block offset with C's shift and mask operators.
 *
 * Addresses and the values derived from them are C `int`s.  The model keeps
 * them as mathematical integers; the operators are written out as what they
 * do on two's-complement integers: `>>` is an arithmetic shift (a floor
 * division by a power of two), `<<` a multiplication by a power of two, `~x` is -x-1,
 * and `^` and `&` work bit by bit on non-negative values.
 */
module Trace {

  function Pow2(n: nat): (r: nat)
    ensures r >= 1
  {
    if n == 0 then 1 else 2 * Pow2(n - 1)
  }

  // ---------------------------------------------------------------------------
  // C operators on int
  // ---------------------------------------------------------------------------

  /** `x >> k` on a C int: an arithmetic shift, which rounds toward minus infinity. */
  function Sar(x: int, k: nat): int {
    x / Pow2(k)
  }

  /** `x >> k` on a non-negative C int. */
  function Shr(x: nat, k: nat): nat {
    QuotientNonNegative(x, Pow2(k));
    x / Pow2(k)
  }

  /** `x << k` on a C int whose result does not overflow. */
  function Shl(x: int, k: nat): (r: int)
    ensures x >= 0 ==> r >= 0
  {
    ProductSign(x, Pow2(k));
    x * Pow2(k)
  }

  /** `~x` on a two's-complement int. */
  function Not(x: int): int {
    -x - 1
  }

  /** `a ^ b` on non-negative ints, one bit at a time from the least significant. */
  function Xor(a: nat, b: nat): nat
    decreases a + b
  {
    if a == 0 && b == 0 then 0
    else 2 * Xor(a / 2, b / 2) + (if a % 2 == b % 2 then 0 else 1)
  }

  /** `a & b` on non-negative ints. */
  function And(a: nat, b: nat): nat
    decreases a
  {
    if a == 0 || b == 0 then 0
    else 2 * And(a / 2, b / 2) + (if a % 2 == 1 && b % 2 == 1 then 1 else 0)
  }

  // ---------------------------------------------------------------------------
  // Address split
  // ---------------------------------------------------------------------------

  /** `tag = addr >> (s+b)`. */
  function TagOf(addr: nat, s: nat, b: nat): nat {
    Shr(addr, s + b)
  }

  /** `set_index = (addr ^ (tag << (s+b))) >> b`. */
  function SetIndexOf(addr: nat, s: nat, b: nat): (r: nat)
    ensures r < Pow2(s)
  {
    XorClearsHigh(addr, s + b);
    Pow2Add(s, b);
    MixedRadix(addr, Pow2(s), Pow2(b));
    Shr(Xor(addr, Shl(TagOf(addr, s, b), s + b)), b)
  }

  /** `block_index = addr & ~(-1 >> b << b)`. */
  function BlockIndexOf(addr: nat, b: nat): (r: nat)
    ensures r < Pow2(b)
  {
    var mask := Not(Shl(Sar(-1, b), b));
    LowMask(b);
    AndLowMask(addr, b);
    And(addr, mask)
  }

  /** `-1 >> b << b` has the low b bits clear and all others set, so its complement is 2^b - 1. */
  lemma LowMask(b: nat)
    ensures Not(Shl(Sar(-1, b), b)) == Pow2(b) - 1
  {
    var p: int := Pow2(b);
    assert -1 == p * -1 + (p - 1);
    DivUnique(-1, p, -1, p - 1);
  }

  /** Euclidean division is determined by quotient and remainder. */
  lemma DivUnique(x: int, d: int, q: int, r: int)
    requires d > 0 && x == d * q + r && 0 <= r < d
    ensures x / d == q && x % d == r
  {
    var q', r' := x / d, x % d;
    assert x == d * q' + r' && 0 <= r' < d;
    if q' > q {
      assert d * q' >= d * q + d by { MulStep(d, q, q'); }
    } else if q' < q {
      assert d * q >= d * q' + d by { MulStep(d, q', q); }
    }
  }

  lemma MulStep(d: int, a: int, b: int)
    requires d > 0 && a < b
    ensures d * b >= d * a + d
  {
    var k := b - a;
    MulNonNegative(d, k - 1);
    assert d * b == d * a + d * k;
    assert d * k == d + d * (k - 1);
  }

  lemma QuotientNonNegative(x: nat, d: nat)
    requires d >= 1
    ensures x / d >= 0
  {
    if x / d < 0 {
      MulStep(d, x / d, 0);
      assert false;
    }
  }

  lemma MulNonNegative(x: nat, y: nat)
    ensures x * y >= 0
  {
  }

  lemma ProductSign(x: int, y: nat)
    ensures x >= 0 ==> x * y >= 0
  {
    if x >= 0 {
      MulNonNegative(x, y);
    }
  }

  lemma {:induction false} Pow2Add(m: nat, n: nat)
    ensures Pow2(m + n) == Pow2(m) * Pow2(n)
    decreases m
  {
    if m > 0 {
      Pow2Add(m - 1, n);
      assert Pow2(m + n) == 2 * Pow2(m - 1 + n);
    }
  }

  /** Halving a value and dropping k - 1 more bits drops k bits. */
  lemma HalfThenShift(a: nat, k: nat)
    requires k >= 1
    ensures a / Pow2(k) == (a / 2) / Pow2(k - 1)
    ensures a % Pow2(k) == 2 * ((a / 2) % Pow2(k - 1)) + a % 2
  {
    var p := Pow2(k - 1);
    var q, r := (a / 2) / p, (a / 2) % p;
    assert a / 2 == p * q + r && 0 <= r < p;
    assert a == 2 * (a / 2) + a % 2;
    assert a == (2 * p) * q + (2 * r + a % 2) by {
      assert 2 * (p * q) == (2 * p) * q;
    }
    DivUnique(a, 2 * p, q, 2 * r + a % 2);
  }

  /** Masking with 2^b - 1 keeps the remainder modulo 2^b. */
  lemma {:induction false} AndLowMask(a: nat, b: nat)
    ensures And(a, Pow2(b) - 1) == a % Pow2(b)
    decreases b
  {
    if b == 0 {
    } else if a == 0 {
      assert 0 % Pow2(b) == 0 by { DivUnique(0, Pow2(b), 0, 0); }
    } else {
      var m := Pow2(b) - 1;
      assert m / 2 == Pow2(b - 1) - 1 && m % 2 == 1;
      AndLowMask(a / 2, b - 1);
      HalfThenShift(a, b);
    }
  }

  /** XOR with the high part of a value, shifted back into place, clears the high part. */
  lemma {:induction false} XorClearsHigh(a: nat, k: nat)
    ensures Xor(a, Shl(Shr(a, k), k)) == a % Pow2(k)
    decreases k
  {
    if k == 0 {
      assert a / 1 == a && a % 1 == 0;
      XorSelf(a);
    } else {
      var h := Shl(Shr(a, k), k);
      var q := a / Pow2(k);
      HalfThenShift(a, k);
      assert h == 2 * (q * Pow2(k - 1));
      assert h / 2 == Shl(Shr(a / 2, k - 1), k - 1) && h % 2 == 0;
      XorClearsHigh(a / 2, k - 1);
      if a == 0 && h == 0 {
        assert a % Pow2(k) == 0 by { DivUnique(0, Pow2(k), 0, 0); }
      }
    }
  }

  lemma {:induction false} XorSelf(a: nat)
    ensures Xor(a, a) == 0
    decreases a
  {
    if a != 0 {
      XorSelf(a / 2);
    }
  }

  /** The set index is the address modulo 2^(s+b) with the low b bits dropped. */
  lemma SetIndexValue(addr: nat, s: nat, b: nat)
    ensures SetIndexOf(addr, s, b) == (addr % Pow2(s + b)) / Pow2(b)
  {
    XorClearsHigh(addr, s + b);
  }

  /** The block offset is the address modulo 2^b. */
  lemma BlockIndexValue(addr: nat, b: nat)
    ensures BlockIndexOf(addr, b) == addr % Pow2(b)
  {
    LowMask(b);
    AndLowMask(addr, b);
  }

  /** Quotient and remainder by p*q split into a quotient by p*q, a middle digit below p and a remainder by q. */
  lemma MixedRadix(x: nat, p: nat, q: nat)
    requires p >= 1 && q >= 1
    ensures (x % (p * q)) / q < p
    ensures (x / (p * q)) * (p * q) + ((x % (p * q)) / q) * q + x % q == x
  {
    MulNonNegative(p, q);
    MulStep(q, 0, p);
    var pq := p * q;
    var t, low := x / pq, x % pq;
    var mid, rest := low / q, low % q;
    assert x == pq * t + low && 0 <= low < pq;
    assert low == q * mid + rest && 0 <= rest < q;
    if mid >= p {
      MulStep(q, p - 1, mid);
      assert false;
    }
    assert x == q * (p * t + mid) + rest by {
      assert pq * t == q * (p * t);
      assert q * (p * t) + q * mid == q * (p * t + mid);
    }
    DivUnique(x, q, p * t + mid, rest);
  }

  /** The three fields put back together give the address. */
  lemma AddressSplit(addr: nat, s: nat, b: nat)
    ensures TagOf(addr, s, b) * Pow2(s + b) + SetIndexOf(addr, s, b) * Pow2(b) + BlockIndexOf(addr, b) == addr
  {
    Pow2Add(s, b);
    SetIndexValue(addr, s, b);
    BlockIndexValue(addr, b);
    MixedRadix(addr, Pow2(s), Pow2(b));
  }

  // ---------------------------------------------------------------------------
  // Hexadecimal addresses
  // ---------------------------------------------------------------------------

  predicate IsHexDigit(c: char) {
    '0' <= c <= '9' || 'a' <= c <= 'f'
  }

  /** `getInt`: a decimal digit's value, and otherwise the distance from 'a' plus ten. */
  function GetInt(c: char): int {
    if '0' <= c <= '9' then c as int - '0' as int else c as int - 'a' as int + 10
  }

  /** The lower-case hexadecimal digit for d < 16. */
  function HexDigit(d: nat): (c: char)
    requires d < 16
    ensures IsHexDigit(c)
  {
    if d < 10 then ('0' as int + d) as char else ('a' as int + d - 10) as char
  }

  /** GetInt and HexDigit are inverse bijections between the hex digits and 0..15. */
  lemma GetIntHexDigit(d: nat, c: char)
    requires d < 16 && IsHexDigit(c)
    ensures GetInt(HexDigit(d)) == d
    ensures 0 <= GetInt(c) < 16 && HexDigit(GetInt(c)) == c
  {
  }

  /** The value the address loop accumulates over `digits`, most significant first. */
  function HexValue(digits: string): int {
    if digits == [] then 0 else HexValue(digits[..|digits| - 1]) * 16 + GetInt(digits[|digits| - 1])
  }

  /** The lower-case hexadecimal spelling of v, without leading zeros. */
  function ToHex(v: nat): (r: string)
    ensures |r| >= 1 && forall i :: 0 <= i < |r| ==> IsHexDigit(r[i])
  {
    if v < 16 then [HexDigit(v)] else ToHex(v / 16) + [HexDigit(v % 16)]
  }

  /** Reading back the spelling of v gives v. */
  lemma {:induction false} HexRoundTrip(v: nat)
    ensures HexValue(ToHex(v)) == v
  {
    GetIntHexDigit(v % 16, '0');
    if v >= 16 {
      HexRoundTrip(v / 16);
      var r := ToHex(v);
      assert r[..|r| - 1] == ToHex(v / 16);
    }
  }

  /** A string of hex digits has a non-negative value. */
  lemma {:induction false} HexValueRange(digits: string)
    requires forall i :: 0 <= i < |digits| ==> IsHexDigit(digits[i])
    ensures 0 <= HexValue(digits)
  {
    if digits != [] {
      HexValueRange(digits[..|digits| - 1]);
      GetIntHexDigit(0, digits[|digits| - 1]);
    }
  }

  /** The position of the first ',' at or after i. */
  function CommaFrom(cmd: string, i: nat): (r: nat)
    requires i <= |cmd| && ',' in cmd[i..]
    ensures i <= r < |cmd| && cmd[r] == ','
    ensures forall j :: i <= j < r ==> cmd[j] != ','
    decreases |cmd| - i
  {
    if cmd[i] == ',' then i
    else
      assert cmd[i..] == [cmd[i]] + cmd[i + 1..];
      CommaFrom(cmd, i + 1)
  }

  /** A trace line the address loop can read: the digits start at index 3 and end at a ','. */
  predicate HasAddress(cmd: string) {
    |cmd| > 3 && ',' in cmd[3..]
  }

  /**
   * A data access line of a trace: the operation letter in column 1 and a
   * hexadecimal address from column 3 up to a ','.
   */
  predicate AccessLine(cmd: string) {
    HasAddress(cmd) && cmd[1] in {'L', 'S', 'M'} &&
    forall i :: 3 <= i < CommaFrom(cmd, 3) ==> IsHexDigit(cmd[i])
  }

  /** A line the simulator accepts: an instruction fetch (skipped) or a data access. */
  predicate TraceLine(cmd: string) {
    cmd != [] && (cmd[0] == 'I' || AccessLine(cmd))
  }

  /** The address of a data access line. */
  function Address(cmd: string): (addr: nat)
    requires AccessLine(cmd)
  {
    var digits := AddressDigits(cmd);
    assert forall i :: 0 <= i < |digits| ==> IsHexDigit(digits[i]) by {
      forall i | 0 <= i < |digits| ensures IsHexDigit(digits[i]) {
        assert digits[i] == cmd[3 + i];
      }
    }
    HexValueRange(digits);
    HexValue(digits)
  }

  /** The digits of the address field of a trace line. */
  function AddressDigits(cmd: string): string
    requires HasAddress(cmd)
  {
    cmd[3..CommaFrom(cmd, 3)]
  }

  /**
   * The loop that reads the address: from index 3 up to the ',', multiply by
   * 16 and add the next digit's value.
   */
  method ParseAddress(cmd: string) returns (addr: int)
    requires HasAddress(cmd)
    ensures addr == HexValue(AddressDigits(cmd))
  {
    var comma := CommaFrom(cmd, 3);
    addr := 0;
    var i := 3;
    while cmd[i] != ','
      invariant 3 <= i <= comma
      invariant addr == HexValue(cmd[3..i])
      decreases comma - i
    {
      addr := addr * 16;
      addr := addr + GetInt(cmd[i]);
      assert cmd[3..i + 1][..i - 3] == cmd[3..i];
      i := i + 1;
    }
  }
}
