/**
 * Variable-length numbers: seven bits a byte, the lowest first, the high bit set
 * on all but the last. The font index and the icon data write them alike.
 */
module Varints {
  import U = Utf8

  type bytes = U.bytes

  const WORD := 0x1_0000_0000

  function Varint(x: nat): (r: bytes)
    ensures r != []
  {
    if x < 0x80 then [x] else [x % 0x80 + 0x80] + Varint(x / 0x80)
  }

  method PutVarint(v0: bytes, x0: nat) returns (v: bytes)
    ensures v == v0 + Varint(x0)
  {
    v := v0;
    var x := x0;
    while x >= 0x80
      invariant v + Varint(x) == v0 + Varint(x0)
    {
      assert v + Varint(x) == v + [x % 0x80 + 0x80] + Varint(x / 0x80);
      v := v + [x % 0x80 + 0x80];
      x := x / 0x80;
    }
    v := v + [x];
  }

  function Pow128(k: nat): (r: nat)
    ensures r > 0
  {
    if k == 0 then 1 else 0x80 * Pow128(k - 1)
  }

  lemma PowUpTo5()
    ensures Pow128(1) == 0x80 && Pow128(2) == 0x4000 && Pow128(3) == 0x20_0000 && Pow128(4) == 0x1000_0000
    ensures Pow128(5) == 0x8_0000_0000
  {
    assert Pow128(1) == 0x80 * Pow128(0);
    assert Pow128(2) == 0x80 * Pow128(1);
    assert Pow128(3) == 0x80 * Pow128(2);
    assert Pow128(4) == 0x80 * Pow128(3);
    assert Pow128(5) == 0x80 * Pow128(4);
  }

  lemma VarintBytes(x: nat)
    ensures if x < 0x80 then Varint(x) == [x]
            else Varint(x) != [] && Varint(x)[0] == x % 0x80 + 0x80 && Varint(x)[1..] == Varint(x / 0x80)
  {
  }

  lemma SmallWord(x: nat)
    requires x < WORD
    ensures x % WORD == x
  {
  }

  /** The remainder may be taken at every step. */
  lemma ModAdd(a: nat, b: nat)
    ensures (a % WORD + b) % WORD == (a + b) % WORD
  {
    var q := a / WORD;
    assert a + b == a % WORD + b + q * WORD;
    ModMultiple(a % WORD + b, q);
  }

  lemma {:induction false} ModMultiple(x: nat, q: nat)
    ensures (x + q * WORD) % WORD == x % WORD
  {
    if q == 0 {
    } else {
      ModMultiple(x, q - 1);
      assert x + q * WORD == x + (q - 1) * WORD + WORD;
    }
  }

  /** The digits after the first, with a number's first digit added already. */
  lemma DigitsModulo(k: nat, low: nat, x: nat)
    requires k < 5 && x >= 0x80 && x * Pow128(k) < Pow128(5)
    ensures k + 1 < 5 && x / 0x80 * Pow128(k + 1) < Pow128(5)
    ensures ((low + x % 0x80 * Pow128(k)) % WORD + x / 0x80 * Pow128(k + 1)) % WORD == (low + x * Pow128(k)) % WORD
  {
    var q, m, u := x / 0x80, x % 0x80, Pow128(k);
    DigitsOf(x, u);
    assert x * u >= 0x80 * u == Pow128(k + 1);
    ModAdd(low + m * u, q * (0x80 * u));
  }

  lemma MoreDigits(k: nat, low: nat, x: nat)
    requires k < 5 && x >= 0x80 && low + x * Pow128(k) < WORD
    ensures k + 1 < 5 && low + x % 0x80 * Pow128(k) + x / 0x80 * Pow128(k + 1) == low + x * Pow128(k)
    ensures low + x % 0x80 * Pow128(k) < WORD
  {
    PowUpTo5();
    DigitsOf(x, Pow128(k));
  }

  lemma DigitsOf(x: nat, u: nat)
    ensures x * u == x / 0x80 * (0x80 * u) + x % 0x80 * u
    ensures x / 0x80 * (0x80 * u) <= x * u && (x >= 0x80 ==> x * u >= 0x80 * u)
  {
    var q, m := x / 0x80, x % 0x80;
    assert x == q * 0x80 + m;
    assert x * u == q * (0x80 * u) + m * u;
  }
}
