/** Machine words as bounded integers, with the shifts and byte orders the library uses. */
module Words {

  const U32: int := 0x1_0000_0000
  const U64: int := 0x1_0000_0000_0000_0000
  const UINT32_MAX: int := 0xFFFF_FFFF

  /** One more than the largest `int`. */
  const INT_LIMIT: int := 0x8000_0000

  type byte = x: int | 0 <= x < 256
  type u32 = x: int | 0 <= x < 0x1_0000_0000

  /** Unsigned 32-bit addition and subtraction wrap around. */
  function Add32(a: int, b: int): (r: u32) {
    (a + b) % U32
  }

  function Sub32(a: int, b: int): (r: u32) {
    (a - b) % U32
  }

  lemma WrapAdd(x: int, y: int)
    ensures Add32(x % U32, y) == (x + y) % U32
    ensures Sub32(x % U32, y) == (x - y) % U32
  {
  }

  /** A size cast to a signed 32-bit integer. */
  function Int32(n: nat): (r: int) {
    var m := n % U32;
    if m < INT_LIMIT then m else m - U32
  }

  /** How far a loop reaches that counts up to such a length. */
  function Len32(n: nat): (r: nat)
    ensures r <= n && r < INT_LIMIT && (r == n <==> n < INT_LIMIT)
  {
    if Int32(n) < 0 then 0 else Int32(n)
  }

  /** `x << n` on unbounded integers. */
  function Shl(x: nat, n: nat): (r: nat) {
    if n == 0 then x else 2 * Shl(x, n - 1)
  }

  /** `x >> n`. */
  function Shr(x: nat, n: nat): (r: nat) {
    if n == 0 then x else Shr(x / 2, n - 1)
  }

  lemma {:induction false} ShlAdd(a: nat, b: nat, n: nat)
    ensures Shl(a + b, n) == Shl(a, n) + Shl(b, n)
  {
    if n > 0 {
      ShlAdd(a, b, n - 1);
    }
  }

  lemma {:induction false} ShlShl(x: nat, m: nat, n: nat)
    ensures Shl(Shl(x, m), n) == Shl(x, m + n)
  {
    if n > 0 {
      ShlShl(x, m, n - 1);
    }
  }

  lemma Shl7(x: nat)
    ensures Shl(x, 7) == 128 * x
  {
    assert Shl(x, 1) == 2 * Shl(x, 0) == 2 * x;
    assert Shl(x, 2) == 2 * Shl(x, 1) == 4 * x;
    assert Shl(x, 3) == 2 * Shl(x, 2) == 8 * x;
    assert Shl(x, 4) == 2 * Shl(x, 3) == 16 * x;
    assert Shl(x, 5) == 2 * Shl(x, 4) == 32 * x;
    assert Shl(x, 6) == 2 * Shl(x, 5) == 64 * x;
  }

  lemma {:induction false} ShlMono(a: nat, b: nat, n: nat)
    requires a <= b
    ensures Shl(a, n) <= Shl(b, n)
  {
    if n > 0 {
      ShlMono(a, b, n - 1);
    }
  }

  lemma {:induction false} ShlGrows(x: nat, m: nat, n: nat)
    requires m <= n
    ensures Shl(x, m) <= Shl(x, n)
  {
    if m < n {
      ShlGrows(x, m, n - 1);
    }
  }

  /** Shifting a bound right is comparing with the value shifted left. */
  lemma {:induction false} ShrShl(x: nat, a: nat, n: nat)
    ensures a <= Shr(x, n) <==> Shl(a, n) <= x
  {
    if n > 0 {
      ShrShl(x / 2, a, n - 1);
    }
  }

  /** What a right shift drops is less than one unit of the last kept place. */
  lemma {:induction false} ShrRemainder(x: nat, n: nat)
    ensures Shl(Shr(x, n), n) <= x < Shl(Shr(x, n), n) + Shl(1, n)
  {
    if n > 0 {
      ShrRemainder(x / 2, n - 1);
    }
  }

  lemma {:induction false} ShrAddLow(q: nat, low: nat, n: nat)
    requires low < Shl(1, n)
    ensures Shr(Shl(q, n) + low, n) == q
  {
    if n > 0 {
      assert (Shl(q, n) + low) / 2 == Shl(q, n - 1) + low / 2;
      ShrAddLow(q, low / 2, n - 1);
    }
  }

  lemma Shl35()
    ensures Shl(1, 28) == 0x1000_0000 && Shl(1, 32) == U32 && Shl(1, 35) == 0x8_0000_0000
  {
    Shl7(1);
    ShlShl(1, 7, 7);
    Shl7(Shl(1, 7));
    ShlShl(1, 14, 7);
    Shl7(Shl(1, 14));
    ShlShl(1, 21, 7);
    Shl7(Shl(1, 21));
    assert Shl(1, 32) == 2 * Shl(1, 31) == 4 * Shl(1, 30) == 8 * Shl(1, 29) == 16 * Shl(1, 28);
    assert Shl(1, 35) == 2 * Shl(1, 34) == 4 * Shl(1, 33) == 8 * Shl(1, 32);
  }

  /** One more than the largest unsigned value of `n` bytes. */
  function Pow256(n: nat): (p: nat)
    ensures p >= 1
  {
    if n == 0 then 1 else 256 * Pow256(n - 1)
  }

  lemma Pow256Four()
    ensures Pow256(4) == U32
  {
    assert Pow256(1) == 256 * Pow256(0) == 256;
    assert Pow256(2) == 256 * Pow256(1) == 0x1_0000;
    assert Pow256(3) == 256 * Pow256(2) == 0x100_0000;
  }

  lemma Pow256Eight()
    ensures Pow256(8) == U64
  {
    Pow256Four();
    assert Pow256(5) == 256 * Pow256(4);
    assert Pow256(6) == 256 * Pow256(5);
    assert Pow256(7) == 256 * Pow256(6);
  }

  /** Concatenation of a list of fragments. */
  function Concat<T>(parts: seq<seq<T>>): (r: seq<T>) {
    if parts == [] then [] else parts[0] + Concat(parts[1..])
  }
}
