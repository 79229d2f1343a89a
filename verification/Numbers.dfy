/** Machine integers and small arithmetic that several modules share. */
module Numbers {

  const UINT32_LIMIT := 0x1_0000_0000

  function Min(a: int, b: int): int { if a < b then a else b }
  function Max(a: int, b: int): int { if a > b then a else b }

  /** The 32-bit int with the same low bits. */
  function Wrap32(x: int): (r: int)
    ensures -0x8000_0000 <= r < 0x8000_0000
    ensures -0x8000_0000 <= x < 0x8000_0000 ==> r == x
  {
    (x + 0x8000_0000) % UINT32_LIMIT - 0x8000_0000
  }

  /** Wrapping changes a number by a multiple of 2^32. */
  lemma WrapSteps(x: int) returns (q: int)
    ensures Wrap32(x) == x + q * UINT32_LIMIT
  {
    q := -((x + 0x8000_0000) / UINT32_LIMIT);
  }

  lemma WrapShift(x: int, q: int)
    ensures Wrap32(x + q * UINT32_LIMIT) == Wrap32(x)
  {
    var a := WrapSteps(x);
    var b := WrapSteps(x + q * UINT32_LIMIT);
    assert Wrap32(x + q * UINT32_LIMIT) - Wrap32(x) == (b + q - a) * UINT32_LIMIT;
  }

  /** Whether one wraps on the way or in the end makes no difference to one more digit. */
  lemma WrapDigit(x: int, d: nat)
    ensures Wrap32(Wrap32(x) * 10 + d) == Wrap32(x * 10 + d)
  {
    var q := WrapSteps(x);
    assert Wrap32(x) * 10 + d == (x * 10 + d) + (q * 10) * UINT32_LIMIT;
    WrapShift(x * 10 + d, q * 10);
  }
}
