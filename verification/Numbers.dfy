/** Bytes and small arithmetic shared by the models. */
module Numbers {

  type Byte = b: int | 0 <= b < 256

  function Max(a: int, b: int): int {
    if a < b then b else a
  }

  function Min(a: int, b: int): int {
    if a < b then a else b
  }

  function Pow(b: nat, n: nat): (p: nat)
    ensures b > 0 ==> p > 0
  {
    if n == 0 then 1 else b * Pow(b, n - 1)
  }

  function Bit(b: bool): nat {
    if b then 1 else 0
  }
}
