/** Small vocabulary shared by the modules of this project. */
module Common {

  datatype Option<+T> = None | Some(value: T)

  function Min(a: int, b: int): (m: int)
    ensures m <= a && m <= b && (m == a || m == b)
  {
    if a <= b then a else b
  }

  function Max(a: int, b: int): (m: int)
    ensures m >= a && m >= b && (m == a || m == b)
  {
    if a >= b then a else b
  }

  function MinReal(a: real, b: real): (m: real)
    ensures m <= a && m <= b && (m == a || m == b)
  {
    if a <= b then a else b
  }

  function MaxReal(a: real, b: real): (m: real)
    ensures m >= a && m >= b && (m == a || m == b)
  {
    if a >= b then a else b
  }

  function Abs(x: real): (m: real)
    ensures m >= 0.0 && (m == x || m == -x)
  {
    if x < 0.0 then -x else x
  }

  /** The sum of a sequence, in the order a loop accumulates it. */
  function Sum(xs: seq<real>): real {
    if xs == [] then 0.0 else Sum(xs[..|xs| - 1]) + xs[|xs| - 1]
  }

  const UINT32_SIZE: nat := 0x1_0000_0000
  const UINT64_SIZE: nat := 0x1_0000_0000_0000_0000
}
