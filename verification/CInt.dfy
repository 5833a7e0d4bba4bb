/** C++ integer arithmetic: `/` truncates toward zero and `%` takes the sign of the dividend. */
module CInt {

  function Quot(a: int, b: int): int
    requires b > 0
  {
    if a >= 0 then a / b else -((-a) / b)
  }

  function Rem(a: int, b: int): int
    requires b > 0
  {
    a - Quot(a, b) * b
  }

  predicate Int32(x: int) {
    -0x8000_0000 <= x < 0x8000_0000
  }
}
