/** Arithmetic on reals shared by the modules of this project. */
module RealArith {

  /** Python's `abs` on a real. */
  function Abs(x: real): real
  {
    if x < 0.0 then -x else x
  }
}
