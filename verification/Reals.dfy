/** Products of reals under a name of their own, so that proofs can treat them as opaque. */
module Reals {
  function Times(a: real, b: real): real {
    a * b
  }
}
