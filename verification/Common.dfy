/** What several modules share. */
module Common {
  datatype Option<T> = None | Some(value: T)

  type Byte = b: nat | b < 256

  function Min(a: nat, b: nat): nat {
    if a < b then a else b
  }

  ghost predicate IsLeast(s: set<nat>, p: nat) {
    p in s && forall q | q in s :: p <= q
  }
}
