/** Small vocabulary shared by the other modules. */
module Basics {

  datatype Option<+T> = None | Some(value: T)

  function Min(a: int, b: int): int {
    if a <= b then a else b
  }

  function Max(a: int, b: int): int {
    if a >= b then a else b
  }

  function Sum(xs: seq<nat>): nat {
    if xs == [] then 0 else Sum(xs[..|xs| - 1]) + xs[|xs| - 1]
  }

  ghost predicate Distinct<T>(xs: seq<T>) {
    forall i, j :: 0 <= i < j < |xs| ==> xs[i] != xs[j]
  }

  lemma TimesMono(n: nat, a: nat, b: nat)
    ensures a <= b ==> a * n <= b * n
  {}

  lemma TimesAdd(a: nat, b: nat, n: nat)
    ensures (a + b) * n == a * n + b * n
  {}

  /** Always true: mentioned to say which element a proof asks a quantifier about. */
  ghost predicate Asked<T>(x: T) {
    true
  }

  lemma Associates<T>(a: seq<T>, b: seq<T>, c: seq<T>)
    ensures (a + b) + c == a + (b + c)
  {}
}
