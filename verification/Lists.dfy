/** What several parts of the model share: optional values, and lists whose nodes are numbers. */
module Lists {

  datatype Option<T> = None | Some(value: T)

  ghost predicate Distinct(xs: seq<nat>) {
    forall i, j :: 0 <= i < j < |xs| ==> xs[i] != xs[j]
  }

  /** list_remove. */
  function Without(xs: seq<nat>, x: nat): seq<nat> {
    if xs == [] then []
    else if xs[0] == x then Without(xs[1..], x)
    else [xs[0]] + Without(xs[1..], x)
  }

  lemma {:induction false} WithoutElements(xs: seq<nat>, x: nat)
    ensures forall y :: y in Without(xs, x) <==> y in xs && y != x
    ensures Distinct(xs) ==> Distinct(Without(xs, x))
    ensures x !in xs ==> Without(xs, x) == xs
  {
    if xs != [] {
      assert Distinct(xs) ==> Distinct(xs[1..]) && xs[0] !in xs[1..];
      WithoutElements(xs[1..], x);
    }
  }
}
