/** How often a value occurs in a sequence. */
module Occurrences {
  function Occurs<T(==)>(xs: seq<T>, x: T): nat {
    if xs == [] then 0 else Occurs(xs[..|xs| - 1], x) + if xs[|xs| - 1] == x then 1 else 0
  }

  lemma {:induction false} OccursConcat<T>(a: seq<T>, b: seq<T>, x: T)
    ensures Occurs(a + b, x) == Occurs(a, x) + Occurs(b, x)
  {
    if b == [] {
      assert a + b == a;
    } else {
      OccursConcat(a, b[..|b| - 1], x);
      assert (a + b)[..|a + b| - 1] == a + b[..|b| - 1];
    }
  }

  lemma {:induction false} OccursIff<T>(xs: seq<T>, x: T)
    ensures Occurs(xs, x) > 0 <==> x in xs
  {
    if xs != [] {
      OccursIff(xs[..|xs| - 1], x);
    }
  }

  lemma OccursOne<T>(y: T, x: T)
    ensures Occurs([y], x) == if y == x then 1 else 0
  {
    assert [y][..0] == [];
  }

  lemma {:induction false} OccursUpdate<T>(xs: seq<T>, i: nat, y: T, x: T)
    requires i < |xs|
    ensures Occurs(xs[i := y], x) + Occurs([xs[i]], x) == Occurs(xs, x) + Occurs([y], x)
  {
    var n := |xs| - 1;
    OccursOne(xs[i], x);
    OccursOne(y, x);
    if i < n {
      OccursUpdate(xs[..n], i, y, x);
      assert xs[i := y][..n] == xs[..n][i := y];
    } else {
      assert xs[i := y][..n] == xs[..n];
    }
  }
}
