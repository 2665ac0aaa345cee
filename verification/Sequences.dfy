/** Sets put in some order. */
module Sequences {
  function Elements<T>(q: seq<T>): set<T> { set x | x in q }

  ghost predicate NoRepeats<T>(q: seq<T>) {
    forall i, j :: 0 <= i < j < |q| ==> q[i] != q[j]
  }

  lemma ElementsStep<T>(q: seq<T>, k: nat)
    requires k < |q| && NoRepeats(q)
    ensures Elements(q[..k + 1]) == Elements(q[..k]) + {q[k]} && q[k] !in Elements(q[..k])
    ensures q[k] in Elements(q)
  {
    assert q[..k + 1] == q[..k] + [q[k]];
  }

  lemma NoElements<T>(q: seq<T>)
    ensures Elements(q[..0]) == {}
  {
  }

  method Enumerate<T(==)>(s: set<T>) returns (q: seq<T>)
    ensures Elements(q) == s && NoRepeats(q)
  {
    q := [];
    var todo := s;
    while todo != {}
      invariant forall x :: x in s <==> x in q || x in todo
      invariant forall x :: x in q ==> x !in todo
      invariant NoRepeats(q)
      decreases |todo|
    {
      var x :| x in todo;
      q, todo := q + [x], todo - {x};
    }
  }
}
