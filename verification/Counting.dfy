/** Cardinalities of finite sets. */
module Counting {

  /** An injective map has as many values as keys. */
  lemma {:induction false} InjectiveMapSize<A, B>(f: map<A, B>)
    requires forall x, y :: x in f && y in f && f[x] == f[y] ==> x == y
    ensures |f.Values| == |f.Keys|
    decreases |f|
  {
    if f.Keys != {} {
      var x :| x in f;
      var g := f - {x};
      assert g.Keys == f.Keys - {x};
      assert g.Values == f.Values - {f[x]} by {
        forall v | v in g.Values ensures v in f.Values && v != f[x] {
          var y :| y in g && g[y] == v;
          assert f[y] == v;
        }
        forall v | v in f.Values - {f[x]} ensures v in g.Values {
          var y :| y in f && f[y] == v;
          assert g[y] == v;
        }
      }
      InjectiveMapSize(g);
      assert f[x] in f.Values;
    } else {
      assert f.Values == {};
    }
  }

  lemma {:induction false} SubsetSize<A>(A0: set<A>, B0: set<A>)
    requires A0 <= B0
    ensures |A0| <= |B0|
  {
    assert B0 == A0 + (B0 - A0);
  }
}
