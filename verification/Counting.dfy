/** How many different numbers fit below a bound. */
module Counting {

  ghost function UpTo(n: nat): set<nat> {
    if n == 0 then {} else UpTo(n - 1) + {n - 1}
  }

  lemma {:induction false} UpToIs(n: nat)
    ensures |UpTo(n)| == n && forall i: nat :: i in UpTo(n) <==> i < n
  {
    if n > 0 {
      UpToIs(n - 1);
    }
  }

  ghost function Elements(f: seq<nat>): set<nat> {
    if f == [] then {} else {f[0]} + Elements(f[1..])
  }

  lemma {:induction false} ElementsAre(f: seq<nat>)
    ensures forall i :: i in Elements(f) <==> i in f
    ensures (forall j, k :: 0 <= j < k < |f| ==> f[j] != f[k]) ==> |Elements(f)| == |f|
  {
    if f != [] {
      ElementsAre(f[1..]);
      assert f == [f[0]] + f[1..];
    }
  }

  lemma {:induction false} SubsetSize<T>(a: set<T>, b: set<T>)
    requires a <= b
    ensures |a| <= |b|
  {
    if a != {} {
      var x :| x in a;
      SubsetSize(a - {x}, b - {x});
    }
  }

  /** As many keys as values, if no two keys share one. */
  lemma {:induction false} AsManyValues<K, V>(m: map<K, V>)
    requires forall j, k :: j in m && k in m && j != k ==> m[j] != m[k]
    ensures |m.Keys| == |m.Values|
    decreases |m|
  {
    if k :| k in m {
      var rest := m - {k};
      AsManyValues(rest);
      assert m.Keys == rest.Keys + {k};
      assert m.Values == rest.Values + {m[k]};
    } else {
      assert m == map[];
    }
  }
}
