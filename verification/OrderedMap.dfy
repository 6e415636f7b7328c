/** The ordered traversal of a std::map, and the erasure of its keys. */
module OrderedMap {
  import opened Bytes

  lemma {:induction false} Least(keys: set<nat>) returns (k: nat)
    requires keys != {}
    ensures k in keys && forall j :: j in keys ==> k <= j
  {
    var m :| m in keys;
    var rest := keys - {m};
    k := m;
    if rest != {} {
      var r := Least(rest);
      if r < m { k := r; }
    }
    forall j | j in keys ensures k <= j {
      assert j == m || j in rest;
    }
  }

  lemma HasLeast(keys: set<nat>)
    requires keys != {}
    ensures exists k :: k in keys && forall j :: j in keys ==> k <= j
  {
    var k := Least(keys);
  }

  /** begin()->first */
  function First(keys: set<nat>): (k: nat)
    requires keys != {}
    ensures k in keys && forall j :: j in keys ==> k <= j
  {
    HasLeast(keys);
    var k :| k in keys && forall j :: j in keys ==> k <= j;
    k
  }

  /** lower_bound(bound): the least key not below the bound. */
  function LowerBound(keys: set<nat>, bound: nat): (k: Option<nat>)
    ensures k.None? <==> forall j :: j in keys ==> j < bound
    ensures k.Some? ==> k.value in keys && bound <= k.value
    ensures k.Some? ==> forall j :: j in keys && bound <= j ==> k.value <= j
  {
    var above := set j | j in keys && bound <= j;
    assert forall j :: j in keys && bound <= j ==> j in above;
    if above == {} then None else Some(First(above))
  }

  function Without<T>(m: map<nat, T>, k: nat): (r: map<nat, T>)
    ensures r.Keys == m.Keys - {k}
  {
    map j | j in m && j != k :: m[j]
  }

  lemma WithoutShrinks<T>(m: map<nat, T>, k: nat)
    requires k in m
    ensures |Without(m, k)| < |m|
  {
    assert Without(m, k).Keys < m.Keys;
    SubsetShrinks(Without(m, k).Keys, m.Keys);
  }

  lemma SubsetShrinks<T>(a: set<T>, b: set<T>)
    requires a < b
    ensures |a| < |b|
  {
    assert b == a + (b - a);
    assert |b| == |a| + |b - a|;
  }

  function AtLeast<T>(m: map<nat, T>, bound: nat): (r: map<nat, T>)
    ensures r.Keys == set k | k in m.Keys && k >= bound
  {
    map k | k in m && k >= bound :: m[k]
  }

  /** The numbers after one, up to another. */
  function Between(from: nat, to: nat): (s: set<nat>)
    ensures forall k: nat :: k in s <==> from < k <= to
  {
    if to <= from then {} else Between(from, to - 1) + {to}
  }

  function From(keys: set<nat>, bound: nat): (r: set<nat>) {
    set k | k in keys && k >= bound
  }

  lemma FromShrinks(keys: set<nat>, k: nat)
    requires k in keys
    ensures |From(keys, k + 1)| < |From(keys, k)|
  {
    assert k in From(keys, k) && k !in From(keys, k + 1);
    SubsetShrinks(From(keys, k + 1), From(keys, k));
  }
}
