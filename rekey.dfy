/**
 * Moving every entry of a map to a new key, as the sparse flips, transposes
 * and hex rotations of aoc/src/lib.rs do: iterate the map, insert each value
 * under its new key into a fresh map, then replace the old contents. With an
 * injective key function no insert overwrites another, so the iteration order
 * of the hash map does not matter.
 */
module Rekeying {

  ghost predicate InjectiveOn<K>(keys: set<K>, f: K -> K) {
    forall a, b :: a in keys && b in keys && f(a) == f(b) ==> a == b
  }

  /** The new keys: the images of the old ones. */
  function Image<K, V>(m: map<K, V>, f: K -> K): set<K> {
    set k | k in m :: f(k)
  }

  /** The map with every entry moved from key `k` to key `f(k)`. */
  function Rekey<K, V>(m: map<K, V>, f: K -> K): (r: map<K, V>)
    requires InjectiveOn(m.Keys, f)
    ensures r.Keys == Image(m, f)
    ensures forall k :: k in m ==> r[f(k)] == m[k]
  {
    map k | k in m :: f(k) := m[k]
  }

  /** An injective re-keying keeps the number of entries. */
  lemma {:induction false} RekeySize<K, V>(m: map<K, V>, f: K -> K)
    requires InjectiveOn(m.Keys, f)
    ensures |Rekey(m, f)| == |m|
    decreases |m|
  {
    if m != map[] {
      var k :| k in m;
      var rest := m - {k};
      RekeySize(rest, f);
      assert Rekey(m, f) == Rekey(rest, f)[f(k) := m[k]];
      assert f(k) !in Rekey(rest, f);
    }
  }

  /** Exactly the values of the old map appear in the new one. */
  lemma RekeyValues<K, V>(m: map<K, V>, f: K -> K)
    requires InjectiveOn(m.Keys, f)
    ensures Rekey(m, f).Values == m.Values
  {
    var r := Rekey(m, f);
    forall v | v in m.Values ensures v in r.Values {
      var k :| k in m && m[k] == v;
      assert r[f(k)] == v;
    }
    forall v | v in r.Values ensures v in m.Values {
      var q :| q in r && r[q] == v;
      var k :| k in m && f(k) == q;
      assert m[k] == v;
    }
  }

  /**
   * The copy loop: each entry, taken in whatever order the map yields it, is
   * inserted under its new key into a map that starts empty.
   */
  method Rekeyed<K, V>(m: map<K, V>, f: K -> K) returns (r: map<K, V>)
    requires InjectiveOn(m.Keys, f)
    ensures r == Rekey(m, f)
  {
    r := map[];
    var todo := m.Keys;
    while todo != {}
      invariant todo <= m.Keys
      invariant r.Keys == set k | k in m && k !in todo :: f(k)
      invariant forall k :: k in m && k !in todo ==> r[f(k)] == m[k]
      decreases |todo|
    {
      var k :| k in todo;
      r := r[f(k) := m[k]];
      todo := todo - {k};
    }
    assert r.Keys == Image(m, f);
  }
}
