/** Facts about sequences, sets and maps used by the replacer and the pool. */
module Collections {

  /** No element occurs twice. */
  predicate NoDuplicates<T(==)>(s: seq<T>)
  {
    forall i, j :: 0 <= i < j < |s| ==> s[i] != s[j]
  }

  /** The set of elements of a sequence. */
  function Elems<T>(s: seq<T>): set<T>
  {
    set x | x in s
  }

  /** No two keys share a value. */
  ghost predicate Injective(m: map<int, int>)
  {
    forall k, k' :: k in m && k' in m && k != k' ==> m[k] != m[k']
  }

  /** The values a map takes. */
  function Range(m: map<int, int>): set<int>
  {
    set k | k in m :: m[k]
  }

  /** Mapping a new key adds its value to the range and keeps the map injective if the value is new. */
  lemma RangeInsert(m: map<int, int>, k: int, v: int)
    requires k !in m
    ensures Range(m[k := v]) == Range(m) + {v}
    ensures Injective(m) && v !in Range(m) ==> Injective(m[k := v])
  {
    var m' := m[k := v];
    forall x | x in Range(m') ensures x in Range(m) + {v} {
      var j :| j in m' && m'[j] == x;
      if j != k {
        assert m[j] == x;
      }
    }
    forall x | x in Range(m) ensures x in Range(m') {
      var j :| j in m && m[j] == x;
      assert m'[j] == x;
    }
    assert m'[k] == v;
  }

  /** Erasing a key of an injective map removes exactly its value from the range. */
  lemma RangeRemove(m: map<int, int>, k: int)
    requires k in m && Injective(m)
    ensures Range(m - {k}) == Range(m) - {m[k]}
    ensures Injective(m - {k})
  {
    var m' := m - {k};
    forall x | x in Range(m) - {m[k]} ensures x in Range(m') {
      var j :| j in m && m[j] == x;
      assert m'[j] == x;
    }
  }

  /** The integers 0 .. n-1 in increasing order. */
  function Iota(n: nat): (r: seq<int>)
    ensures |r| == n
    ensures forall i :: 0 <= i < n ==> r[i] == i
  {
    seq(n, i => i)
  }

  /** A sequence without duplicates has as many distinct elements as it has positions. */
  lemma {:induction false} NoDuplicatesCard<T>(s: seq<T>)
    requires NoDuplicates(s)
    ensures |Elems(s)| == |s|
  {
    if s != [] {
      var tail := s[1..];
      assert NoDuplicates(tail) by {
        forall i, j | 0 <= i < j < |tail| ensures tail[i] != tail[j] {
          assert tail[i] == s[i + 1] && tail[j] == s[j + 1];
        }
      }
      NoDuplicatesCard(tail);
      assert Elems(s) == {s[0]} + Elems(tail);
    }
  }

  /** Appending an element not yet present keeps a sequence free of duplicates and adds it to the elements. */
  lemma AppendFresh<T>(s: seq<T>, x: T)
    requires NoDuplicates(s) && x !in s
    ensures NoDuplicates(s + [x])
    ensures Elems(s + [x]) == Elems(s) + {x}
  {
    var t := s + [x];
    forall i, j | 0 <= i < j < |t| ensures t[i] != t[j] {
      if j < |s| {
        assert t[i] == s[i] && t[j] == s[j];
      } else {
        assert t[i] == s[i] && t[j] == x;
      }
    }
  }

  /** Moving one element from the rest of all to done keeps rest == all - done. */
  lemma MoveToDone(all: set<int>, done: set<int>, p: int)
    ensures (all - done) - {p} == all - (done + {p})
  {
  }

  /** A non-empty set has an element. */
  lemma NonEmptyHasElement(s: set<int>)
    requires s != {}
    ensures exists x :: x in s
  {
    if forall x :: x !in s {
      assert false;
    }
  }

  /** An injective map has as many distinct values as keys. */
  lemma {:induction false} InjectiveValuesCard(m: map<int, int>)
    requires Injective(m)
    ensures |Range(m)| == |m|
  {
    if m.Keys != {} {
      NonEmptyHasElement(m.Keys);
      var k :| k in m.Keys;
      var rest := m - {k};
      assert Injective(rest);
      InjectiveValuesCard(rest);
      assert Range(m) == Range(rest) + {m[k]} by {
        forall v | v in Range(m) ensures v in Range(rest) + {m[k]} {
          var k' :| k' in m && m[k'] == v;
          if k' != k {
            assert rest[k'] == v;
          }
        }
      }
      assert m[k] !in Range(rest);
      assert m.Keys == rest.Keys + {k};
    }
  }

  /** The integers 0 .. n-1 form a set of n elements. */
  lemma IotaCard(n: nat)
    ensures |Elems(Iota(n))| == n
    ensures forall x :: x in Elems(Iota(n)) <==> 0 <= x < n
  {
    var s := Iota(n);
    forall x | 0 <= x < n ensures x in Elems(s) {
      assert s[x] == x;
    }
    NoDuplicatesCard(s);
  }
}
