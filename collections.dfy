/**
 * Facts about sequences, sets and maps that the other modules share: the
 * elements of a sequence, duplicate-freedom, and the cardinalities the
 * emitter's counting arguments need.
 */
module Collections {

  predicate NoDuplicates<T(==)>(s: seq<T>) {
    forall i, j :: 0 <= i < j < |s| ==> s[i] != s[j]
  }

  /** The elements of a sequence. */
  ghost function Elements<T>(s: seq<T>): set<T> {
    set x | x in s
  }

  lemma ElementsSnoc<T>(s: seq<T>, j: nat)
    requires j < |s|
    ensures Elements(s[..j + 1]) == Elements(s[..j]) + {s[j]}
  {
    assert s[..j + 1] == s[..j] + [s[j]];
  }

  lemma SingletonElements<T>(s: seq<T>, x: T)
    requires |s| == 1 && Elements(s) == {x}
    ensures s == [x]
  {
    assert s[0] in Elements(s);
  }

  lemma MapRemoveTwice<K, V>(m: map<K, V>, a: set<K>, k: K)
    ensures m - a - {k} == m - (a + {k})
  {
  }

  lemma SetAbsorb<T>(a: set<T>, x: T)
    requires x in a
    ensures a + {x} == a
  {
  }

  lemma UnionSingletons<T>(x: T, y: T)
    ensures {} + {x} == {x}
    ensures {x} + {y} == {x, y}
  {
  }

  lemma CardinalityOne<T>(s: set<T>, x: T)
    requires s == {x}
    ensures |s| == 1
  {
  }

  lemma CardinalityTwo<T>(s: set<T>, x: T, y: T)
    requires x != y && x in s && y in s
    requires forall z :: z in s ==> z == x || z == y
    ensures |s| == 2
  {
    assert s == {x, y};
  }

  /** A sequence without duplicates has as many elements as the set of its elements. */
  lemma {:induction false} DistinctCardinality<T>(s: seq<T>)
    requires NoDuplicates(s)
    ensures |set x | x in s| == |s|
  {
    if s != [] {
      var init := s[..|s| - 1];
      assert NoDuplicates(init);
      DistinctCardinality(init);
      assert (set x | x in s) == (set x | x in init) + {s[|s| - 1]};
      assert s[|s| - 1] !in init;
    }
  }

  /** An injective image of a finite set has as many elements as the set. */
  lemma {:induction false} InjectiveImageCardinality<A, B>(s: set<A>, f: A -> B, image: set<B>)
    requires forall x, y :: x in s && y in s && f(x) == f(y) ==> x == y
    requires forall x :: x in s ==> f(x) in image
    requires forall y :: y in image ==> exists x :: x in s && f(x) == y
    ensures |image| == |s|
    decreases s
  {
    if s != {} {
      var x :| x in s;
      var rest := s - {x};
      forall y | y in image - {f(x)}
        ensures exists z :: z in rest && f(z) == y
      {
        var z :| z in s && f(z) == y;
      }
      InjectiveImageCardinality(rest, f, image - {f(x)});
    } else {
      assert forall y :: y !in image;
    }
  }
}
