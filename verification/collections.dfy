/** Facts about finite collections that the store and handler proofs share. */
module Collections {

  /** The set of elements of a sequence. */
  function Elements<T>(s: seq<T>): set<T> {
    set x | x in s
  }

  /** No element occurs twice. */
  predicate NoDuplicates<T(==)>(s: seq<T>) {
    forall i, j :: 0 <= i < j < |s| ==> s[i] != s[j]
  }

  /** The image of a set under a function. */
  function Image<A, B>(s: set<A>, f: A -> B): set<B> {
    set x | x in s :: f(x)
  }

  predicate InjectiveOn<A, B(==)>(s: set<A>, f: A -> B) {
    forall x, y :: x in s && y in s && f(x) == f(y) ==> x == y
  }

  /** A sequence without repeats has as many distinct elements as it has positions. */
  lemma {:induction false} DistinctElementsCount<T>(s: seq<T>)
    requires NoDuplicates(s)
    ensures |Elements(s)| == |s|
  {
    if s != [] {
      var init := s[..|s| - 1];
      var last := s[|s| - 1];
      assert NoDuplicates(init);
      DistinctElementsCount(init);
      assert Elements(s) == Elements(init) + {last} by {
        forall x | x in Elements(s) ensures x in Elements(init) + {last} {
          var i :| 0 <= i < |s| && s[i] == x;
          if i < |s| - 1 { assert init[i] == x; }
        }
      }
      assert last !in Elements(init);
    }
  }

  /** An image is never larger than the set, and is as large exactly when the function is injective there. */
  lemma {:induction false} ImageCount<A, B>(s: set<A>, f: A -> B)
    ensures |Image(s, f)| <= |s|
    ensures InjectiveOn(s, f) ==> |Image(s, f)| == |s|
    decreases s
  {
    if s != {} {
      var x :| x in s;
      var rest := s - {x};
      ImageCount(rest, f);
      if f(x) in Image(rest, f) {
        assert Image(s, f) == Image(rest, f);
      } else {
        assert Image(s, f) == Image(rest, f) + {f(x)};
      }
    }
  }

  /** A subset is no larger than its superset. */
  lemma {:induction false} SubsetCount<T>(a: set<T>, b: set<T>)
    requires a <= b
    ensures |a| <= |b|
    decreases b
  {
    if a != {} {
      var x :| x in a;
      SubsetCount(a - {x}, b - {x});
    }
  }

  lemma AppendOne<T>(a: seq<T>, b: seq<T>, x: T)
    ensures (a + b) + [x] == a + (b + [x])
  {
  }
}
