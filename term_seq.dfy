/** Insertion-ordered sequences of distinct terms: the abstract value of a
    vocabulary's `data` list, and what `add` and `union` do to it. */
module TermSeq {

  /** The set of terms occurring in `s`. */
  function Elements<T>(s: seq<T>): set<T>
  {
    set x | x in s
  }

  predicate NoDuplicates<T(==)>(s: seq<T>)
  {
    forall i, j :: 0 <= i < j < |s| ==> s[i] != s[j]
  }

  /** One `add`: `x` goes at the end unless it is already there. */
  function Appended<T(==)>(s: seq<T>, x: T): seq<T>
  {
    if x in s then s else s + [x]
  }

  /** `add` applied to every element of `vec`, first to last (`union`). */
  function Folded<T(==)>(s: seq<T>, vec: seq<T>): seq<T>
    decreases |vec|
  {
    if vec == [] then s
    else Appended(Folded(s, vec[..|vec| - 1]), vec[|vec| - 1])
  }

  /** Reference definition of what a union appends: the elements of `vec`
      that `s` lacks, each kept at its first occurrence in `vec`. */
  function FirstNew<T(==)>(s: seq<T>, vec: seq<T>): seq<T>
    decreases |vec|
  {
    if vec == [] then []
    else
      var prefix, x := vec[..|vec| - 1], vec[|vec| - 1];
      FirstNew(s, prefix) + (if x in s || x in prefix then [] else [x])
  }

  /** A sequence without duplicates has as many distinct elements as entries. */
  lemma {:induction false} DistinctCardinality<T>(s: seq<T>)
    requires NoDuplicates(s)
    ensures |Elements(s)| == |s|
  {
    if s != [] {
      var prefix, x := s[..|s| - 1], s[|s| - 1];
      assert s == prefix + [x];
      assert NoDuplicates(prefix);
      DistinctCardinality(prefix);
      assert Elements(s) == Elements(prefix) + {x};
      assert x !in Elements(prefix);
    }
  }

  /** A union keeps the old terms as a prefix, adds exactly the terms of
      `vec`, and introduces no duplicate. */
  lemma {:induction false} FoldedElements<T>(s: seq<T>, vec: seq<T>)
    ensures Elements(Folded(s, vec)) == Elements(s) + Elements(vec)
    ensures |s| <= |Folded(s, vec)| && Folded(s, vec)[..|s|] == s
    ensures NoDuplicates(s) ==> NoDuplicates(Folded(s, vec))
    decreases |vec|
  {
    if vec != [] {
      var prefix, x := vec[..|vec| - 1], vec[|vec| - 1];
      assert vec == prefix + [x];
      FoldedElements(s, prefix);
      var f := Folded(s, prefix);
      assert Elements(vec) == Elements(prefix) + {x};
      if x !in f {
        assert Elements(f + [x]) == Elements(f) + {x};
        assert (f + [x])[..|s|] == f[..|s|];
      }
    }
  }

  /** `union` appends to the old terms exactly the first occurrences of the
      new terms of `vec`, in the order of `vec`. */
  lemma {:induction false} FoldedIsFirstNew<T>(s: seq<T>, vec: seq<T>)
    ensures Folded(s, vec) == s + FirstNew(s, vec)
    decreases |vec|
  {
    if vec != [] {
      var prefix, x := vec[..|vec| - 1], vec[|vec| - 1];
      FoldedIsFirstNew(s, prefix);
      FoldedElements(s, prefix);
      assert x in Folded(s, prefix) <==> x in Elements(Folded(s, prefix));
      assert x in prefix <==> x in Elements(prefix);
    }
  }

  /** Folding two sequences one after the other is folding their concatenation. */
  lemma {:induction false} FoldedConcat<T>(s: seq<T>, v1: seq<T>, v2: seq<T>)
    ensures Folded(s, v1 + v2) == Folded(Folded(s, v1), v2)
    decreases |v2|
  {
    if v2 == [] {
      assert v1 + v2 == v1;
    } else {
      var prefix := v2[..|v2| - 1];
      assert (v1 + v2)[..|v1 + v2| - 1] == v1 + prefix;
      FoldedConcat(s, v1, prefix);
    }
  }

  /** Adding terms that are all present already changes nothing. */
  lemma {:induction false} FoldedKnown<T>(s: seq<T>, vec: seq<T>)
    requires Elements(vec) <= Elements(s)
    ensures Folded(s, vec) == s
    decreases |vec|
  {
    if vec != [] {
      var prefix, x := vec[..|vec| - 1], vec[|vec| - 1];
      assert vec == prefix + [x];
      assert Elements(vec) == Elements(prefix) + {x};
      FoldedKnown(s, prefix);
    }
  }

  /** `union` is idempotent: a second union with the same terms is a no-op. */
  lemma UnionIdempotent<T>(s: seq<T>, vec: seq<T>)
    ensures Folded(Folded(s, vec), vec) == Folded(s, vec)
  {
    FoldedElements(s, vec);
    FoldedKnown(Folded(s, vec), vec);
  }

  /** Uniting with the vocabulary of `vec` is uniting with `vec` itself: the
      duplicates that the inner vocabulary drops would have been skipped anyway. */
  lemma {:induction false} FoldedDedup<T>(s: seq<T>, vec: seq<T>)
    ensures Folded(s, Folded([], vec)) == Folded(s, vec)
    decreases |vec|
  {
    if vec != [] {
      var prefix, x := vec[..|vec| - 1], vec[|vec| - 1];
      var inner := Folded([], prefix);
      FoldedDedup(s, prefix);
      FoldedElements([], prefix);
      FoldedElements(s, prefix);
      assert x in inner <==> x in Elements(inner);
      assert x in prefix <==> x in Elements(prefix);
      assert x in Folded(s, prefix) <==> x in Elements(Folded(s, prefix));
      if x !in prefix {
        var grown := inner + [x];
        assert grown[..|grown| - 1] == inner;
      }
    }
  }
}
