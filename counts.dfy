/** Count vectors: what `vectorize` computes for one tokenised text. */
module Counts {
  import opened Results
  import opened TermSeq

  /** Number of occurrences of `x` in `s`. */
  function Count<T(==)>(s: seq<T>, x: T): nat
    decreases |s|
  {
    if s == [] then 0
    else Count(s[..|s| - 1], x) + (if s[|s| - 1] == x then 1 else 0)
  }

  /** Entry `i` counts the occurrences of `terms[i]` among `words`. */
  function CountVector<T(==)>(terms: seq<T>, words: seq<T>): seq<int>
  {
    seq(|terms|, i requires 0 <= i < |terms| => Count(words, terms[i]))
  }

  /** Python's `sum` of an integer list. */
  function Sum(v: seq<int>): int
  {
    if v == [] then 0 else v[0] + Sum(v[1..])
  }

  /** Index of the first word that is not a known term, if any: the word on
      which `vectorize` raises `KeyError`. */
  function FirstMissing<T(==)>(words: seq<T>, known: set<T>): (m: Option<nat>)
    ensures m.None? <==> forall j :: 0 <= j < |words| ==> words[j] in known
    ensures m.Some? ==>
      && m.value < |words|
      && words[m.value] !in known
      && forall j :: 0 <= j < m.value ==> words[j] in known
  {
    if words == [] then None
    else if words[0] !in known then Some(0)
    else match FirstMissing(words[1..], known)
      case None => None
      case Some(k) => Some(k + 1)
  }

  /** The result of `vectorize` for a text whose tokens are `words`, against a
      vocabulary whose terms are `terms` and whose `unique` set is `known`. */
  function VectorOf<T(==)>(terms: seq<T>, known: set<T>, words: seq<T>): (r: Result<seq<int>, Error<T>>)
    ensures r.Success? <==> forall j :: 0 <= j < |words| ==> words[j] in known
    ensures r.Success? ==>
      && |r.value| == |terms|
      && forall i :: 0 <= i < |terms| ==> r.value[i] == Count(words, terms[i])
    ensures r.Failure? ==>
      exists k :: && 0 <= k < |words|
                  && words[k] !in known
                  && r.error == KeyError(words[k])
                  && forall j :: 0 <= j < k ==> words[j] in known
  {
    match FirstMissing(words, known)
    case Some(k) => Failure(KeyError(words[k]))
    case None => Success(CountVector(terms, words))
  }

  /** One more word increments exactly the entry of its term. */
  lemma CountVectorSnoc<T>(terms: seq<T>, words: seq<T>, x: T, k: nat)
    requires NoDuplicates(terms) && k < |terms| && terms[k] == x
    ensures CountVector(terms, words + [x])
         == CountVector(terms, words)[k := CountVector(terms, words)[k] + 1]
  {
  }

  lemma {:induction false} SumIncrement(v: seq<int>, k: nat)
    requires k < |v|
    ensures Sum(v[k := v[k] + 1]) == Sum(v) + 1
  {
    if k > 0 {
      assert v[k := v[k] + 1][1..] == v[1..][k - 1 := v[k] + 1];
      SumIncrement(v[1..], k - 1);
    } else {
      assert v[k := v[k] + 1][1..] == v[1..];
    }
  }

  lemma SumZeros(n: nat)
    ensures Sum(seq(n, _ => 0)) == 0
  {
    if n > 0 {
      assert seq(n, _ => 0)[1..] == seq(n - 1, _ => 0);
      SumZeros(n - 1);
    }
  }

  /** When every word is a term, the counts add up to the number of words. */
  lemma {:induction false} SumCountVector<T>(terms: seq<T>, words: seq<T>)
    requires NoDuplicates(terms)
    requires forall j :: 0 <= j < |words| ==> words[j] in terms
    ensures Sum(CountVector(terms, words)) == |words|
    decreases |words|
  {
    if words == [] {
      assert CountVector(terms, words) == seq(|terms|, _ => 0);
      SumZeros(|terms|);
    } else {
      var prefix, x := words[..|words| - 1], words[|words| - 1];
      assert words == prefix + [x];
      SumCountVector(terms, prefix);
      var k :| 0 <= k < |terms| && terms[k] == x;
      CountVectorSnoc(terms, prefix, x, k);
      SumIncrement(CountVector(terms, prefix), k);
    }
  }

  /** `vectorize` succeeds exactly when every token is a known term; it then
      has one entry per term, entry `i` counts `terms[i]`, and the entries add
      up to the number of tokens. Otherwise it raises `KeyError` on the first
      unknown token. */
  lemma VectorOfMeaning<T>(terms: seq<T>, words: seq<T>)
    requires NoDuplicates(terms)
    ensures var r := VectorOf(terms, Elements(terms), words);
      && (r.Success? <==> forall j :: 0 <= j < |words| ==> words[j] in terms)
      && (r.Success? ==>
            && |r.value| == |terms|
            && (forall i :: 0 <= i < |terms| ==> r.value[i] == Count(words, terms[i]))
            && Sum(r.value) == |words|)
      && (r.Failure? ==> exists k :: 0 <= k < |words| && words[k] !in terms && r.error == KeyError(words[k]))
  {
    var r := VectorOf(terms, Elements(terms), words);
    if r.Success? {
      SumCountVector(terms, words);
    }
  }
}
