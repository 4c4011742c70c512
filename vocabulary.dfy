/** The `Vocabulary` class of src/vocabulary.py: an insertion-ordered set of
    unique terms, the vectoriser, and the matrix builders over it.

    The tokenizer (`text_to_words`, a spaCy pipeline) is passed in as the
    function `tokenize`, and `math.log10` as the function `log10`. */
module Vocabularies {
  import opened Results
  import opened TermSeq
  import opened Counts
  import opened Matrices

  /** The tokens of all sentences: sentence order, then token order. */
  function AllTokens<T>(tokenize: string -> seq<T>, sentences: seq<string>): seq<T>
    decreases |sentences|
  {
    if sentences == [] then []
    else AllTokens(tokenize, sentences[..|sentences| - 1]) + tokenize(sentences[|sentences| - 1])
  }

  /** The terms `texts_to_vocabulary` collects: `add` folded over all tokens. */
  function CorpusTerms<T(==)>(tokenize: string -> seq<T>, sentences: seq<string>): seq<T>
  {
    Folded([], AllTokens(tokenize, sentences))
  }

  class Vocabulary<T(==)> {
    var data: seq<T>
    var unique: set<T>
    var position: map<T, int>

    /** The three fields describe the same insertion-ordered set of terms. */
    ghost predicate Valid()
      reads this
    {
      && NoDuplicates(data)
      && unique == Elements(data)
      && position.Keys == unique
      && forall i :: 0 <= i < |data| ==> data[i] in position && position[data[i]] == i
    }

    constructor ()
      ensures Valid()
      ensures data == [] && unique == {} && position == map[]
    {
      data := [];
      unique := {};
      position := map[];
    }

    /** `__len__`: the number of distinct terms. */
    function Length(): (n: nat)
      reads this
      requires Valid()
      ensures n == |unique|
    {
      DistinctCardinality(data);
      |data|
    }

    /** `index`: the position of `item`, or `None` where the dict lookup
        raises `KeyError`. */
    function Index(item: T): (r: Option<int>)
      reads this
      requires Valid()
      ensures r.Some? <==> item in unique
      ensures r.Some? ==> 0 <= r.value < |data| && data[r.value] == item
    {
      if item in position then Some(position[item]) else None
    }

    /** `add`: a term already present changes nothing; a new term goes at the
        end, with the old length as its position. */
    method Add(x: T)
      requires Valid()
      modifies this
      ensures Valid()
      ensures x in old(unique) ==>
        data == old(data) && unique == old(unique) && position == old(position)
      ensures x !in old(unique) ==>
        && data == old(data) + [x]
        && unique == old(unique) + {x}
        && position == old(position)[x := old(|data|)]
      ensures data == Appended(old(data), x)
    {
      if x in unique {
        return;
      }
      position := position[x := |data|];
      unique := unique + {x};
      data := data + [x];
      assert Elements(data) == Elements(old(data)) + {x};
    }

    /** `union`: `add` for every element of `vec` in order, which appends the
        first occurrences of the terms not yet present. */
    method Union(vec: seq<T>)
      requires Valid()
      modifies this
      ensures Valid()
      ensures data == Folded(old(data), vec)
      ensures data == old(data) + FirstNew(old(data), vec)
      ensures unique == old(unique) + Elements(vec)
    {
      for i := 0 to |vec|
        invariant Valid()
        invariant data == Folded(old(data), vec[..i])
      {
        assert vec[..i + 1][..i] == vec[..i];
        Add(vec[i]);
      }
      assert vec[..|vec|] == vec;
      FoldedIsFirstNew(old(data), vec);
      FoldedElements(old(data), vec);
    }

    /** `vectorize`: one count per term, in index order; raises `KeyError` on
        the first token that is not a term. */
    method Vectorize(tokenize: string -> seq<T>, text: string) returns (r: Result<seq<int>, Error<T>>)
      requires Valid()
      ensures r == VectorOf(data, unique, tokenize(text))
    {
      var vector := new int[|data|](_ => 0);
      var words := tokenize(text);
      for k := 0 to |words|
        invariant vector[..] == CountVector(data, words[..k])
        invariant forall j :: 0 <= j < k ==> words[j] in unique
      {
        var idx := Index(words[k]);
        if idx.None? {
          return Failure(KeyError(words[k]));
        }
        CountVectorSnoc(data, words[..k], words[k], idx.value);
        assert words[..k + 1] == words[..k] + [words[k]];
        vector[idx.value] := vector[idx.value] + 1;
      }
      assert words[..|words|] == words;
      r := Success(vector[..]);
    }

    /** `to_matrix`: the document-term matrix, row `i` the count vector of
        `sentences[i]`. */
    method ToMatrix(tokenize: string -> seq<T>, sentences: seq<string>) returns (r: Result<seq<seq<int>>, Error<T>>)
      requires Valid()
      ensures r == Stack(sentences, VectorRow(data, unique, tokenize))
    {
      var rows: seq<seq<int>> := [];
      for i := 0 to |sentences|
        invariant Stack(sentences[..i], VectorRow(data, unique, tokenize)) == Success(rows)
      {
        var vector := Vectorize(tokenize, sentences[i]);
        if vector.Failure? {
          StackFailsEarly(sentences, VectorRow(data, unique, tokenize), i + 1);
          assert sentences[..i + 1][..i] == sentences[..i];
          return Failure(vector.error);
        }
        StackGrows(sentences, VectorRow(data, unique, tokenize), i, rows);
        rows := rows + [vector.value];
      }
      assert sentences[..|sentences|] == sentences;
      r := Success(rows);
    }

    /** `to_tf`: each count over its row's total, with no guard against a
        zero total. */
    method ToTf(tokenize: string -> seq<T>, sentences: seq<string>) returns (r: Result<seq<seq<real>>, Error<T>>)
      requires Valid()
      ensures r == Stack(sentences, TfRow(data, unique, tokenize))
    {
      var rows: seq<seq<real>> := [];
      for i := 0 to |sentences|
        invariant Stack(sentences[..i], TfRow(data, unique, tokenize)) == Success(rows)
      {
        var vector := Vectorize(tokenize, sentences[i]);
        var row: Result<seq<real>, Error<T>>;
        if vector.Failure? {
          row := Failure(vector.error);
        } else {
          row := TfOf(vector.value);
        }
        if row.Failure? {
          StackFailsEarly(sentences, TfRow(data, unique, tokenize), i + 1);
          assert sentences[..i + 1][..i] == sentences[..i];
          return Failure(row.error);
        }
        StackGrows(sentences, TfRow(data, unique, tokenize), i, rows);
        rows := rows + [row.value];
      }
      assert sentences[..|sentences|] == sentences;
      r := Success(rows);
    }

    /** `to_idf`: each count mapped by `idf`, with the number of sentences as
        the numerator. */
    method ToIdf(tokenize: string -> seq<T>, sentences: seq<string>, log10: real -> real) returns (r: Result<seq<seq<real>>, Error<T>>)
      requires Valid()
      ensures r == Stack(sentences, IdfRow(data, unique, tokenize, |sentences|, log10))
    {
      var nDoc := |sentences|;
      var rows: seq<seq<real>> := [];
      for i := 0 to |sentences|
        invariant Stack(sentences[..i], IdfRow(data, unique, tokenize, nDoc, log10)) == Success(rows)
      {
        var vector := Vectorize(tokenize, sentences[i]);
        if vector.Failure? {
          StackFailsEarly(sentences, IdfRow(data, unique, tokenize, nDoc, log10), i + 1);
          assert sentences[..i + 1][..i] == sentences[..i];
          return Failure(vector.error);
        }
        StackGrows(sentences, IdfRow(data, unique, tokenize, nDoc, log10), i, rows);
        rows := rows + [IdfCells(vector.value, nDoc, log10)];
      }
      assert sentences[..|sentences|] == sentences;
      r := Success(rows);
    }

    /** `text_to_vocabulary`: the distinct tokens of one text, first-seen order. */
    static method TextToVocabulary(tokenize: string -> seq<T>, text: string) returns (words: Vocabulary<T>)
      ensures fresh(words) && words.Valid()
      ensures words.data == Folded([], tokenize(text))
    {
      words := new Vocabulary();
      var tokens := tokenize(text);
      for k := 0 to |tokens|
        invariant fresh(words) && words.Valid()
        invariant words.data == Folded([], tokens[..k])
      {
        assert tokens[..k + 1][..k] == tokens[..k];
        words.Add(tokens[k]);
      }
      assert tokens[..|tokens|] == tokens;
    }

    /** `texts_to_vocabulary`: each sentence's vocabulary united into a fresh
        one, which is the vocabulary of all tokens of all sentences. */
    static method TextsToVocabulary(tokenize: string -> seq<T>, sentences: seq<string>) returns (words: Vocabulary<T>)
      ensures fresh(words) && words.Valid()
      ensures words.data == CorpusTerms(tokenize, sentences)
    {
      words := new Vocabulary();
      for i := 0 to |sentences|
        invariant fresh(words) && words.Valid()
        invariant words.data == CorpusTerms(tokenize, sentences[..i])
      {
        var sentence := TextToVocabulary(tokenize, sentences[i]);
        ghost var before := words.data;
        words.Union(sentence.data);
        FoldedDedup(before, tokenize(sentences[i]));
        FoldedConcat([], AllTokens(tokenize, sentences[..i]), tokenize(sentences[i]));
        assert sentences[..i + 1][..i] == sentences[..i];
      }
      assert sentences[..|sentences|] == sentences;
    }
  }
}
