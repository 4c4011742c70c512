/** What the builders give when the vocabulary is built from the very
    sentences they are applied to, as src/main.py does. */
module Pipeline {
  import opened Results
  import opened TermSeq
  import opened Counts
  import opened Matrices
  import opened Vocabularies

  /** A token of the corpus is a token of one of its sentences. */
  lemma {:induction false} AllTokensMembers<T>(tokenize: string -> seq<T>, sentences: seq<string>, x: T)
    ensures x in AllTokens(tokenize, sentences) <==>
            exists i :: 0 <= i < |sentences| && x in tokenize(sentences[i])
    decreases |sentences|
  {
    if sentences != [] {
      var prefix, last := sentences[..|sentences| - 1], sentences[|sentences| - 1];
      AllTokensMembers(tokenize, prefix, x);
      if x in AllTokens(tokenize, sentences) {
        if x in AllTokens(tokenize, prefix) {
          var i :| 0 <= i < |prefix| && x in tokenize(prefix[i]);
          assert prefix[i] == sentences[i];
        } else {
          assert x in tokenize(sentences[|sentences| - 1]);
        }
      } else {
        forall i | 0 <= i < |sentences|
          ensures x !in tokenize(sentences[i])
        {
          if i < |prefix| {
            assert prefix[i] == sentences[i];
          }
        }
      }
    }
  }

  /** `texts_to_vocabulary` holds no term twice. */
  lemma CorpusVocabularyDistinct<T>(tokenize: string -> seq<T>, sentences: seq<string>)
    ensures NoDuplicates(CorpusTerms(tokenize, sentences))
  {
    FoldedElements([], AllTokens(tokenize, sentences));
  }

  /** `texts_to_vocabulary` keeps each term at its first occurrence in
      sentence order, then token order. */
  lemma CorpusVocabularyFirstSeen<T>(tokenize: string -> seq<T>, sentences: seq<string>)
    ensures CorpusTerms(tokenize, sentences) == FirstNew([], AllTokens(tokenize, sentences))
  {
    FoldedIsFirstNew([], AllTokens(tokenize, sentences));
  }

  /** `texts_to_vocabulary` holds every token of every sentence and nothing else. */
  lemma CorpusVocabularyMembers<T>(tokenize: string -> seq<T>, sentences: seq<string>)
    ensures forall x :: x in CorpusTerms(tokenize, sentences) <==>
                        exists i :: 0 <= i < |sentences| && x in tokenize(sentences[i])
  {
    var all := AllTokens(tokenize, sentences);
    FoldedElements([], all);
    forall x
      ensures x in CorpusTerms(tokenize, sentences) <==>
              exists i :: 0 <= i < |sentences| && x in tokenize(sentences[i])
    {
      AllTokensMembers(tokenize, sentences, x);
      assert x in CorpusTerms(tokenize, sentences) <==> x in Elements(CorpusTerms(tokenize, sentences));
      assert x in all <==> x in Elements(all);
    }
  }

  /** Every token of a corpus sentence is a term of the corpus vocabulary, so
      no row raises `KeyError`. */
  lemma CorpusCovers<T>(tokenize: string -> seq<T>, sentences: seq<string>, i: nat)
    requires i < |sentences|
    ensures NoDuplicates(CorpusTerms(tokenize, sentences))
    ensures forall j :: 0 <= j < |tokenize(sentences[i])| ==>
              tokenize(sentences[i])[j] in CorpusTerms(tokenize, sentences)
  {
    CorpusVocabularyDistinct(tokenize, sentences);
    var words := tokenize(sentences[i]);
    forall j | 0 <= j < |words|
      ensures words[j] in CorpusTerms(tokenize, sentences)
    {
      assert words[j] in tokenize(sentences[i]);
      AllTokensMembers(tokenize, sentences, words[j]);
      FoldedElements([], AllTokens(tokenize, sentences));
      assert words[j] in Elements(CorpusTerms(tokenize, sentences));
    }
  }

  /** The document-term matrix of a corpus against its own vocabulary: one
      row per sentence, one column per term, cell `(i, j)` the number of
      occurrences of term `j` in sentence `i`, and row `i` summing to the
      number of tokens of sentence `i`. */
  lemma CorpusMatrix<T>(tokenize: string -> seq<T>, sentences: seq<string>)
    ensures var terms := CorpusTerms(tokenize, sentences);
      var r := Stack(sentences, VectorRow(terms, Elements(terms), tokenize));
      && r.Success?
      && |r.value| == |sentences|
      && forall i :: 0 <= i < |sentences| ==>
           && |r.value[i]| == |terms|
           && (forall j :: 0 <= j < |terms| ==> r.value[i][j] == Count(tokenize(sentences[i]), terms[j]))
           && Sum(r.value[i]) == |tokenize(sentences[i])|
  {
    var terms := CorpusTerms(tokenize, sentences);
    forall i | 0 <= i < |sentences|
      ensures VectorRow(terms, Elements(terms), tokenize)(sentences[i]).Success?
      ensures Sum(VectorRow(terms, Elements(terms), tokenize)(sentences[i]).value) == |tokenize(sentences[i])|
    {
      CorpusCovers(tokenize, sentences, i);
      VectorOfMeaning(terms, tokenize(sentences[i]));
    }
  }

  /** The TF matrix of a corpus against its own vocabulary raises
      `ZeroDivisionError` exactly when the vocabulary is non-empty and some
      sentence has no token; otherwise cell `(i, j)` is the count of term `j`
      in sentence `i` over the sentence's number of tokens, and the row of a
      sentence with tokens sums to one. */
  lemma CorpusTf<T>(tokenize: string -> seq<T>, sentences: seq<string>)
    ensures var terms := CorpusTerms(tokenize, sentences);
      var r := Stack(sentences, TfRow(terms, Elements(terms), tokenize));
      && (r.Failure? <==> terms != [] && exists i :: 0 <= i < |sentences| && tokenize(sentences[i]) == [])
      && (r.Failure? ==> r.error == ZeroDivisionError)
      && (r.Success? ==>
            && |r.value| == |sentences|
            && forall i :: 0 <= i < |sentences| ==>
                 && |r.value[i]| == |terms|
                 && (forall j :: 0 <= j < |terms| ==>
                       r.value[i][j] == Count(tokenize(sentences[i]), terms[j]) as real / |tokenize(sentences[i])| as real)
                 && (tokenize(sentences[i]) != [] ==> SumReal(r.value[i]) == 1.0))
  {
    var terms := CorpusTerms(tokenize, sentences);
    var row := TfRow(terms, Elements(terms), tokenize);
    forall i | 0 <= i < |sentences|
      ensures var words := tokenize(sentences[i]);
        && (row(sentences[i]).Failure? <==> terms != [] && words == [])
        && (row(sentences[i]).Failure? ==> row(sentences[i]).error == ZeroDivisionError)
        && (row(sentences[i]).Success? ==>
              && |row(sentences[i]).value| == |terms|
              && (forall j :: 0 <= j < |terms| ==>
                    row(sentences[i]).value[j] == Count(words, terms[j]) as real / |words| as real)
              && (words != [] ==> SumReal(row(sentences[i]).value) == 1.0))
    {
      var words := tokenize(sentences[i]);
      CorpusCovers(tokenize, sentences, i);
      VectorOfMeaning(terms, words);
      var v := CountVector(terms, words);
      assert VectorOf(terms, Elements(terms), words) == Success(v);
    }
  }

  /** No row of the IDF matrix of a corpus against its own vocabulary raises
      `KeyError`, and the matrix has one row of one cell per term for each
      sentence. */
  lemma CorpusIdfShape<T>(tokenize: string -> seq<T>, sentences: seq<string>, log10: real -> real)
    ensures var terms := CorpusTerms(tokenize, sentences);
      var r := Stack(sentences, IdfRow(terms, Elements(terms), tokenize, |sentences|, log10));
      && r.Success?
      && |r.value| == |sentences|
      && forall i :: 0 <= i < |sentences| ==> |r.value[i]| == |terms|
  {
    var terms := CorpusTerms(tokenize, sentences);
    forall i | 0 <= i < |sentences|
      ensures IdfRow(terms, Elements(terms), tokenize, |sentences|, log10)(sentences[i]).Success?
    {
      CorpusCovers(tokenize, sentences, i);
    }
  }

  /** Cell `(i, j)` of the IDF matrix is `0.0` when term `j` does not occur
      in sentence `i`, otherwise `log10(n / c)` for `n` sentences and `c`
      occurrences of the term in that same sentence. */
  lemma CorpusIdfCell<T>(tokenize: string -> seq<T>, sentences: seq<string>, log10: real -> real, i: nat, j: nat)
    requires i < |sentences| && j < |CorpusTerms(tokenize, sentences)|
    ensures var terms := CorpusTerms(tokenize, sentences);
      var r := Stack(sentences, IdfRow(terms, Elements(terms), tokenize, |sentences|, log10));
      var c := Count(tokenize(sentences[i]), terms[j]);
      r.Success? && r.value[i][j] == if c == 0 then 0.0 else log10(|sentences| as real / c as real)
  {
    CorpusIdfShape(tokenize, sentences, log10);
  }
}
