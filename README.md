# Vocabulary and vectorisation engine of tf-idf-cosine, in Dafny

This project models the `Vocabulary` class of `src/vocabulary.py` and proves
properties about it. The class is an insertion-ordered set of unique terms
that turns sentences into bag-of-words count vectors and then into
document-term, term-frequency (TF) and inverse-document-frequency (IDF)
matrices.

- `Vocabularies.Vocabulary<T>` is a class. It keeps the source's three
  parallel fields: `data: seq<T>`, `unique: set<T>` and `position: map<T, int>`.
  `Valid()` is their representation invariant:
  - `data` has no duplicates;
  - `unique` is the set of elements of `data`;
  - the keys of `position` are `unique`;
  - `position[data[i]] == i` for every `i`.

  `add` and `union` change these fields in place (`modifies this`), and the
  static builders fold tokenised sentences into a fresh vocabulary.
- `TermSeq` gives the abstract value of `data` under `add` (`Appended`) and
  `union` (`Folded`). It also gives an independent reference for what a union
  appends (`FirstNew`: the first occurrences of the new terms).
- `Counts` gives the specification of `vectorize`: per-term counts, and the
  first unknown token on which the dict lookup raises `KeyError`.
- `Matrices` gives the row-by-row construction of a matrix (`Stack`). A
  matrix is a `seq` of rows. Sequence row `i` is the DataFrame's row `i + 1`,
  and the columns follow `data`. Next to it are the row functions of the
  three builders (`VectorRow`, `TfRow`, `IdfRow`), the nested helpers `tf`
  and `idf`, and the TF row of a count vector (`TfOf`).
- `Vocabularies` holds the class and `CorpusTerms`, the terms
  `texts_to_vocabulary` collects.
- `Pipeline` states what the builders produce when the vocabulary comes from
  the same sentences, which is how `src/main.py` uses them.

The exceptions raised by the vocabulary code itself are values:
`Result<_, Error<T>>` with `Error = KeyError(term) | ZeroDivisionError`.
Exceptions raised inside pandas are not modelled (see "Left out").
The tokenizer `text_to_words` and `math.log10` are passed in as function
parameters (`tokenize: string -> seq<T>`, `log10: real -> real`). As a result,
every property holds for any tokenizer and any logarithm.

`to_tf` has no zero guard: `tf(t, 0)` raises `ZeroDivisionError` as soon as
the row has a cell (src/vocabulary.py:69-77). `Matrices.TfOf` and
`Pipeline.CorpusTf` model and state the raise.

## Model

| member | source | states |
|---|---|---|
| `Vocabularies.Vocabulary.constructor` | src/vocabulary.py:23-26 | a new vocabulary is empty in all three fields and satisfies the invariant |
| `Vocabularies.Vocabulary.Length` | src/vocabulary.py:31-32 | `len` is the number of distinct terms held, the size of `unique` |
| `Vocabularies.Vocabulary.Index` | src/vocabulary.py:37-38 | the lookup succeeds exactly for terms in `unique`, and then gives a position `< len` holding that term; otherwise it is the `KeyError` case |
| `Vocabularies.Vocabulary.Add` | src/vocabulary.py:40-45 | a present term leaves `data`, `unique` and `position` unchanged; a new term is appended, gets the old length as its position, and joins `unique`; the invariant is kept |
| `Vocabularies.Vocabulary.Union` | src/vocabulary.py:47-50 | `union` is `add` folded over `vec` in order, so the new `data` is the old one followed by the first occurrences of the terms it lacked, and `unique` gains exactly the elements of `vec`; the invariant is kept |
| `Vocabularies.Vocabulary.Vectorize` | src/vocabulary.py:52-56 | the in-place counting loop yields the count vector of the tokens, or `KeyError` on the first token that is not a term |
| `Vocabularies.Vocabulary.ToMatrix` | src/vocabulary.py:58-65 | one row per sentence, row `i` the result of `vectorize(sentences[i])`; the first raising sentence aborts the whole matrix with its exception |
| `Vocabularies.Vocabulary.ToTf` | src/vocabulary.py:67-78 | each row is the sentence's count vector with every cell divided by the row total; a raise in `vectorize` or in `tf` aborts the matrix |
| `Vocabularies.Vocabulary.ToIdf` | src/vocabulary.py:80-94 | each row maps the sentence's counts through `idf`, with the number of sentences as `n_doc` |
| `Vocabularies.Vocabulary.TextToVocabulary` | src/vocabulary.py:96-102 | a fresh valid vocabulary holding the text's tokens folded in by `add`, in first-seen order |
| `Vocabularies.Vocabulary.TextsToVocabulary` | src/vocabulary.py:104-109 | uniting the per-sentence vocabularies gives the fold of `add` over all tokens of all sentences, in sentence order then token order |
| `TermSeq.DistinctCardinality` | src/vocabulary.py:31-32 | a duplicate-free `data` has as many distinct elements as entries, so `len(data)` counts the terms |
| `TermSeq.FoldedElements` | src/vocabulary.py:47-50 | a union keeps the old terms as a prefix, adds exactly the elements of `vec`, and creates no duplicate |
| `TermSeq.FoldedIsFirstNew` | src/vocabulary.py:47-50 | folding `add` equals the old terms followed by the reference filter: the elements of `vec` not already present, each at its first occurrence |
| `TermSeq.FoldedConcat` | src/vocabulary.py:47-50 | two unions in a row equal one union with the concatenation |
| `TermSeq.FoldedKnown` | src/vocabulary.py:40-42 | adding terms that are all present changes nothing |
| `TermSeq.UnionIdempotent` | src/vocabulary.py:47-50 | a second union with the same terms leaves the vocabulary unchanged |
| `TermSeq.FoldedDedup` | src/vocabulary.py:104-109 | uniting with a sentence's vocabulary is the same as uniting with the sentence's tokens |
| `Counts.FirstMissing` | src/vocabulary.py:54-55 | the index of the first token absent from `unique`, and none exactly when every token is present |
| `Counts.CountVectorSnoc` | src/vocabulary.py:55 | one more token increments exactly the entry at its term's position |
| `Counts.SumCountVector` | src/vocabulary.py:52-56 | when every token is a term, the counts add up to the number of tokens |
| `Counts.VectorOf` | src/vocabulary.py:52-56 | the result of `vectorize` succeeds iff every token is in `unique`; it then has one entry per term with entry `i` the count of `data[i]`; otherwise it is `KeyError` on the first token not in `unique` |
| `Counts.VectorOfMeaning` | src/vocabulary.py:52-56 | `vectorize` succeeds iff every token is a term; it then has length `len(data)`, entry `i` counts `data[i]`, and the entries sum to the token count; otherwise it raises `KeyError` on an unknown token |
| `Matrices.Stack` | src/vocabulary.py:61-64 | a matrix built row by row succeeds iff every row does, then has one row per sentence with row `i` the `i`-th sentence's row; otherwise it carries the exception of the first raising row |
| `Matrices.StackFailsEarly` | src/vocabulary.py:61-64 | once a sentence raises, the builder's result is that exception whatever follows |
| `Matrices.Tf` | src/vocabulary.py:69-70 | for a nonzero total `d`, `tf(t, d)` is the quotient: times `d` it gives back `t` |
| `Matrices.Idf` | src/vocabulary.py:84-86 | `idf(n_doc, t)` is `0.0` for `t == 0`, otherwise `log10` of the quotient `x` with `x * t == n_doc` |
| `Matrices.SumTfCells` | src/vocabulary.py:69-77 | dividing every cell by the same nonzero total divides the row sum by it |
| `Matrices.TfOf` | src/vocabulary.py:76-77 | a TF row raises `ZeroDivisionError` iff the row has cells and a zero total; otherwise it keeps the length, each cell times the row total is the count, and it sums to one when the total is nonzero |
| `Pipeline.AllTokensMembers` | src/vocabulary.py:104-109 | a token of the corpus is exactly a token of one of its sentences |
| `Pipeline.CorpusVocabularyDistinct` | src/vocabulary.py:104-109 | `texts_to_vocabulary` holds no term twice |
| `Pipeline.CorpusVocabularyFirstSeen` | src/vocabulary.py:104-109 | `texts_to_vocabulary` keeps each token at its first occurrence, in sentence order then token order |
| `Pipeline.CorpusVocabularyMembers` | src/vocabulary.py:104-109 | `texts_to_vocabulary` holds every token of every sentence and nothing else |
| `Pipeline.CorpusCovers` | src/vocabulary.py:104-109 | every token of a corpus sentence is a term of the corpus vocabulary, so `index` raises no `KeyError` on it |
| `Pipeline.CorpusMatrix` | src/vocabulary.py:58-65 | against its own vocabulary no row of the document-term matrix raises `KeyError`; the matrix has one row per sentence and one column per term, cell `(i, j)` counts term `j` in sentence `i`, and row `i` sums to the sentence's token count |
| `Pipeline.CorpusTf` | src/vocabulary.py:67-78 | against its own vocabulary no row of `to_tf` raises `KeyError`, and it raises `ZeroDivisionError` iff the vocabulary is non-empty and some sentence has no token; otherwise cell `(i, j)` is count over token count, and a sentence with tokens has a row summing to one |
| `Pipeline.CorpusIdfShape` | src/vocabulary.py:88-93 | against its own vocabulary no row of `to_idf` raises `KeyError`, and the matrix has one row per sentence with one cell per term |
| `Pipeline.CorpusIdfCell` | src/vocabulary.py:82-86 | cell `(i, j)` of that IDF matrix is `0.0` for a term absent from sentence `i`, otherwise `log10(n_doc / c)`, where `n_doc` is the number of sentences and `c` is the term's count in that same sentence (not a corpus-wide document frequency) |

## Left out

- `text_to_words` (src/vocabulary.py:16-19) runs a spaCy pipeline and drops punctuation tokens. It is the parameter `tokenize`, so no property depends on how text is split.
- `math.log10` is the parameter `log10`. Only the zero case of `idf` and the shape of its argument are modelled.
- Floating point: TF and IDF cells are `real`, so rounding in `t / d` and `n_doc / t` is not modelled, and "sums to one" is exact here.
- The Python integer `/` in `tf` turns into a float; in the model it is real division of the two counts.
- `Vocabularies.Vocabulary.ToMatrix`, `Vocabularies.Vocabulary.ToTf`, `Vocabularies.Vocabulary.ToIdf`, `Pipeline.CorpusMatrix`, `Pipeline.CorpusTf`, `Pipeline.CorpusIdfShape`, `Pipeline.CorpusIdfCell`: with an empty vocabulary (every token dropped by the tokenizer) and at least one sentence, pandas raises `ValueError` on `matrix.loc[1] = []` for a DataFrame without columns. The model returns empty rows instead; it models only the exceptions raised by src/vocabulary.py itself.
- pandas: the DataFrame, its column labels (the terms of `data`) and the `.loc[i + 1]` row assignment. A matrix is a sequence of rows, and row `i + 1` is sequence index `i`.
- `__str__` and `__iter__` (src/vocabulary.py:28-35). Iteration over a vocabulary is modelled only where `texts_to_vocabulary` iterates it, as reading `data` in order.
- The class is generic in the term type `T`, and so is the tokenizer's output. The source only ever builds vocabularies of `str`.
- `to_tf_idf` and `to_similarity` are called by src/main.py:99 and src/main.py:106 but are not defined in src/vocabulary.py. TF-IDF and cosine similarity are therefore not modelled.
- src/corpus/scraper.py (sentence splitting, HTTP scraping, logging) and the printing and orchestration in src/main.py are I/O and are not part of this model.
