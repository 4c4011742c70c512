/** Matrices built row by row from sentences: the document-term matrix, and
    the per-cell formulas of the term-frequency and inverse-document-frequency
    matrices. */
module Matrices {
  import opened Results
  import opened Counts

  /** The matrix a builder produces: one row per element of `xs`, computed by
      `row`, stopping at the first row that raises. Row `i` here is the
      DataFrame's row `i + 1`. */
  function Stack<S, R, E>(xs: seq<S>, row: S -> Result<R, E>): (r: Result<seq<R>, E>)
    ensures r.Success? <==> forall i :: 0 <= i < |xs| ==> row(xs[i]).Success?
    ensures r.Success? ==>
      && |r.value| == |xs|
      && forall i :: 0 <= i < |xs| ==> r.value[i] == row(xs[i]).value
    ensures r.Failure? ==>
      exists k :: && 0 <= k < |xs|
                  && row(xs[k]) == Failure(r.error)
                  && forall j :: 0 <= j < k ==> row(xs[j]).Success?
    decreases |xs|
  {
    if xs == [] then Success([])
    else
      var prefix, last := xs[..|xs| - 1], xs[|xs| - 1];
      assert forall j :: 0 <= j < |prefix| ==> prefix[j] == xs[j];
      match Stack(prefix, row)
      case Failure(e) => Failure(e)
      case Success(rows) =>
        match row(last)
        case Failure(e) => Failure(e)
        case Success(v) => Success(rows + [v])
  }

  /** Once a prefix of the rows raises, so does the whole matrix, with the
      same exception. */
  lemma {:induction false} StackFailsEarly<S, R, E>(xs: seq<S>, row: S -> Result<R, E>, k: nat)
    requires k <= |xs| && Stack(xs[..k], row).Failure?
    ensures Stack(xs, row) == Stack(xs[..k], row)
    decreases |xs| - k
  {
    if k == |xs| {
      assert xs[..k] == xs;
    } else {
      var prefix := xs[..|xs| - 1];
      assert prefix[..k] == xs[..k];
      StackFailsEarly(prefix, row, k);
    }
  }

  /** Appending a row that does not raise appends it to the matrix. */
  lemma StackGrows<S, R, E>(xs: seq<S>, row: S -> Result<R, E>, k: nat, rows: seq<R>)
    requires k < |xs| && Stack(xs[..k], row) == Success(rows) && row(xs[k]).Success?
    ensures Stack(xs[..k + 1], row) == Success(rows + [row(xs[k]).value])
  {
    assert xs[..k + 1][..k] == xs[..k];
  }

  /** One row of each builder, for a vocabulary with terms `terms` and
      `unique` set `known`, as a function of the sentence. */
  function VectorRow<T(==)>(terms: seq<T>, known: set<T>, tokenize: string -> seq<T>): string -> Result<seq<int>, Error<T>>
  {
    s => VectorOf(terms, known, tokenize(s))
  }

  function TfRow<T(==)>(terms: seq<T>, known: set<T>, tokenize: string -> seq<T>): string -> Result<seq<real>, Error<T>>
  {
    s => match VectorOf(terms, known, tokenize(s))
         case Failure(e) => Failure(e)
         case Success(v) => TfOf(v)
  }

  function IdfRow<T(==)>(terms: seq<T>, known: set<T>, tokenize: string -> seq<T>, nDoc: nat, log10: real -> real): string -> Result<seq<real>, Error<T>>
  {
    s => match VectorOf(terms, known, tokenize(s))
         case Failure(e) => Failure(e)
         case Success(v) => Success(IdfCells(v, nDoc, log10))
  }

  /** The nested `tf` helper: a count over the row total. */
  function Tf(t: int, d: int): (r: real)
    requires d != 0
    ensures r * d as real == t as real
  {
    t as real / d as real
  }

  /** The nested `idf` helper: zero for an absent term, otherwise the
      logarithm of the number of sentences over the count. */
  function Idf(nDoc: nat, t: int, log10: real -> real): (r: real)
    ensures t == 0 ==> r == 0.0
    ensures t != 0 ==> forall x: real {:trigger log10(x)} :: x * t as real == nDoc as real ==> r == log10(x)
  {
    if t == 0 then 0.0
    else
      var q := nDoc as real / t as real;
      assert forall x: real {:trigger log10(x)} :: x * t as real == nDoc as real ==> log10(x) == log10(q) by {
        forall x: real {:trigger log10(x)} | x * t as real == nDoc as real ensures log10(x) == log10(q) {
          var d := t as real;
          assert x == (x * d) / d;
          assert x == q;
        }
      }
      log10(q)
  }

  function TfCells(v: seq<int>, total: int): seq<real>
    requires total != 0
  {
    seq(|v|, i requires 0 <= i < |v| => Tf(v[i], total))
  }

  function IdfCells(v: seq<int>, nDoc: nat, log10: real -> real): seq<real>
  {
    seq(|v|, i requires 0 <= i < |v| => Idf(nDoc, v[i], log10))
  }

  function SumReal(v: seq<real>): real
  {
    if v == [] then 0.0 else v[0] + SumReal(v[1..])
  }

  /** Dividing every cell by the same total divides the sum by it. */
  lemma {:induction false} SumTfCells(v: seq<int>, total: int)
    requires total != 0
    ensures SumReal(TfCells(v, total)) == Sum(v) as real / total as real
  {
    if v != [] {
      assert TfCells(v, total)[1..] == TfCells(v[1..], total);
      SumTfCells(v[1..], total);
      var a, b, d := v[0] as real, Sum(v[1..]) as real, total as real;
      assert a / d + b / d == (a + b) / d;
    }
  }

  /** A TF row from a count vector: `tf` is applied to every cell with the
      row's total. It raises exactly when the total is zero and the row has a
      cell; otherwise each cell times the total is the count, and a row with a
      nonzero total sums to one. */
  function TfOf<T>(v: seq<int>): (r: Result<seq<real>, Error<T>>)
    ensures r.Failure? <==> |v| > 0 && Sum(v) == 0
    ensures r.Failure? ==> r.error == ZeroDivisionError
    ensures r.Success? ==>
      && |r.value| == |v|
      && forall i :: 0 <= i < |v| ==> r.value[i] * Sum(v) as real == v[i] as real
    ensures Sum(v) != 0 ==> SumReal(r.value) == 1.0
  {
    var total := Sum(v);
    if total != 0 then
      SumTfCells(v, total);
      assert total as real / total as real == 1.0;
      Success(TfCells(v, total))
    else if v == [] then Success([])
    else Failure(ZeroDivisionError)
  }
}
