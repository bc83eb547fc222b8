/**
  The iterator adaptors the database façade chains over per-record conversions:
  `collect::<Result<Vec<_>, _>>()`, `filter_map(Result::err)` and `[String]::join`.
 */
module Aggregate {
  import opened Wrappers

  /** The positions, in increasing order, of the elements `f` rejects. */
  function FailingIndices<A, B, E>(xs: seq<A>, f: A -> Result<B, E>): (idx: seq<nat>)
    ensures forall k :: 0 <= k < |idx| ==> idx[k] < |xs| && f(xs[idx[k]]).Failure?
    ensures forall k, l :: 0 <= k < l < |idx| ==> idx[k] < idx[l]
    decreases |xs|
  {
    if |xs| == 0 then []
    else
      var init := FailingIndices(xs[..|xs| - 1], f);
      assert forall k :: 0 <= k < |init| ==> xs[..|xs| - 1][init[k]] == xs[init[k]];
      init + (if f(xs[|xs| - 1]).Failure? then [|xs| - 1] else [])
  }

  /**
    `xs.iter().map(f).collect::<Result<Vec<_>, _>>()`: every converted value in order
    when all conversions succeed, and otherwise the error of the first failing element.
   */
  function CollectAll<A, B, E>(xs: seq<A>, f: A -> Result<B, E>): (r: Result<seq<B>, E>)
    ensures r.Success? <==> forall i :: 0 <= i < |xs| ==> f(xs[i]).Success?
    ensures r.Success? ==> |r.value| == |xs| && forall i :: 0 <= i < |xs| ==> f(xs[i]) == Success(r.value[i])
    decreases |xs|
  {
    if |xs| == 0 then Success([])
    else
      var init := xs[..|xs| - 1];
      assert forall i :: 0 <= i < |init| ==> init[i] == xs[i];
      match CollectAll(init, f)
      case Failure(e) => Failure(e)
      case Success(ys) =>
        match f(xs[|xs| - 1])
        case Failure(e) => Failure(e)
        case Success(y) => Success(ys + [y])
  }

  /** `xs.iter().map(f).filter_map(Result::err)`: the errors of the failing elements, in order. */
  function ErrorsOf<A, B, E>(xs: seq<A>, f: A -> Result<B, E>): (errs: seq<E>)
    decreases |xs|
  {
    if |xs| == 0 then []
    else
      var last := f(xs[|xs| - 1]);
      ErrorsOf(xs[..|xs| - 1], f) + (if last.Failure? then [last.error] else [])
  }

  /** `[String]::join(sep)`: the parts in order with `sep` between neighbours. */
  function Join(parts: seq<string>, sep: string): (r: string)
    ensures |parts| == 0 ==> r == ""
    ensures |parts| == 1 ==> r == parts[0]
    decreases |parts|
  {
    if |parts| == 0 then ""
    else if |parts| == 1 then parts[0]
    else
      Join(parts[..|parts| - 1], sep) + sep + parts[|parts| - 1]
  }

  /** The join is as long as its parts plus one separator per gap. */
  lemma {:induction false} JoinLength(parts: seq<string>, sep: string)
    requires |parts| > 0
    ensures |Join(parts, sep)| == TotalLength(parts) + |sep| * (|parts| - 1)
    decreases |parts|
  {
    if |parts| > 1 {
      var init := parts[..|parts| - 1];
      var last := parts[|parts| - 1];
      JoinLength(init, sep);
      TotalLengthSnoc(init, last);
      assert init + [last] == parts;
      assert |sep| * (|init| - 1) + |sep| == |sep| * (|parts| - 1);
    }
  }

  /** The summed length of the parts. */
  function TotalLength(parts: seq<string>): nat
    decreases |parts|
  {
    if |parts| == 0 then 0 else |parts[0]| + TotalLength(parts[1..])
  }

  lemma {:induction false} TotalLengthSnoc(parts: seq<string>, p: string)
    ensures TotalLength(parts + [p]) == TotalLength(parts) + |p|
    decreases |parts|
  {
    if |parts| > 0 {
      assert (parts + [p])[1..] == parts[1..] + [p];
      TotalLengthSnoc(parts[1..], p);
    }
  }

  /** Joining read from the front: the first part, then the separator and the join of the rest. */
  function JoinFront(parts: seq<string>, sep: string): string
    decreases |parts|
  {
    if |parts| == 0 then ""
    else if |parts| == 1 then parts[0]
    else parts[0] + sep + JoinFront(parts[1..], sep)
  }

  /** Building the join from the back or from the front gives the same string. */
  lemma {:induction false} JoinFromEitherEnd(parts: seq<string>, sep: string)
    ensures Join(parts, sep) == JoinFront(parts, sep)
    decreases |parts|
  {
    if |parts| > 2 {
      var init := parts[..|parts| - 1];
      var last := parts[|parts| - 1];
      JoinFromEitherEnd(init, sep);
      JoinFromEitherEnd(parts[1..], sep);
      JoinFromEitherEnd(parts[1..][..|parts| - 2], sep);
      assert init[1..] == parts[1..][..|parts| - 2];
      assert parts[1..][|parts| - 2] == last;
    }
  }

  /** Every position `f` rejects is listed. */
  lemma {:induction false} FailingIndicesComplete<A, B, E>(xs: seq<A>, f: A -> Result<B, E>, i: nat)
    requires i < |xs| && f(xs[i]).Failure?
    ensures i in FailingIndices(xs, f)
    decreases |xs|
  {
    if i < |xs| - 1 {
      var init := xs[..|xs| - 1];
      assert init[i] == xs[i];
      FailingIndicesComplete(init, f, i);
    }
  }

  /** A collection succeeds exactly when no position is listed as failing. */
  lemma CollectAllSucceedsIffNoFailing<A, B, E>(xs: seq<A>, f: A -> Result<B, E>)
    ensures CollectAll(xs, f).Success? <==> FailingIndices(xs, f) == []
  {
    if CollectAll(xs, f).Failure? {
      SomeFailing(xs, f);
    }
    if FailingIndices(xs, f) != [] {
      ListedFails(xs, f);
    }
  }

  /** A listed failing position makes the collection fail. */
  lemma ListedFails<A, B, E>(xs: seq<A>, f: A -> Result<B, E>)
    requires FailingIndices(xs, f) != []
    ensures CollectAll(xs, f).Failure?
  {
    var i := FailingIndices(xs, f)[0];
    assert i < |xs| && f(xs[i]).Failure?;
  }

  /** A failed collection has a failing position, and that position is listed. */
  lemma SomeFailing<A, B, E>(xs: seq<A>, f: A -> Result<B, E>)
    requires CollectAll(xs, f).Failure?
    ensures FailingIndices(xs, f) != []
  {
    var i :| 0 <= i < |xs| && f(xs[i]).Failure?;
    FailingIndicesComplete(xs, f, i);
  }

  /** A failed collection reports the error of the first failing element. */
  lemma {:induction false} CollectAllFirstError<A, B, E>(xs: seq<A>, f: A -> Result<B, E>)
    ensures CollectAll(xs, f).Failure? ==>
              |FailingIndices(xs, f)| > 0 && CollectAll(xs, f).error == f(xs[FailingIndices(xs, f)[0]]).error
    decreases |xs|
  {
    if |xs| > 0 && CollectAll(xs, f).Failure? {
      var init := xs[..|xs| - 1];
      CollectAllFirstError(init, f);
      var fi := FailingIndices(init, f);
      var last := xs[|xs| - 1];
      assert FailingIndices(xs, f) == fi + (if f(last).Failure? then [|xs| - 1] else []);
      if CollectAll(init, f).Failure? {
        assert CollectAll(xs, f).error == CollectAll(init, f).error;
        assert FailingIndices(xs, f)[0] == fi[0];
        assert init[fi[0]] == xs[fi[0]];
      } else {
        CollectAllSucceedsIffNoFailing(init, f);
        assert CollectAll(xs, f).error == f(last).error;
      }
    }
  }

  /** The filter yields, in order, exactly the errors of the failing elements. */
  lemma {:induction false} ErrorsOfFailing<A, B, E>(xs: seq<A>, f: A -> Result<B, E>)
    ensures |ErrorsOf(xs, f)| == |FailingIndices(xs, f)|
    ensures forall k :: 0 <= k < |ErrorsOf(xs, f)| ==> ErrorsOf(xs, f)[k] == f(xs[FailingIndices(xs, f)[k]]).error
    decreases |xs|
  {
    if |xs| > 0 {
      var init := xs[..|xs| - 1];
      ErrorsOfFailing(init, f);
      assert forall i :: 0 <= i < |init| ==> init[i] == xs[i];
    }
  }

  /** Collecting one more element: the first error stays first, otherwise the new value is appended. */
  lemma CollectAllSnoc<A, B, E>(xs: seq<A>, x: A, f: A -> Result<B, E>)
    ensures CollectAll(xs + [x], f) ==
              match CollectAll(xs, f)
              case Failure(e) => Failure(e)
              case Success(ys) => (match f(x) case Failure(e) => Failure(e) case Success(y) => Success(ys + [y]))
  {
    assert (xs + [x])[..|xs|] == xs;
  }

  /** Filtering one more element: its error, if any, comes last. */
  lemma ErrorsOfSnoc<A, B, E>(xs: seq<A>, x: A, f: A -> Result<B, E>)
    ensures ErrorsOf(xs + [x], f) == ErrorsOf(xs, f) + (if f(x).Failure? then [f(x).error] else [])
  {
    assert (xs + [x])[..|xs|] == xs;
  }

  /** The collection succeeds exactly when the filter finds no error. */
  lemma CollectAllSucceedsIffNoErrors<A, B, E>(xs: seq<A>, f: A -> Result<B, E>)
    ensures CollectAll(xs, f).Success? <==> |ErrorsOf(xs, f)| == 0
  {
    ErrorsOfFailing(xs, f);
    var idx := FailingIndices(xs, f);
    if |idx| > 0 {
      assert f(xs[idx[0]]).Failure?;
    }
  }

  /** When exactly one element fails, the filter yields exactly its error. */
  lemma {:induction false} ErrorsOfSingleFailure<A, B, E>(xs: seq<A>, f: A -> Result<B, E>, i: nat)
    requires i < |xs| && f(xs[i]).Failure?
    requires forall j :: 0 <= j < |xs| && j != i ==> f(xs[j]).Success?
    ensures ErrorsOf(xs, f) == [f(xs[i]).error]
    decreases |xs|
  {
    var init := xs[..|xs| - 1];
    assert forall j :: 0 <= j < |init| ==> init[j] == xs[j];
    if i == |xs| - 1 {
      CollectAllSucceedsIffNoErrors(init, f);
    } else {
      ErrorsOfSingleFailure(init, f, i);
    }
  }
}
