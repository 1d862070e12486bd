/**
 * The ways an operation of the client or of a script can end: a value, or one
 * of the exceptions that reaches the caller.  The three API errors follow the
 * hierarchy of nsapi/exceptions.py: AuthError and ResourceError are both
 * APIErrors.
 */
module Outcomes {

  datatype Option<T> = None | Some(value: T)

  datatype Error =
    | KeyError(key: string)     // a dict lookup of an absent key
    | IndexError                // a list index past the end
    | ValueError(text: string)  // int(), fromisoformat() or list.index() refused `text`
    | StopIteration             // next() on an exhausted iterator
    | JsonError                 // a marker or cookie file that is not valid JSON
    | ApiError                  // an APIError that is neither of the two below
    | AuthError                 // the API refused the credentials
    | ResourceError             // the API has no such nation or region (HTTP 404)
    | OverflowError             // date arithmetic that leaves the years 1 to 9999
    | AttributeError(attribute: string)  // an attribute the object does not have
  {
    /** Caught by an `except APIError` clause. */
    predicate IsApiError() {
      ApiError? || AuthError? || ResourceError?
    }
  }

  datatype Result<T> = Ok(value: T) | Err(error: Error)
  {
    predicate IsFailure() {
      Err?
    }

    function PropagateFailure<U>(): Result<U>
      requires Err?
    {
      Err(error)
    }

    function Extract(): T
      requires Ok?
    {
      value
    }
  }

  /** Python's truthiness of an optional int: None and 0 are false. */
  predicate Falsy(t: Option<int>) {
    t.None? || t.value == 0
  }

  /** The values of the `Some`s, in order. */
  function Somes<T>(xs: seq<Option<T>>): seq<T>
    decreases |xs|
  {
    if xs == [] then []
    else
      var n := |xs| - 1;
      Somes(xs[..n]) + (if xs[n].Some? then [xs[n].value] else [])
  }

  lemma SomesSnoc<T>(xs: seq<Option<T>>, x: Option<T>)
    ensures Somes(xs + [x]) == Somes(xs) + (if x.Some? then [x.value] else [])
  {
    assert (xs + [x])[..|xs|] == xs;
  }

  /** A non-empty list is its front and its last element. */
  lemma SnocParts<T>(xs: seq<T>)
    requires xs != []
    ensures xs == xs[..|xs| - 1] + [xs[|xs| - 1]]
  {
  }

  /** The step of a loop that keeps the values of `xs` in order. */
  lemma SomesNext<T>(xs: seq<Option<T>>, i: nat)
    requires i < |xs|
    ensures Somes(xs[..i + 1]) == Somes(xs[..i]) + (if xs[i].Some? then [xs[i].value] else [])
  {
    assert xs[..i + 1][..i] == xs[..i];
  }

  /** A value is kept exactly when some element holds it, and nothing is added. */
  lemma {:induction false} SomesIn<T>(xs: seq<Option<T>>, x: T)
    ensures |Somes(xs)| <= |xs|
    ensures x in Somes(xs) <==> exists i :: 0 <= i < |xs| && xs[i] == Some(x)
    decreases |xs|
  {
    if xs != [] {
      var n := |xs| - 1;
      SomesIn(xs[..n], x);
      assert forall i :: 0 <= i < n ==> xs[..n][i] == xs[i];
    }
  }

  /** Taking the values is done piece by piece. */
  lemma {:induction false} SomesAppend<T>(xs: seq<Option<T>>, ys: seq<Option<T>>)
    ensures Somes(xs + ys) == Somes(xs) + Somes(ys)
    decreases |ys|
  {
    if ys == [] {
      assert xs + ys == xs;
    } else {
      var n := |ys| - 1;
      SomesAppend(xs, ys[..n]);
      assert xs + ys == (xs + ys[..n]) + [ys[n]];
      assert ys == ys[..n] + [ys[n]];
      SomesSnoc(xs + ys[..n], ys[n]);
      SomesSnoc(ys[..n], ys[n]);
    }
  }

  /** All the values, or the first error in order: what a loop that raises
      on its first failing step produces. */
  function Collect<T>(rs: seq<Result<T>>): (r: Result<seq<T>>)
    ensures r.Ok? <==> forall i :: 0 <= i < |rs| ==> rs[i].Ok?
    ensures r.Ok? ==> |r.value| == |rs| && forall i :: 0 <= i < |rs| ==> r.value[i] == rs[i].value
    ensures r.Err? ==> exists i :: 0 <= i < |rs| && rs[i] == Err(r.error) && forall j :: 0 <= j < i ==> rs[j].Ok?
    decreases |rs|
  {
    if rs == [] then Ok([])
    else
      var n := |rs| - 1;
      assert forall i :: 0 <= i < n ==> rs[..n][i] == rs[i];
      match Collect(rs[..n])
      case Err(e) => Err(e)
      case Ok(init) =>
        if rs[n].Err? then Err(rs[n].error) else Ok(init + [rs[n].value])
  }

  /** Each result of a run that succeeds is its value in the collection. */
  lemma CollectAt<T>(rs: seq<Result<T>>, i: nat)
    requires Collect(rs).Ok? && i < |rs|
    ensures i < |Collect(rs).value| && rs[i] == Ok(Collect(rs).value[i])
  {
  }

  /** Behind a header, entry `k` is the value of result `k - 1`. */
  lemma HeadedAt<T>(header: T, rs: seq<Result<T>>, whole: seq<T>, k: nat)
    requires Collect(rs).Ok? && whole == [header] + Collect(rs).value && 1 <= k <= |rs|
    ensures |whole| == |rs| + 1 && rs[k - 1] == Ok(whole[k])
  {
    CollectAt(rs, k - 1);
    assert whole[k] == Collect(rs).value[k - 1];
  }

  lemma CollectSnoc<T>(rs: seq<Result<T>>, x: Result<T>)
    ensures Collect(rs + [x]) ==
      if Collect(rs).Err? then Collect(rs)
      else if x.Err? then Err(x.error)
      else Ok(Collect(rs).value + [x.value])
  {
    assert (rs + [x])[..|rs|] == rs;
  }

  /** Once a prefix fails, the whole run fails the same way. */
  lemma {:induction false} CollectFail<T>(rs: seq<Result<T>>, k: nat)
    requires k <= |rs| && Collect(rs[..k]).Err?
    ensures Collect(rs) == Collect(rs[..k])
    decreases |rs|
  {
    if k < |rs| {
      var n := |rs| - 1;
      assert rs[..n][..k] == rs[..k];
      CollectFail(rs[..n], k);
      assert rs == rs[..n] + [rs[n]];
      CollectSnoc(rs[..n], rs[n]);
    } else {
      assert rs[..k] == rs;
    }
  }

  /** The step of a loop that collects `rs` in order: with the prefix before
      `i` collected, the step's error is the error of the whole run, and its
      value extends the collected prefix. */
  lemma CollectNext<T>(rs: seq<Result<T>>, i: nat)
    requires i < |rs| && Collect(rs[..i]).Ok?
    ensures rs[i].Err? ==> Collect(rs) == Err(rs[i].error)
    ensures rs[i].Ok? ==> Collect(rs[..i + 1]) == Ok(Collect(rs[..i]).value + [rs[i].value])
  {
    assert rs[..i + 1] == rs[..i] + [rs[i]];
    CollectSnoc(rs[..i], rs[i]);
    if rs[i].Err? {
      CollectFail(rs, i + 1);
    }
  }
}
