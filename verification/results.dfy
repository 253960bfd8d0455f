/** Failure-compatible wrappers used throughout the translator.

    The Python code signals failure by raising exceptions; every exception the
    translator can raise becomes one constructor of `Error`, and every operation
    that can raise returns a `Result`.
 */
module Results {

  datatype Option<+T> = None | Some(value: T)

  /** A player lookup key: the source dispatches on `isinstance(key, int)` /
      `isinstance(key, str)`; the model makes the two cases a tagged union. */
  datatype PlayerKey = Id(id: int) | Name(name: string)

  /** The exceptions the translator raises. */
  datatype Error =
    | NotAPosition(token: string)        // ValueError: '<token> not in position code dict'
    | NoPlayKeyword(description: string) // ValueError: 'No keyword found in plate description: ...'
    | PlayerNotFound(lookup: PlayerKey)  // ValueError: '<key> not found in team'
    | IndexOutOfRange                    // IndexError from `[0]`, `[1]` or `[-1]` on a short list or string
    | MissingKey(key: string)            // KeyError from a dictionary lookup

  datatype Result<+T> = Ok(value: T) | Err(error: Error) {

    predicate IsFailure() {
      Err?
    }

    function PropagateFailure<U>(): Result<U>
      requires Err?
    {
      Err(error)
    }

    function Extract(): T
      requires Ok?
    {
      value
    }
  }

  /** Try `f` on every element in order and keep the first answer, as a regex
      alternation or an optional group that the engine backtracks over does. */
  function FirstSome<A, B>(f: A -> Option<B>, xs: seq<A>): (r: Option<B>)
    ensures r.Some? <==> exists k :: 0 <= k < |xs| && f(xs[k]).Some?
    ensures r.Some? ==> exists k :: 0 <= k < |xs| && r == f(xs[k])
    ensures forall k :: (0 <= k < |xs| && f(xs[k]).Some? && forall j :: 0 <= j < k ==> f(xs[j]).None?) ==>
              r == f(xs[k])
  {
    if |xs| == 0 then None
    else if f(xs[0]).Some? then f(xs[0])
    else
      var r := FirstSome(f, xs[1..]);
      assert forall k :: 1 <= k < |xs| ==> xs[k] == xs[1..][k - 1];
      r
  }

  /** Apply `f` to every element in order, stopping at the first failure, as a
      Python list comprehension over a function that may raise does. */
  function MapAll<A, B>(f: A -> Result<B>, xs: seq<A>): (r: Result<seq<B>>)
    ensures r.Ok? <==> forall k :: 0 <= k < |xs| ==> f(xs[k]).Ok?
    ensures r.Ok? ==> |r.value| == |xs| && forall k :: 0 <= k < |xs| ==> f(xs[k]) == Ok(r.value[k])
    ensures r.Err? ==> exists k :: 0 <= k < |xs| && f(xs[k]) == Err(r.error) && forall j :: 0 <= j < k ==> f(xs[j]).Ok?
  {
    if |xs| == 0 then Ok([])
    else
      assert forall k :: 1 <= k < |xs| ==> xs[k] == xs[1..][k - 1];
      var first :- f(xs[0]);
      var rest :- MapAll(f, xs[1..]);
      Ok([first] + rest)
  }

  /** Elements `f` maps to themselves come through unchanged. */
  lemma MapAllFixed<A>(f: A -> Result<A>, xs: seq<A>)
    requires forall k :: 0 <= k < |xs| ==> f(xs[k]) == Ok(xs[k])
    ensures MapAll(f, xs) == Ok(xs)
  {
    var r := MapAll(f, xs);
    assert r.Ok?;
    assert forall k :: 0 <= k < |xs| ==> r.value[k] == xs[k];
    assert r.value == xs;
  }
}
