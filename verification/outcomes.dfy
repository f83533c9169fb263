/** Failure-compatible result types shared by every module.  Python raises
    exceptions; here an operation that can raise returns `Err` carrying the
    kind of exception the source would raise. */
module Outcomes {

  /** The Python exception kinds the modelled code can raise. */
  datatype Error =
    | ValueError      // int('') or float('x'), or unpacking the wrong number of parts
    | KeyError        // a dictionary lookup of a missing key
    | IndexError      // indexing a string past its end
    | AttributeError  // reading an attribute that was never assigned

  datatype Option<+T> = None | Some(value: T) {
    function GetOr(default: T): T {
      match this
      case Some(v) => v
      case None => default
    }
  }

  datatype Result<+T> = Ok(value: T) | Err(error: Error) {
    predicate IsFailure() {
      Err?
    }

    function PropagateFailure<U>(): Result<U>
      requires Err?
    {
      Err(error)
    }

    function Extract(): T
      requires Ok?
    {
      value
    }
  }

  /** An optional value as a result: `None` becomes the given exception. */
  function OrRaise<T>(o: Option<T>, e: Error): (r: Result<T>)
    ensures r.Ok? <==> o.Some?
    ensures r.Ok? ==> r.value == o.value
    ensures r.Err? ==> r.error == e
  {
    match o
    case Some(v) => Ok(v)
    case None => Err(e)
  }

  /** A loop that parses every item of a list in turn: the first item that
      cannot be parsed raises its exception. */
  function ParseEach<S, T>(parse: S -> Result<T>, lines: seq<S>): (r: Result<seq<T>>)
    ensures r.Ok? <==> forall i :: 0 <= i < |lines| ==> parse(lines[i]).Ok?
    ensures r.Ok? ==> (|r.value| == |lines|
      && forall i :: 0 <= i < |lines| ==> r.value[i] == parse(lines[i]).value)
    ensures r.Err? ==> exists k :: (0 <= k < |lines|
      && (forall i :: 0 <= i < k ==> parse(lines[i]).Ok?)
      && parse(lines[k]) == Err(r.error))
    decreases |lines|
  {
    if lines == [] then Ok([])
    else
      var head :- parse(lines[0]);
      var rest :- ParseEach(parse, lines[1..]);
      assert forall i :: 1 <= i < |lines| ==> lines[i] == lines[1..][i - 1];
      Ok([head] + rest)
  }
}
