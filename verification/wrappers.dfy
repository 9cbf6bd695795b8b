/** Optional values: the model's stand-in for Python's `None`. */
module Wrappers {

  datatype Option<+T> = None | Some(value: T)

  /** The list of at most one element an optional value stands for. */
  function OptionToSeq<T>(o: Option<T>): (r: seq<T>)
    ensures |r| <= 1
    ensures r == [] <==> o.None?
    ensures o.Some? ==> r[0] == o.value
  {
    match o
    case Some(v) => [v]
    case None => []
  }

  /** The first present value of a list of optional values. */
  function FirstSome<T>(xs: seq<Option<T>>): (r: Option<T>)
    ensures r.None? <==> forall i :: 0 <= i < |xs| ==> xs[i].None?
    ensures r.Some? ==> r in xs
  {
    if |xs| == 0 then None
    else if xs[0].Some? then xs[0]
    else FirstSome(xs[1..])
  }
}
