/** Option and Result values, and the errors a geometry operation can raise. */
module Wrappers {

  datatype Option<T> = None | Some(value: T)
  {
    function GetOr(default: T): T
    {
      match this
      case None => default
      case Some(v) => v
    }
  }

  /** Geometry kinds, used to name the class an error comes from. */
  datatype Kind =
    | PointKind
    | LineStringKind
    | PolygonKind
    | MultiPointKind
    | MultiLineStringKind
    | MultiPolygonKind
    | GeometryCollectionKind

  /** The exceptions and engine errors the library can raise. */
  datatype Error =
    | TooFewComponents(kind: Kind)      // validateItemCount
    | WrongComponentType(kind: Kind)    // validateItemType
    | BadPointArguments                 // Point constructor: one coordinate null
    | TypeError                         // a typed return or parameter received the wrong type
    | UndefinedMethod                   // a call to a method the class does not have
    | CallOnNull                        // a method called on null
    | UnknownClass                      // `new` of a class name that is not defined
    | ReadFailure                       // the binary readers' "Could not read ..." exceptions
    | UnknownAdapter                    // makeAdapter: no adapter registered under the name
    | InvalidExtension                  // extend: the extension is not an adapter
    | ClosuresExpected                  // extend: a write closure with a read argument that is not one
    | NotUnpackable                     // `...$x` spread of a value that is neither an array nor Traversable
    | TooFewArguments                   // ArgumentCountError: a closure called with fewer arguments than it declares

  datatype Result<T> = Ok(value: T) | Err(error: Error)
  {
    predicate IsFailure() { Err? }

    function PropagateFailure<U>(): Result<U>
      requires Err?
    {
      Err(error)
    }

    function Extract(): T
      requires Ok?
    {
      value
    }
  }

  /** Applies `f` to every element in order and stops at the first error. */
  function MapAll<A, B>(xs: seq<A>, f: A -> Result<B>): (r: Result<seq<B>>)
    ensures r.Ok? ==> |r.value| == |xs| && forall i :: 0 <= i < |xs| ==> f(xs[i]) == Ok(r.value[i])
    ensures r.Err? ==> exists i :: 0 <= i < |xs| && f(xs[i]) == Err(r.error)
    ensures (forall i :: 0 <= i < |xs| ==> f(xs[i]).Ok?) ==> r.Ok?
  {
    if xs == [] then Ok([])
    else
      match f(xs[0])
      case Err(e) => Err(e)
      case Ok(y) =>
        match MapAll(xs[1..], f)
        case Err(e) => Err(e)
        case Ok(ys) => Ok([y] + ys)
  }

  /** MapAll() succeeds with `ys` when `f` maps each element to its counterpart in `ys`. */
  lemma MapAllOf<A, B>(xs: seq<A>, f: A -> Result<B>, ys: seq<B>)
    requires |xs| == |ys| && forall i :: 0 <= i < |xs| ==> f(xs[i]) == Ok(ys[i])
    ensures MapAll(xs, f) == Ok(ys)
  {
    var r := MapAll(xs, f);
    assert r.Ok?;
    assert r.value == ys;
  }

  /** MapAll() fails with the error of the first element `f` rejects. */
  lemma {:induction false} MapAllStops<A, B>(xs: seq<A>, f: A -> Result<B>, i: nat)
    requires i < |xs| && f(xs[i]).Err?
    requires forall j :: 0 <= j < i ==> f(xs[j]).Ok?
    ensures MapAll(xs, f) == Err(f(xs[i]).error)
    decreases i
  {
    if i > 0 {
      MapAllStops(xs[1..], f, i - 1);
    }
  }
}
