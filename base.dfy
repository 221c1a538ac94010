/** Optional values and results shared by the model's modules. */
module Base {

  /** A value that may be absent: an omitted request field, a lookup that found nothing. */
  datatype Option<+T> = None | Some(value: T) {
    function GetOr(default: T): T {
      match this
      case Some(v) => v
      case None => default
    }
  }

  /** The outcome of a handler: a value, or the error it reports to the client. */
  datatype Result<+T, +E> = Success(value: T) | Failure(error: E)

  /** The outcome of a handler that changes state and returns no value. */
  datatype Outcome<+E> = Done | Failed(error: E)

  function Min(a: int, b: int): int {
    if a <= b then a else b
  }

  function Abs(x: int): nat {
    if x < 0 then -x else x
  }

  /** The set of elements of a sequence. */
  function Elems<T>(xs: seq<T>): set<T> {
    set x | x in xs
  }

  lemma NoMemberEmpty<T>(s: set<T>)
    requires forall x :: x !in s
    ensures s == {}
  {
  }

  /** Some element of a non-empty set: the witness a such-that choice over `s` needs. */
  lemma Pick<T>(s: set<T>) returns (x: T)
    requires s != {}
    ensures x in s
  {
    if forall y :: y !in s { NoMemberEmpty(s); }
    x :| x in s;
  }

  /** Membership in `Elems` in terms of indices, both directions. */
  lemma ElemsAt<T>(xs: seq<T>, i: int)
    requires 0 <= i < |xs|
    ensures xs[i] in Elems(xs)
  {
  }

  lemma IndexOfElem<T>(xs: seq<T>, x: T) returns (i: int)
    requires x in Elems(xs)
    ensures 0 <= i < |xs| && xs[i] == x
  {
    i :| 0 <= i < |xs| && xs[i] == x;
  }

  lemma ElemsAppend<T>(a: seq<T>, b: seq<T>)
    ensures Elems(a + b) == Elems(a) + Elems(b)
  {
    forall x | x in Elems(a + b) ensures x in Elems(a) + Elems(b) {
      var i := IndexOfElem(a + b, x);
      if i < |a| { ElemsAt(a, i); } else { ElemsAt(b, i - |a|); }
    }
    forall x | x in Elems(a) + Elems(b) ensures x in Elems(a + b) {
      if x in Elems(a) {
        var i := IndexOfElem(a, x);
        ElemsAt(a + b, i);
      } else {
        var i := IndexOfElem(b, x);
        ElemsAt(a + b, |a| + i);
      }
    }
  }
}
