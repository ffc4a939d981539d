/**
 The `Stru` record of src/main.rs: two `u16` coordinates, the zero test `f1`
 and the transition `f2`, which builds a new record from the receiver and a
 threshold. `f2` never changes its receiver, so `Stru` is a datatype and the
 transition a function returning a fresh value.

 Rust's `u16` arithmetic panics (debug build) or wraps (release build) at the
 range boundaries; here `F2` reports that as a named error instead.
 */
module Program {

  import opened Unsigned

  datatype Stru = Stru(x: U16, y: U16)

  /** Which field's arithmetic left the `u16` range. */
  datatype Field = X | Y

  datatype ArithError = Overflow(field: Field) | Underflow(field: Field)

  datatype Result<T> = Ok(value: T) | Err(error: ArithError)

  /** `Stru::f1`: the zero test on a `u32`. */
  function F1(a: U32): (r: bool)
    ensures r <==> a == 0
  {
    a == 0
  }

  /** The condition that selects the increment branch of `f2`. */
  predicate Matches(s: Stru, b: U16)
    ensures Matches(s, b) <==> b in {s.x, s.y}
  {
    b == s.x || b == s.y
  }

  /**
   The increment branch of `f2`: both fields one higher. `x + 1` is evaluated
   before `y + 1`, so an overflow of `x` is the one reported when both would.
   */
  function Increment(s: Stru): (r: Result<Stru>)
    ensures r.Ok? <==> s.x < MaxU16 && s.y < MaxU16
    ensures r.Ok? ==> r.value.x == s.x + 1 && r.value.y == s.y + 1
    ensures r == Err(Overflow(X)) <==> s.x == MaxU16
    ensures r == Err(Overflow(Y)) <==> s.x < MaxU16 && s.y == MaxU16
  {
    match CheckedInc(s.x)
    case None => Err(Overflow(X))
    case Some(x') =>
      match CheckedInc(s.y)
      case None => Err(Overflow(Y))
      case Some(y') => Ok(Stru(x', y'))
  }

  /**
   The decrement branch of `f2`: both fields one lower. `x - 1` is evaluated
   before `y - 1`, so an underflow of `x` is the one reported when both would.
   */
  function Decrement(s: Stru): (r: Result<Stru>)
    ensures r.Ok? <==> 0 < s.x && 0 < s.y
    ensures r.Ok? ==> r.value.x == s.x - 1 && r.value.y == s.y - 1
    ensures r == Err(Underflow(X)) <==> s.x == 0
    ensures r == Err(Underflow(Y)) <==> 0 < s.x && s.y == 0
  {
    match CheckedDec(s.x)
    case None => Err(Underflow(X))
    case Some(x') =>
      match CheckedDec(s.y)
      case None => Err(Underflow(Y))
      case Some(y') => Ok(Stru(x', y'))
  }

  /**
   `Stru::f2`: a threshold equal to either field moves both fields up by one,
   any other threshold moves both down by one; leaving the `u16` range is an
   error, never a wrapped value.
   */
  function F2(s: Stru, b: U16): (r: Result<Stru>)
    ensures r.Ok? <==> if Matches(s, b) then s.x < MaxU16 && s.y < MaxU16 else 0 < s.x && 0 < s.y
    ensures r.Ok? && Matches(s, b) ==> r.value == Stru(s.x + 1, s.y + 1)
    ensures r.Ok? && !Matches(s, b) ==> r.value == Stru(s.x - 1, s.y - 1)
    ensures r.Err? ==> (r.error.Overflow? <==> Matches(s, b))
    ensures r.Ok? ==> r.value.x - r.value.y == s.x - s.y
  {
    if Matches(s, b) then Increment(s) else Decrement(s)
  }

  /** Matching `x`, matching `y` or matching both leads to the same result. */
  lemma MatchEitherField(s: Stru, b: U16)
    requires Matches(s, b)
    ensures F2(s, b) == F2(s, s.x) == F2(s, s.y)
    ensures s.x < MaxU16 && s.y < MaxU16 ==> F2(s, b) == Ok(Stru(s.x + 1, s.y + 1))
  {
  }

  /** Witnesses that the underflow error occurs, on either field. */
  lemma UnderflowReachable()
    ensures exists s: Stru, b: U16 :: F2(s, b) == Err(Underflow(X))
    ensures exists s: Stru, b: U16 :: F2(s, b) == Err(Underflow(Y))
  {
    assert F2(Stru(0, 5), 9) == Err(Underflow(X));
    assert F2(Stru(5, 0), 9) == Err(Underflow(Y));
  }

  /** Witnesses that the overflow error occurs, on either field. */
  lemma OverflowReachable()
    ensures exists s: Stru, b: U16 :: F2(s, b) == Err(Overflow(X))
    ensures exists s: Stru, b: U16 :: F2(s, b) == Err(Overflow(Y))
  {
    assert F2(Stru(MaxU16, 7), 7) == Err(Overflow(X));
    assert F2(Stru(7, MaxU16), 7) == Err(Overflow(Y));
  }

  /**
   `f2` as a release build runs it: both fields move by one in u16 arithmetic
   modulo 2^16, with no boundary check.
   */
  function F2Wrapping(s: Stru, b: U16): (r: Stru)
    ensures Matches(s, b) ==> (r.x - s.x) % (MaxU16 + 1) == 1 && (r.y - s.y) % (MaxU16 + 1) == 1
    ensures !Matches(s, b) ==> (s.x - r.x) % (MaxU16 + 1) == 1 && (s.y - r.y) % (MaxU16 + 1) == 1
    ensures Matches(s, b) && s.x < MaxU16 && s.y < MaxU16 ==> r == Stru(s.x + 1, s.y + 1)
    ensures !Matches(s, b) && 0 < s.x && 0 < s.y ==> r == Stru(s.x - 1, s.y - 1)
  {
    if Matches(s, b) then Stru(WrappingInc(s.x), WrappingInc(s.y))
    else Stru(WrappingDec(s.x), WrappingDec(s.y))
  }

  /** Where `F2` succeeds, the wrapping build computes the same record. */
  lemma WrappingAgreesInRange(s: Stru, b: U16)
    requires F2(s, b).Ok?
    ensures F2Wrapping(s, b) == F2(s, b).value
  {
  }

  /**
   The wrapping build keeps `x - y` modulo 2^16 on every input, and keeps it
   as an integer exactly when `F2` succeeds or the two fields are equal (then
   both wrap together).
   */
  lemma WrappingDifference(s: Stru, b: U16)
    ensures var w := F2Wrapping(s, b);
      (w.x - w.y) % (MaxU16 + 1) == (s.x - s.y) % (MaxU16 + 1)
    ensures var w := F2Wrapping(s, b);
      w.x - w.y == s.x - s.y <==> F2(s, b).Ok? || s.x == s.y
  {
  }

  /**
   The wrapping build breaks the invariant `x - y` that `F2` keeps:
   `Stru { x: 0, y: 5 }.f2(9)` becomes `(65535, 4)`.
   */
  lemma WrappingBreaksDifference()
    ensures F2Wrapping(Stru(0, 5), 9) == Stru(MaxU16, 4)
    ensures F2Wrapping(Stru(0, 5), 9).x - F2Wrapping(Stru(0, 5), 9).y != 0 - 5
    ensures F2(Stru(0, 5), 9) == Err(Underflow(X))
  {
  }

  /**
   The two values `main` prints: `f1(500_000)` and the `x` of
   `Stru { x: 23, y: 456 }.f2(456)`.
   */
  function MainValues(): (r: (bool, Result<U16>))
    ensures r == (false, Ok(24))
  {
    (F1(500_000), XOf(F2(Stru(23, 456), 456)))
  }

  /** The `.x` of a transition's outcome, the error passed through. */
  function XOf(t: Result<Stru>): (r: Result<U16>)
    ensures r.Ok? <==> t.Ok?
    ensures r.Ok? ==> r.value == t.value.x
    ensures r.Err? ==> r.error == t.error
  {
    match t
    case Ok(s) => Ok(s.x)
    case Err(e) => Err(e)
  }

  /**
   Beyond what `main` prints: the whole record after the matching threshold,
   and the demonstration state under a threshold that matches neither field.
   */
  lemma DemoScenarios()
    ensures F2(Stru(23, 456), 456) == Ok(Stru(24, 457))
    ensures F2(Stru(23, 456), 1) == Ok(Stru(22, 455))
  {
  }
}
