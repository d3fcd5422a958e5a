/**
 * The package of functional types: the fallible function and consumer
 * interfaces, and the immutable `Either` value.
 */
module Functional {
  import opened Outcomes

  /** `ThrowingFunction<T, R, E>`: applying it returns a (possibly null) `R` or throws. */
  type ThrowingFunction<-T, R> = T -> Outcome<Nullable<R>>

  /** `ThrowingConsumer<T, E>`: accepting an input returns nothing or throws. */
  type ThrowingConsumer<-T> = T -> Outcome<()>

  /**
   * `Either<L, R>`: two optional components, set once by the private
   * constructor. Only the factories `Left` and `Right` build values, and they
   * fill exactly one component.
   */
  datatype Either<L, R> = Either(l: Option<L>, r: Option<R>)
  {
    /** The shape every value built by a factory has: exactly one side present. */
    predicate Valid() {
      IsLeft() != IsRight()
    }

    /** `Either.left(l)`: rejects null, otherwise a left-tagged value holding `l`. */
    static function Left(x: Nullable<L>): (res: Outcome<Either<L, R>>)
      ensures res.Fail? <==> x.Null?
      ensures res.Fail? ==> res.error == NullPointer
      ensures res.Ok? ==> res.value.Valid() && res.value.IsLeft() && !res.value.IsRight()
      ensures res.Ok? ==> res.value.GetLeft() == Ok(x.value)
      ensures res.Ok? ==> res.value.GetRight() == Fail(IllegalState("Either is of type left."))
    {
      match x
      case Null => Fail(NullPointer)
      case NonNull(v) => Ok(Either(Some(v), None))
    }

    /** `Either.right(r)`: rejects null, otherwise a right-tagged value holding `r`. */
    static function Right(x: Nullable<R>): (res: Outcome<Either<L, R>>)
      ensures res.Fail? <==> x.Null?
      ensures res.Fail? ==> res.error == NullPointer
      ensures res.Ok? ==> res.value.Valid() && res.value.IsRight() && !res.value.IsLeft()
      ensures res.Ok? ==> res.value.GetRight() == Ok(x.value)
      ensures res.Ok? ==> res.value.GetLeft() == Fail(IllegalState("Either is of type right."))
    {
      match x
      case Null => Fail(NullPointer)
      case NonNull(v) => Ok(Either(None, Some(v)))
    }

    /** `isLeft()`: holds exactly when `getLeft()` returns instead of throwing. */
    predicate IsLeft()
      ensures IsLeft() <==> GetLeft().Ok?
    {
      l.Some?
    }

    /** `isRight()`: holds exactly when `getRight()` returns instead of throwing. */
    predicate IsRight()
      ensures IsRight() <==> GetRight().Ok?
    {
      r.Some?
    }

    /** `getLeft()`: the left component, or an `IllegalStateException`. */
    function GetLeft(): (res: Outcome<L>)
      ensures res.Ok? <==> l.Some?
      ensures res.Ok? ==> l == Some(res.value)
      ensures res.Fail? ==> res.error == IllegalState("Either is of type right.")
    {
      if l.Some? then Ok(l.value) else Fail(IllegalState("Either is of type right."))
    }

    /** `getRight()`: the right component, or an `IllegalStateException`. */
    function GetRight(): (res: Outcome<R>)
      ensures res.Ok? <==> r.Some?
      ensures res.Ok? ==> r == Some(res.value)
      ensures res.Fail? ==> res.error == IllegalState("Either is of type left.")
    {
      if r.Some? then Ok(r.value) else Fail(IllegalState("Either is of type left."))
    }
  }

  /** On a value of the factories' shape, a read of one side fails exactly when the other side is the tagged one. */
  lemma WrongSideIsIllegalState<L, R>(e: Either<L, R>)
    requires e.Valid()
    ensures e.GetLeft().Fail? <==> e.IsRight()
    ensures e.GetRight().Fail? <==> e.IsLeft()
    ensures e.GetLeft().Fail? ==> e.GetLeft().error.IllegalState?
    ensures e.GetRight().Fail? ==> e.GetRight().error.IllegalState?
  {
  }
}
