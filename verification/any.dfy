/**
  The pool's type-erased task result (`Any` in include/threadpool.h).

  The C++ box keeps a `Derive<T>` behind a `Base` pointer and recovers the
  value with `dynamic_cast`.  Here the run-time type is an explicit tag: a
  box either holds nothing (default-constructed or moved-from) or holds one
  datum whose tag is the type it was built from.
*/
module AnyBox {
  import opened Wrappers

  /**
    The C++ types a box can be built from.  `NamedType` stands for any type
    other than `int`, `unsigned long long` and `const char*`; those three are
    always written with their own tags, never as a `NamedType`.
  */
  datatype TypeTag = IntType | ULongLongType | CStringType | NamedType(name: string)

  type Int32 = x: int | -0x8000_0000 <= x < 0x8000_0000
  type ULongLong = x: int | 0 <= x < 0x1_0000_0000_0000_0000

  /** A value of one of the types above. */
  datatype Datum =
    | IntDatum(i: Int32)
    | ULongLongDatum(u: ULongLong)
    | CStringDatum(s: string)
    | NamedDatum(typeName: string, payload: seq<int>)

  /** The static type a datum was constructed with. */
  function TagOf(d: Datum): TypeTag
  {
    match d
    case IntDatum(_) => IntType
    case ULongLongDatum(_) => ULongLongType
    case CStringDatum(_) => CStringType
    case NamedDatum(name, _) => NamedType(name)
  }

  /** `Empty` is `Any()` (and what a move leaves behind); `Holding(d)` is `Any(T data)`. */
  datatype Any = Empty | Holding(datum: Datum)

  /** The exception `cast_` throws. */
  datatype CastError = TypeMismatch(message: string)

  const UnmatchMessage: string := "type is unmatch!"

  /** `Any(T data)`: box a value. */
  function Wrap(d: Datum): (a: Any)
    ensures Cast(a, TagOf(d)) == Success(d)
  {
    Holding(d)
  }

  /**
    `cast_<T>()`: the stored value when the box was built from exactly the
    requested type, the "type is unmatch!" exception otherwise.
  */
  function Cast(a: Any, requested: TypeTag): (r: Result<Datum, CastError>)
    ensures r.Success? ==> a == Holding(r.value) && TagOf(r.value) == requested
    ensures r.Failure? ==> r.error == TypeMismatch(UnmatchMessage)
    ensures r.Failure? <==> a.Empty? || TagOf(a.datum) != requested
  {
    match a
    case Empty => Failure(TypeMismatch(UnmatchMessage))
    case Holding(d) =>
      if TagOf(d) == requested then Success(d) else Failure(TypeMismatch(UnmatchMessage))
  }

  /** Extracting with any other type throws and never yields a reinterpreted value. */
  lemma CastMismatchFails(d: Datum, requested: TypeTag)
    requires requested != TagOf(d)
    ensures Cast(Wrap(d), requested) == Failure(TypeMismatch(UnmatchMessage))
  {
  }

  /** An empty box fails every extraction. */
  lemma CastEmptyFails(requested: TypeTag)
    ensures Cast(Empty, requested).Failure?
  {
  }
}
