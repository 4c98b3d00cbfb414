/** The repository's optional value (`Option.java`): a sealed interface with
    the records `None` and `Some(value)`. */
module Options {
  import opened Outcomes

  /** `None.get` throws a RuntimeException ("No value."). */
  datatype OptionError = NoSuchValue

  /** A Java reference that may be null: the argument of `Option.of`. */
  datatype Nullable<T> = Null | Ref(target: T)

  datatype Option<T> = None | Some(value: T) {

    /** `map(f)`: `None` stays `None`; `Some(v)` becomes `Some(f(v))`. */
    function Map<U>(f: T -> U): (r: Option<U>)
      ensures r.Some? <==> Some?
      ensures Some? ==> r.value == f(value)
    {
      match this
      case None => None
      case Some(v) => Some(f(v))
    }

    /** `get()`: the value of a `Some`; throws on `None`. */
    function Get(): (r: Outcome<T, OptionError>)
      ensures r.Ok? <==> Some?
      ensures r.Ok? ==> r.value == value
    {
      match this
      case None => Err(NoSuchValue)
      case Some(v) => Ok(v)
    }

    /** `stream()`: no element for `None`, exactly the value for `Some`. */
    function Stream(): (r: seq<T>)
      ensures |r| <= 1
      ensures |r| == 1 <==> Some?
      ensures Some? ==> r[0] == value
    {
      match this
      case None => []
      case Some(v) => [v]
    }
  }

  /** `Option.of(value)`: `None` for null, `Some(value)` otherwise. */
  function Of<T>(value: Nullable<T>): (r: Option<T>)
    ensures r.None? <==> value.Null?
    ensures value.Ref? ==> r.value == value.target
  {
    match value
    case Null => None
    case Ref(v) => Some(v)
  }

  /** Reading back what `of` wrapped: `of(v).get()` is `v` and `of(null).get()`
      throws. */
  lemma OfThenGet<T>(value: Nullable<T>)
    ensures Of(value).Get() == if value.Ref? then Ok(value.target) else Err(NoSuchValue)
  {
  }

  /** `map` commutes with `stream`: the stream of the mapped option is the
      mapped stream. */
  lemma MapStream<T, U>(o: Option<T>, f: T -> U)
    ensures o.Map(f).Stream() == seq(|o.Stream()|, i requires 0 <= i < |o.Stream()| => f(o.Stream()[i]))
  {
  }
}
