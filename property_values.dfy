/**
 * Paint property values as the style evaluation layer hands them to the
 * renderer: either a constant resolved for the whole layer, or a value that is
 * data-driven (it varies per feature and is only known inside the shader).
 */
module PropertyValues {

  /** A value that may be absent; `Some` stands for a JavaScript value that is truthy. */
  datatype Option<+T> = None | Some(value: T)

  /** `Constant(v)` is the `kind: "constant"` case; every other kind is `DataDriven`. */
  datatype PropertyValue<T> = Constant(value: T) | DataDriven {

    /** `constantOr(default)`: the constant when there is one, otherwise `default`. */
    function ConstantOr(default: T): (r: T)
      ensures Constant? ==> r == value
      ensures DataDriven? ==> r == default
    {
      match this
      case Constant(v) => v
      case DataDriven => default
    }
  }

  /**
   * The JavaScript truthiness of a property whose constant may be absent:
   * a constant becomes "present or not", a data-driven value stays data-driven.
   */
  function Truthiness<T>(p: PropertyValue<Option<T>>): (r: PropertyValue<bool>)
    ensures r.Constant? <==> p.Constant?
    ensures p.Constant? ==> (r.value <==> p.value.Some?)
  {
    match p
    case Constant(v) => Constant(v.Some?)
    case DataDriven => DataDriven
  }
}
