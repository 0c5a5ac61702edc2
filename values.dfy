/** Value wrappers shared by every module of the model. */
module Values {

  /** Python's `None` versus a present value. */
  datatype Option<+T> = None | Some(value: T) {
    function GetOr(default: T): T {
      match this
      case Some(v) => v
      case None => default
    }
  }

  /**
   * One key of a JSON object as Python sees it after `json.loads`:
   * the key is missing, present with `null`, or present with a value.
   * `d.get(k)` answers `None` for the first two; `d.get(k, default)`
   * answers `default` only for the first.
   */
  datatype Field<+T> = Absent | Null | Val(value: T) {

    /** `d.get(k)`: `None` for a missing key and for `null`. */
    function Get(): Option<T> {
      match this
      case Val(v) => Some(v)
      case _ => None
    }

    /** `d.get(k, default)`: the default stands in only for a missing key. */
    function GetWithDefault(default: T): Option<T> {
      match this
      case Absent => Some(default)
      case Null => None
      case Val(v) => Some(v)
    }
  }
}
