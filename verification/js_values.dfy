/** JavaScript values that may be missing. */
module JsValues {

  /** A value, or `Absent` where JavaScript has NaN, null or undefined
      (which of them depends on where it is used). */
  datatype Nullable<T> = Absent | Present(value: T) {

    /** `x ?? fallback`: the value if there is one, else the fallback. */
    function OrElse(fallback: T): T {
      if Present? then value else fallback
    }
  }
}
