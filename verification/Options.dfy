/** An optional value, for results that the source signals with NULL or a failure flag. */
module Options {
  datatype Option<+T> = None | Some(value: T)

  /** Puts what was found so far in front of an optional rest. */
  function Prepend<T>(out: seq<T>, rest: Option<seq<T>>): Option<seq<T>>
  {
    if rest.None? then None else Some(out + rest.value)
  }
}
