/** The slice of JSON that the trigger commands look at: a request arrives as
    an array of JSON values, and the handlers only ask whether an element is
    a string and, if so, what that string is. */
module JsonArgs {

  /** The conventional Some/None datatype, used where the C code returns NULL. */
  datatype Option<+T> = None | Some(value: T)

  /** One element of the request array. Every JSON value other than a string
      (number, object, array, null, ...) behaves the same way here, so they
      share one constructor. */
  datatype Value = String(text: string) | NonString

  /** Reading element `i` of the array as a string. An index past the end of
      the array yields NULL from the array accessor, and asking NULL or a
      non-string for its string value yields NULL again; both are `None`. */
  function StringAt(args: seq<Value>, i: nat): Option<string> {
    if i < |args| && args[i].String? then Some(args[i].text) else None
  }
}
