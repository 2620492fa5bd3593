/** Small value types shared by every part of the model. */
module Basics {

  /** A value that may be absent (`null` or `undefined` in the JavaScript services). */
  datatype Option<+T> = None | Some(value: T)

  /** The colour every layer uses when nothing better is known. */
  const Black: string := "#000000"

  /** JavaScript's `s || d` on strings: the empty string is falsy, so it is replaced by `d`. */
  function OrElse(s: string, d: string): (r: string)
    ensures s != [] ==> r == s
    ensures s == [] ==> r == d
    ensures d != [] ==> r != []
  {
    if s != [] then s else d
  }

  /** True when `prefix` is a prefix of `s` (JavaScript's `startsWith`). */
  predicate StartsWith(s: string, prefix: string)
  {
    |prefix| <= |s| && s[..|prefix|] == prefix
  }
}
