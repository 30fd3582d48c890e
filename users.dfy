/** The user record kept by the service and the checks applied to its fields. */
module Users {

  datatype Option<T> = None | Some(value: T)

  const MinInt32: int := -0x8000_0000
  const MaxInt32: int := 0x7FFF_FFFF

  /** C#'s `int`: ids are 32-bit signed integers. */
  type Int32 = x: int | -0x8000_0000 <= x <= 0x7FFF_FFFF

  /**
   * A user. The server assigns `id`; `name` and `email` are bound from the
   * JSON request body and are C# string references, so either may be null.
   */
  datatype User = User(id: Int32, name: Option<string>, email: Option<string>)

  /** .NET's char.IsWhiteSpace: the Unicode space, line and paragraph separators, U+0009..U+000D and U+0085. */
  predicate IsWhiteSpace(c: char) {
    var n := c as int;
    || n == 0x20 || (0x09 <= n <= 0x0D) || n == 0x85 || n == 0xA0 || n == 0x1680
    || (0x2000 <= n <= 0x200A) || n == 0x2028 || n == 0x2029 || n == 0x202F
    || n == 0x205F || n == 0x3000
  }

  /** string.IsNullOrWhiteSpace: null, empty, or nothing but white space. */
  predicate IsNullOrWhiteSpace(s: Option<string>) {
    s.None? || forall i :: 0 <= i < |s.value| ==> IsWhiteSpace(s.value[i])
  }

  /**
   * IsValidEmail. Whether a non-null string parses as one mail address whose
   * canonical form is the string itself is decided by the platform's address
   * parser, which this model takes as the parameter `parses`. A null address
   * makes the parser throw, which the helper catches and reports as invalid.
   */
  predicate IsValidEmail(email: Option<string>, parses: string -> bool) {
    email.Some? && parses(email.value)
  }
}
