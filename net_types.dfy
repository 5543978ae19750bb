/** The pieces of the .NET runtime the application relies on: the C# integer widths with
    unchecked wrap-around, `string.IsNullOrWhiteSpace`, and the Option/Result wrappers used to
    model `null` and thrown exceptions. */
module NetTypes {

  const TwoTo31: int := 0x8000_0000
  const TwoTo32: int := 0x1_0000_0000
  const TwoTo64: int := 0x1_0000_0000_0000_0000

  /** C# `int` (System.Int32). */
  type int32 = x: int | -TwoTo31 <= x < TwoTo31

  /** C# `long` (System.Int64). */
  type int64 = x: int | -0x8000_0000_0000_0000 <= x < 0x8000_0000_0000_0000

  datatype Option<+T> = None | Some(value: T)

  datatype Result<+T, +E> = Success(value: T) | Failure(error: E)

  /** A call with no return value that either completes or throws. */
  datatype Outcome<+E> = Pass | Fail(error: E)

  /** The value an `unchecked` 32-bit operation leaves: the two's-complement reading of the
      low 32 bits of the exact result. Every operation modelled here (a sum of two `int`s, an
      `int` doubled, a 32-bit mask) has an exact result within one period of the range. */
  function Wrap32(x: int): (r: int32)
    requires -TwoTo32 <= x < TwoTo32
    ensures r == x || r == x - TwoTo32 || r == x + TwoTo32
    ensures -TwoTo31 <= x < TwoTo31 ==> r == x
  {
    if x >= TwoTo31 then x - TwoTo32
    else if x < -TwoTo31 then x + TwoTo32
    else x
  }

  /** `char.IsWhiteSpace`: the Unicode categories Zs, Zl and Zp together with
      U+0009..U+000D, U+0085 and U+00A0. */
  predicate IsWhiteSpace(c: char)
  {
    ('\U{9}' <= c <= '\U{D}') || c == '\U{20}' || c == '\U{85}' || c == '\U{A0}'
    || c == '\U{1680}' || ('\U{2000}' <= c <= '\U{200A}') || c == '\U{2028}' || c == '\U{2029}'
    || c == '\U{202F}' || c == '\U{205F}' || c == '\U{3000}'
  }

  /** A letter or digit of ASCII; none of them is white space. */
  predicate IsAsciiAlphanumeric(c: char)
  {
    ('0' <= c <= '9') || ('a' <= c <= 'z') || ('A' <= c <= 'Z')
  }

  /** `string.IsNullOrWhiteSpace` on a non-null string: empty or only white space. */
  predicate IsBlank(s: string)
  {
    forall i :: 0 <= i < |s| ==> IsWhiteSpace(s[i])
  }

  /** `string.IsNullOrWhiteSpace` on a nullable string. */
  predicate IsNullOrWhiteSpace(s: Option<string>)
    ensures s.None? || s == Some([]) ==> IsNullOrWhiteSpace(s)
  {
    s.None? || IsBlank(s.value)
  }

  /** What counts as blank: null and the empty string do; a string holding an ASCII letter or
      digit anywhere does not; on a non-null string the check is `IsBlank`. */
  lemma BlankStrings(s: string)
    ensures IsBlank([]) && IsNullOrWhiteSpace(None) && IsNullOrWhiteSpace(Some([]))
    ensures IsNullOrWhiteSpace(Some(s)) <==> IsBlank(s)
    ensures (exists i :: 0 <= i < |s| && IsAsciiAlphanumeric(s[i])) ==> !IsBlank(s)
  {
  }
}
