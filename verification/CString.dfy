/** NUL-terminated C strings and the order `strcmp` gives them. */
module CString {

  /** A character other than the terminator. */
  type Char = c: int | 0 < c < 256 witness 1

  /** The characters before the terminator. */
  type CStr = seq<Char>

  /** What `strcmp` reads at an index: past the last character it finds the terminator. */
  function CharAt(s: CStr, i: nat): int {
    if i < |s| then s[i] else 0
  }

  /** The sign of the result is what callers use: the first differing byte decides. */
  function Strcmp(a: CStr, b: CStr): int {
    if CharAt(a, 0) != CharAt(b, 0) || a == [] || b == [] then CharAt(a, 0) - CharAt(b, 0)
    else Strcmp(a[1..], b[1..])
  }

  predicate Less(a: CStr, b: CStr) {
    Strcmp(a, b) < 0
  }

  /** Zero means equal strings, and swapping the arguments flips the sign. */
  lemma {:induction false} StrcmpOrder(a: CStr, b: CStr)
    ensures Strcmp(a, b) == 0 <==> a == b
    ensures Less(a, b) <==> Strcmp(b, a) > 0
  {
    if a != [] && b != [] && a[0] == b[0] {
      StrcmpOrder(a[1..], b[1..]);
      assert a == [a[0]] + a[1..] && b == [b[0]] + b[1..];
    }
  }

  lemma {:induction false} LessTransitive(a: CStr, b: CStr, c: CStr)
    requires Less(a, b) && Less(b, c)
    ensures Less(a, c)
  {
    if a != [] && b != [] && c != [] && a[0] == b[0] == c[0] {
      LessTransitive(a[1..], b[1..], c[1..]);
    }
  }
}
