/** Option and Result: the model's stand-ins for Java's null / Optional and for thrown exceptions. */
module Wrappers {

  /** A value that may be absent: Java's `null` and `Optional.empty()`. */
  datatype Option<+T> = None | Some(value: T)

  /** The outcome of an operation that can fail: `Failure` stands for a thrown exception. */
  datatype Result<+T, +E> = Success(value: T) | Failure(error: E)
}

/** The fixed-width integer types of the Java source. */
module JavaTypes {

  const INT32_MIN: int := -0x8000_0000
  const INT32_MAX: int := 0x7FFF_FFFF
  const LONG_MIN: int := -0x8000_0000_0000_0000
  const LONG_MAX: int := 0x7FFF_FFFF_FFFF_FFFF

  /** Java `int` / `Integer`. */
  type int32 = x: int | INT32_MIN <= x <= INT32_MAX

  /** Java `long` / `Long`. */
  type long = x: int | LONG_MIN <= x <= LONG_MAX

  /** Java's `x - 1` on an `int`: two's-complement wrap-around at the minimum. */
  function Decrement32(x: int32): (r: int32)
    ensures x > INT32_MIN ==> r == x - 1
    ensures x == INT32_MIN ==> r == INT32_MAX
    ensures (r - (x - 1)) % 0x1_0000_0000 == 0
  {
    if x == INT32_MIN then INT32_MAX else x - 1
  }

  /** The UTF-16 code units of one character: one for the Basic Multilingual Plane, a
      surrogate pair for a supplementary character (above U+FFFF). */
  function Utf16Units(c: char): nat {
    if c as int >= 0x1_0000 then 2 else 1
  }

  /** Java's `String.length()`: the number of UTF-16 code units. It lies between the number
      of characters and twice that, and equals the number of characters exactly when none
      is supplementary. */
  function Utf16Length(s: string): (n: nat)
    ensures |s| <= n <= 2 * |s|
    ensures n == |s| <==> forall i :: 0 <= i < |s| ==> s[i] as int < 0x1_0000
    decreases |s|
  {
    if |s| == 0 then 0
    else
      var n := Utf16Units(s[0]) + Utf16Length(s[1..]);
      assert forall i :: 1 <= i < |s| ==> s[i] == s[1..][i - 1];
      n
  }
}
