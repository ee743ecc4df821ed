/** The few pieces of Python's built-in semantics that the modelled code relies on:
    slice clamping, negative list indexing, `str.join`, and the truthiness of
    `str.strip()`. */
module Py {

  datatype Option<+T> = None | Some(value: T)

  datatype Result<+T, +E> = Ok(value: T) | Err(error: E)

  function Min(a: int, b: int): int { if a <= b then a else b }

  /** How Python normalises one bound of `s[lo:hi]` for a sequence of length `n`:
      a negative bound counts from the end, and the result is clamped to `[0, n]`. */
  function ClampBound(b: int, n: nat): (r: nat)
    ensures r <= n
    ensures 0 <= b <= n ==> r == b
    ensures b > n ==> r == n
    ensures 0 <= b + n && b < 0 ==> r == n + b
    ensures b + n < 0 ==> r == 0
  {
    if b < 0 then (if b + n < 0 then 0 else b + n)
    else if b > n then n
    else b
  }

  /** Python's `s[lo:hi]` with step 1: never fails, and is empty when the
      normalised bounds cross. */
  function Slice<T>(s: seq<T>, lo: int, hi: int): seq<T>
  {
    var l := ClampBound(lo, |s|);
    var h := ClampBound(hi, |s|);
    if h <= l then [] else s[l..h]
  }

  /** For non-negative bounds a Python slice is the Dafny slice with both bounds
      clamped at the end of the sequence. */
  lemma SliceNonNegative<T>(s: seq<T>, lo: int, hi: int)
    requires 0 <= lo <= hi
    ensures Slice(s, lo, hi) == s[Min(lo, |s|)..Min(hi, |s|)]
    ensures |Slice(s, lo, hi)| == Min(hi, |s|) - Min(lo, |s|)
  {
  }

  /** `s[-k:]` for a positive `k`: the last `min(|s|, k)` elements of `s`, in
      order (`s[-0:]` is all of `s`, hence `k > 0`). */
  lemma SliceLast<T>(s: seq<T>, k: nat)
    requires k > 0
    ensures |Slice(s, -(k as int), |s|)| == Min(|s|, k)
    ensures Slice(s, -(k as int), |s|) == s[|s| - Min(|s|, k)..]
  {
  }

  /** Whether Python accepts `i` as an index into a list of length `n`. */
  predicate InIndexRange(i: int, n: nat) { 0 <= i + n && i < n }

  /** The position Python's `s[i]` reads: a negative `i` counts from the end. */
  function Position(i: int, n: nat): (p: nat)
    requires InIndexRange(i, n)
    ensures p < n
    ensures i >= 0 ==> p == i
    ensures i < 0 ==> p == n + i
  {
    if i < 0 then n + i else i
  }

  /** `sep.join(parts)`. */
  function Join(sep: string, parts: seq<string>): string
  {
    if |parts| == 0 then ""
    else if |parts| == 1 then parts[0]
    else parts[0] + sep + Join(sep, parts[1..])
  }

  function TotalLength(parts: seq<string>): nat
  {
    if parts == [] then 0 else |parts[0]| + TotalLength(parts[1..])
  }

  /** The joined string holds every part once and one separator between each
      two neighbouring parts. */
  lemma {:induction false} JoinLength(sep: string, parts: seq<string>)
    requires parts != []
    ensures |Join(sep, parts)| == TotalLength(parts) + |sep| * (|parts| - 1)
  {
    if |parts| > 1 {
      JoinLength(sep, parts[1..]);
    }
  }

  /** Joining two non-empty lists is joining each and putting one separator
      between the results: the parts keep their order. */
  lemma {:induction false} JoinAppend(sep: string, a: seq<string>, b: seq<string>)
    requires a != [] && b != []
    ensures Join(sep, a + b) == Join(sep, a) + sep + Join(sep, b)
  {
    if |a| == 1 {
      assert (a + b)[1..] == b;
    } else {
      assert (a + b)[1..] == a[1..] + b;
      JoinAppend(sep, a[1..], b);
    }
  }

  /** Python's `str.isspace()` for one character: the characters that `str.strip()`
      with no argument removes. */
  predicate IsWhitespace(c: char)
  {
    ('\t' <= c <= '\r') || ('\U{1C}' <= c <= '\U{1F}') || c == ' '
    || c == '\U{85}' || c == '\U{A0}' || c == '\U{1680}'
    || ('\U{2000}' <= c <= '\U{200A}') || c == '\U{2028}' || c == '\U{2029}'
    || c == '\U{202F}' || c == '\U{205F}' || c == '\U{3000}'
  }

  /** The truth value of `s.strip()`: some character is not whitespace. */
  predicate HasContent(s: string)
  {
    exists i :: 0 <= i < |s| && !IsWhitespace(s[i])
  }
}
