/**
 The few JavaScript built-ins the account handlers rely on, stated over
 Dafny values: falsiness of a request field, the `length` of a string
 (counted in UTF-16 code units), and `Array.prototype.find` / `map`.
 */
module Js {
  import opened Wrappers

  /** A request field is truthy unless it holds one of the two falsy
      values a string field can take, `undefined` (absent) and the empty
      string; `!field` in the handlers is the negation of this. */
  predicate Truthy(field: Option<string>): (b: bool)
    ensures b <==> field !in {None, Some("")}
  {
    field.Some? && field.value != ""
  }

  /** Code points above the Basic Multilingual Plane take a surrogate
      pair, that is two UTF-16 code units. */
  function CodeUnits(c: char): nat {
    if c as int < 0x1_0000 then 1 else 2
  }

  /** A string's JavaScript `length`: the number of UTF-16 code units,
      which is its number of characters only when none lies outside the
      Basic Multilingual Plane. */
  function Utf16Length(s: string): (n: nat)
    ensures |s| <= n <= 2 * |s|
    ensures n == |s| <==> forall i :: 0 <= i < |s| ==> s[i] as int < 0x1_0000
    ensures n == 2 * |s| <==> forall i :: 0 <= i < |s| ==> s[i] as int >= 0x1_0000
  {
    if s == [] then 0
    else
      var rest := Utf16Length(s[1..]);
      assert forall i :: 1 <= i < |s| ==> s[i] == s[1..][i - 1];
      CodeUnits(s[0]) + rest
  }

  /** `xs.find(p)`, returning the position of the first element that
      satisfies `p` rather than the element itself. */
  function Find<T>(xs: seq<T>, p: T -> bool): (r: Option<nat>)
    ensures r.Some? ==> r.value < |xs| && p(xs[r.value])
    ensures r.Some? ==> forall j :: 0 <= j < r.value ==> !p(xs[j])
    ensures r.None? <==> forall j :: 0 <= j < |xs| ==> !p(xs[j])
  {
    if xs == [] then None
    else if p(xs[0]) then Some(0)
    else
      match Find(xs[1..], p)
      case None =>
        assert forall j :: 1 <= j < |xs| ==> xs[j] == xs[1..][j - 1];
        None
      case Some(k) =>
        assert forall j :: 1 <= j < k + 1 ==> xs[j] == xs[1..][j - 1];
        Some(k + 1)
  }

  /** `xs.map(f)`: same length, element `i` is `f` of element `i`. */
  function Map<T, U>(xs: seq<T>, f: T -> U): (r: seq<U>)
    ensures |r| == |xs|
    ensures forall i :: 0 <= i < |xs| ==> r[i] == f(xs[i])
  {
    if xs == [] then []
    else [f(xs[0])] + Map(xs[1..], f)
  }
}
