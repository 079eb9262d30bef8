/** Small building blocks shared by the catalog API and the static server:
    optional values, JavaScript truthiness of an optional string, and
    ASCII lower-casing (the model of String.prototype.toLowerCase). */
module Basics {

  datatype Option<+T> = None | Some(value: T) {
    function GetOr(default: T): T {
      match this
      case Some(v) => v
      case None => default
    }
  }

  /** `!x` is false for a request field: it was sent and is not the empty string. */
  predicate Truthy(field: Option<string>) {
    field.Some? && field.value != ""
  }

  predicate IsUpper(c: char) {
    'A' <= c <= 'Z'
  }

  /** ASCII lower-casing of one character; every other character is kept. */
  function LowerChar(c: char): (d: char)
    ensures IsUpper(c) ==> d != c && d as int == c as int + 32
    ensures !IsUpper(c) ==> d == c
    ensures !IsUpper(d)
  {
    if IsUpper(c) then (c as int + 32) as char else c
  }

  /** Lower-cases every character of `s`, position by position. */
  function ToLower(s: string): (r: string)
    ensures |r| == |s|
    ensures forall i :: 0 <= i < |s| ==> r[i] == LowerChar(s[i])
  {
    if s == [] then [] else [LowerChar(s[0])] + ToLower(s[1..])
  }

  /** Lower-casing twice is lower-casing once. */
  lemma ToLowerIdempotent(s: string)
    ensures ToLower(ToLower(s)) == ToLower(s)
  {
    var once := ToLower(s);
    assert forall i :: 0 <= i < |s| ==> ToLower(once)[i] == once[i];
  }

  /** Lower-casing distributes over concatenation. */
  lemma ToLowerAppend(a: string, b: string)
    ensures ToLower(a + b) == ToLower(a) + ToLower(b)
  {
    assert forall i :: 0 <= i < |a + b| ==> ToLower(a + b)[i] == (ToLower(a) + ToLower(b))[i];
  }

  /** Lower-casing a string is lower-casing its two halves. */
  lemma LowerSplit(s: string, n: nat)
    requires n <= |s|
    ensures ToLower(s) == ToLower(s[..n]) + ToLower(s[n..])
  {
    assert s == s[..n] + s[n..];
    ToLowerAppend(s[..n], s[n..]);
  }

  /** Lower-casing commutes with cutting a string in two. */
  lemma LowerPrefix(s: string, n: nat)
    requires n <= |s|
    ensures ToLower(s)[..n] == ToLower(s[..n])
    ensures ToLower(s)[n..] == ToLower(s[n..])
  {
    LowerSplit(s, n);
    var a, b := ToLower(s[..n]), ToLower(s[n..]);
    assert (a + b)[..|a|] == a && (a + b)[|a|..] == b;
  }
}
