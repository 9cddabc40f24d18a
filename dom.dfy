/**
 * The small part of the browser's DOM that the theme scripts rely on:
 * optional values for attributes and elements that may be missing,
 * JavaScript truthiness of an attribute read, and `document.getElementById`
 * over the ids of a document's elements in tree order.
 */
module Dom {

  datatype Option<T> = None | Some(value: T)

  /** `if (attr)` on the result of `getAttribute` or a `dataset` read:
      a missing attribute (null or undefined) and the empty string are falsy. */
  predicate Truthy(attr: Option<string>)
  {
    attr.Some? && attr.value != ""
  }

  /** The string `getElementById` receives when it is handed the result of
      `getAttribute`: a missing attribute (null) is converted to "null". */
  function IdArgument(attr: Option<string>): string
  {
    if attr.Some? then attr.value else "null"
  }

  /** The first position at or after `from` whose id is `key`. */
  function FirstIdFrom(ids: seq<string>, key: string, from: nat): (r: Option<nat>)
    requires from <= |ids|
    ensures r.Some? ==> from <= r.value < |ids| && ids[r.value] == key
    ensures r.Some? ==> forall j :: from <= j < r.value ==> ids[j] != key
    ensures r.None? ==> forall j :: from <= j < |ids| ==> ids[j] != key
    decreases |ids| - from
  {
    if from == |ids| then None
    else if ids[from] == key then Some(from)
    else FirstIdFrom(ids, key, from + 1)
  }

  /** `document.getElementById(key)`, the document given as the ids of its
      elements in tree order (an element without an id has id ""): the first
      element whose id is `key`; the empty string names no element. */
  function GetElementById(ids: seq<string>, key: string): (r: Option<nat>)
    ensures r.Some? <==> key != "" && exists j :: 0 <= j < |ids| && ids[j] == key
    ensures r.Some? ==> r.value < |ids| && ids[r.value] == key
    ensures r.Some? ==> forall j :: 0 <= j < r.value ==> ids[j] != key
  {
    if key == "" then None else FirstIdFrom(ids, key, 0)
  }

  /** ASCII lower-casing of one character, as `toLowerCase` does for tag names. */
  function LowerChar(c: char): char
  {
    if 'A' <= c <= 'Z' then (c as int - 'A' as int + 'a' as int) as char else c
  }

  function ToLowerAscii(s: string): string
  {
    seq(|s|, i requires 0 <= i < |s| => LowerChar(s[i]))
  }
}
