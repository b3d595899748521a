/** The conventional Some/None datatype, used for PHP values that may be absent. */
module Wrappers {
  datatype Option<+T> = None | Some(value: T)
}

/**
  The PHP string built-ins the finder calls (`ltrim`, `strpos`, string truthiness)
  and the character classes and case folding of the PCRE patterns it matches with.
  Strings are sequences of characters; the patterns only mention ASCII, so a
  multi-byte character never matches any of them.
 */
module PhpText {
  import opened Wrappers

  /** `\s` of PCRE without Unicode properties: tab, line feed, vertical tab, form feed, carriage return and space. */
  predicate IsSpace(c: char) {
    c == ' ' || 9 <= c as int <= 13
  }

  /** The class `[a-z0-9\\]` under the `i` flag: ASCII letters of either case, digits, and the namespace separator. */
  predicate IsNameChar(c: char) {
    ('a' <= c <= 'z') || ('A' <= c <= 'Z') || ('0' <= c <= '9') || c == '\\'
  }

  /** A non-empty run of name characters: what `[a-z0-9\\]+` matches. */
  predicate IsName(s: string) {
    |s| > 0 && forall k :: 0 <= k < |s| ==> IsNameChar(s[k])
  }

  function ToLower(c: char): char {
    if 'A' <= c <= 'Z' then (c as int + 32) as char else c
  }

  /** Character equality under the `i` flag (ASCII case folding). */
  predicate CiEq(a: char, b: char) {
    ToLower(a) == ToLower(b)
  }

  /** The literal `lit` of a pattern matches `text` at position `i` under the `i` flag. */
  predicate CiPrefixAt(text: string, i: nat, lit: string) {
    i + |lit| <= |text| && forall k :: 0 <= k < |lit| ==> CiEq(text[i + k], lit[k])
  }

  predicate NoLeadingBackslash(s: string) {
    s == [] || s[0] != '\\'
  }

  /** PHP `ltrim($s, '\\')`: removes every leading backslash, not only the first. */
  function LTrim(s: string): (r: string)
    ensures |r| <= |s|
    ensures forall k :: 0 <= k < |s| - |r| ==> s[k] == '\\'
    ensures forall k :: 0 <= k < |r| ==> r[k] == s[|s| - |r| + k]
    ensures NoLeadingBackslash(r)
  {
    if |s| > 0 && s[0] == '\\' then LTrim(s[1..]) else s
  }

  /** PHP `strpos($s, $c)` for a one-character needle: the first position of `c`, or `false`. */
  function IndexOf(s: string, c: char): (r: Option<nat>)
    ensures r.Some? ==> r.value < |s| && s[r.value] == c
    ensures r.Some? ==> forall j :: 0 <= j < r.value ==> s[j] != c
    ensures r.None? ==> forall j :: 0 <= j < |s| ==> s[j] != c
  {
    if s == [] then None
    else if s[0] == c then Some(0)
    else match IndexOf(s[1..], c)
      case Some(k) => Some(k + 1)
      case None => None
  }

  /** PHP truthiness of a string: only "" and "0" are falsy. */
  predicate PhpTruthy(s: string) {
    s != "" && s != "0"
  }
}
