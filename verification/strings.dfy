/**
 * The .NET `System.String` operations that the modelled code relies on: StartsWith,
 * EndsWith, Contains, IndexOf, Replace, Split with RemoveEmptyEntries, Trim,
 * IsNullOrWhiteSpace, the UTF-16 `Length` and ToLower restricted to ASCII. All of them
 * compare character by character. For Contains, IndexOf(string, Ordinal), Replace and
 * Split that is the .NET behaviour; the code calls the culture-sensitive StartsWith and
 * EndsWith overloads, which also skip ignorable characters, and the model compares those
 * two ordinally as well.
 *
 * A Dafny `string` is a sequence of Unicode scalar values; .NET strings are UTF-16 code
 * units. The difference shows in three places:
 *  - `Length` counts code units (see `Utf16Length`);
 *  - `Substring(0, 6)` on a private chat id is taken on scalar values in the model;
 *  - a .NET string may hold a lone surrogate, which no Dafny `char` represents and which
 *    `Encoding.UTF8.GetBytes` replaces by U+FFFD. The UTF-8 lemmas of the `Encryption`
 *    module, and the key distinctness built on them, are therefore about strings of
 *    scalar values only.
 */
module Strings {
  import opened Common

  predicate StartsWith(s: string, prefix: string) {
    |prefix| <= |s| && s[..|prefix|] == prefix
  }

  predicate EndsWith(s: string, suffix: string) {
    |suffix| <= |s| && s[|s| - |suffix|..] == suffix
  }

  /** `pat` occurs in `s` starting at index `i`. */
  predicate OccursAt(s: string, pat: string, i: nat) {
    i + |pat| <= |s| && s[i..i + |pat|] == pat
  }

  /** Ordinal `String.IndexOf(pat)`: the first index where `pat` occurs, scanning from `from`. */
  function IndexOfFrom(s: string, pat: string, from: nat): (r: Option<nat>)
    ensures r.Some? ==> from <= r.value && OccursAt(s, pat, r.value)
    ensures r.Some? ==> forall j :: from <= j < r.value ==> !OccursAt(s, pat, j)
    ensures r.None? ==> forall j :: from <= j <= |s| ==> !OccursAt(s, pat, j)
    decreases |s| - from
  {
    if from + |pat| > |s| then None
    else if s[from..from + |pat|] == pat then Some(from)
    else IndexOfFrom(s, pat, from + 1)
  }

  function IndexOf(s: string, pat: string): Option<nat> {
    IndexOfFrom(s, pat, 0)
  }

  /** `String.Contains(pat)`, ordinal. */
  predicate Contains(s: string, pat: string) {
    IndexOf(s, pat).Some?
  }

  /**
   * `String.Replace(pat, rep)`: every non-overlapping occurrence of `pat`, found left to
   * right, is replaced by `rep`. .NET throws for an empty `pat`; every caller passes a
   * non-empty literal.
   */
  function ReplaceAll(s: string, pat: string, rep: string): string
    requires pat != []
    decreases |s|
  {
    match IndexOf(s, pat)
    case None => s
    case Some(i) => s[..i] + rep + ReplaceAll(s[i + |pat|..], pat, rep)
  }

  /** `String.Split(new[] { sep }, StringSplitOptions.None)`. */
  function SplitOn(s: string, sep: string): (parts: seq<string>)
    requires sep != []
    ensures |parts| >= 1
    decreases |s|
  {
    match IndexOf(s, sep)
    case None => [s]
    case Some(i) => [s[..i]] + SplitOn(s[i + |sep|..], sep)
  }

  /** What `StringSplitOptions.RemoveEmptyEntries` keeps. */
  function RemoveEmpty(parts: seq<string>): (r: seq<string>)
    ensures forall k :: 0 <= k < |r| ==> r[k] != []
    ensures |r| <= |parts|
  {
    if parts == [] then []
    else if parts[0] == [] then RemoveEmpty(parts[1..])
    else [parts[0]] + RemoveEmpty(parts[1..])
  }

  /** `String.Split(new[] { sep }, StringSplitOptions.RemoveEmptyEntries)`. */
  function SplitRemoveEmpty(s: string, sep: string): seq<string>
    requires sep != []
  {
    RemoveEmpty(SplitOn(s, sep))
  }

  /** `char.IsWhiteSpace`: the Unicode categories Zs, Zl, Zp and the controls U+0009-U+000D, U+0085. */
  predicate IsWhiteSpace(c: char) {
    var n := c as int;
    (0x09 <= n <= 0x0D) || n == 0x20 || n == 0x85 || n == 0xA0 || n == 0x1680 ||
    (0x2000 <= n <= 0x200A) || n == 0x2028 || n == 0x2029 || n == 0x202F ||
    n == 0x205F || n == 0x3000
  }

  /** `string.IsNullOrWhiteSpace`; a null string is modelled as the empty one. */
  predicate IsNullOrWhiteSpace(s: string) {
    forall i :: 0 <= i < |s| ==> IsWhiteSpace(s[i])
  }

  function TrimStart(s: string): string {
    if s != [] && IsWhiteSpace(s[0]) then TrimStart(s[1..]) else s
  }

  function TrimEnd(s: string): string {
    if s != [] && IsWhiteSpace(s[|s| - 1]) then TrimEnd(s[..|s| - 1]) else s
  }

  /** `String.Trim()`: leading and trailing white space removed. */
  function Trim(s: string): string {
    TrimEnd(TrimStart(s))
  }

  /** `String.Length`: the number of UTF-16 code units. */
  function Utf16Length(s: string): (n: nat)
    ensures |s| <= n <= 2 * |s|
  {
    if s == [] then 0
    else (if s[0] as int > 0xFFFF then 2 else 1) + Utf16Length(s[1..])
  }

  /** `char.ToLower` on ASCII letters; every other character is left as it is. */
  function AsciiLower(c: char): char {
    if 'A' <= c <= 'Z' then (c as int + 32) as char else c
  }

  function ToLowerAscii(s: string): (r: string)
    ensures |r| == |s|
    ensures forall i :: 0 <= i < |s| ==> r[i] == AsciiLower(s[i])
  {
    seq(|s|, i requires 0 <= i < |s| => AsciiLower(s[i]))
  }

  // ---------------------------------------------------------------------------------
  // Properties

  lemma {:induction false} TrimStartAllWhite(s: string)
    ensures TrimStart(s) == [] <==> IsNullOrWhiteSpace(s)
    ensures TrimStart(s) != [] ==> !IsWhiteSpace(TrimStart(s)[0])
    decreases |s|
  {
    if s != [] && IsWhiteSpace(s[0]) {
      TrimStartAllWhite(s[1..]);
      assert IsNullOrWhiteSpace(s) <==> IsNullOrWhiteSpace(s[1..]) by {
        if IsNullOrWhiteSpace(s[1..]) {
          forall i | 0 <= i < |s| ensures IsWhiteSpace(s[i]) {
            if i > 0 { assert s[i] == s[1..][i - 1]; }
          }
        }
      }
    }
  }

  lemma {:induction false} TrimEndKeepsFirst(s: string)
    requires s != [] && !IsWhiteSpace(s[0])
    ensures TrimEnd(s) != [] && TrimEnd(s)[0] == s[0]
    decreases |s|
  {
    if IsWhiteSpace(s[|s| - 1]) {
      TrimEndKeepsFirst(s[..|s| - 1]);
    }
  }

  /** `string.IsNullOrWhiteSpace(s)` holds exactly when trimming leaves nothing. */
  lemma WhiteSpaceIffTrimEmpty(s: string)
    ensures IsNullOrWhiteSpace(s) <==> Trim(s) == []
  {
    TrimStartAllWhite(s);
    if TrimStart(s) != [] {
      TrimEndKeepsFirst(TrimStart(s));
    }
  }

  /** One leading white-space character does not change the trimmed text. */
  lemma TrimLeadingSpace(s: string)
    ensures Trim(" " + s) == Trim(s)
  {
    assert (" " + s)[1..] == s;
  }

  /** After the first occurrence at index 0, `Replace` works on the rest only. */
  lemma {:induction false} ReplacePrefix(pat: string, rest: string)
    requires pat != []
    requires !Contains(rest, pat)
    ensures ReplaceAll(pat + rest, pat, "") == rest
  {
    var s := pat + rest;
    assert s[0..|pat|] == pat;
    assert IndexOf(s, pat) == Some(0);
    assert s[|pat|..] == rest;
    assert ReplaceAll(rest, pat, "") == rest;
  }
}
