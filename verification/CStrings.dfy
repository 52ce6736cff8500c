/** NUL-terminated C strings, as values and as slices of a character buffer. */
module CStrings {

  const NUL: char := '\0'

  /** A C string, without its terminator. */
  predicate IsCString(s: string) {
    NUL !in s
  }

  /** What reading s[k] in C gives: the terminator just past the end. */
  function At(s: string, k: nat): char {
    if k < |s| then s[k] else NUL
  }

  /** `s` and its terminator occupy `buf` from position `at`. */
  ghost predicate HasAt(buf: seq<char>, at: nat, s: string) {
    && IsCString(s)
    && at + |s| < |buf|
    && forall k :: 0 <= k <= |s| ==> buf[at + k] == At(s, k)
  }

  /** Position of the first `c` in `s`, or |s|. */
  function IndexOf(s: string, c: char): (k: nat)
    ensures k <= |s|
    ensures c !in s[..k]
    ensures k < |s| ==> s[k] == c
    ensures k < |s| <==> c in s
  {
    if s == "" || s[0] == c then 0 else
      assert s[..1 + IndexOf(s[1..], c)] == [s[0]] + s[1..][..IndexOf(s[1..], c)];
      1 + IndexOf(s[1..], c)
  }

  lemma IndexOfIs(s: string, c: char, k: nat)
    requires k <= |s| && c !in s[..k]
    requires k < |s| ==> s[k] == c
    ensures IndexOf(s, c) == k
  {
    if s != "" && s[0] != c {
      assert k > 0 && s[..k] == [s[0]] + s[1..][..k - 1];
      IndexOfIs(s[1..], c, k - 1);
    }
  }

  /** tolower in the C locale. */
  function ToLower(c: char): char {
    if 'A' <= c <= 'Z' then (c as int + 32) as char else c
  }

  /** toupper in the C locale. */
  function ToUpper(c: char): char {
    if 'a' <= c <= 'z' then (c as int - 32) as char else c
  }

  /** strcasecmp(a, b) == 0 */
  predicate EqualNoCase(a: string, b: string) {
    |a| == |b| && forall i :: 0 <= i < |a| ==> ToLower(a[i]) == ToLower(b[i])
  }

  /** The sign of strcmp(a, b). */
  function Compare(a: string, b: string): int {
    if a == "" && b == "" then 0
    else if a == "" then -1
    else if b == "" then 1
    else if a[0] < b[0] then -1
    else if b[0] < a[0] then 1
    else Compare(a[1..], b[1..])
  }

  lemma CompareZero(a: string, b: string)
    ensures Compare(a, b) == 0 <==> a == b
  {
    if a != "" && b != "" && a[0] == b[0] {
      CompareZero(a[1..], b[1..]);
      assert a == [a[0]] + a[1..] && b == [b[0]] + b[1..];
    }
  }

  /** The buffer position strchr(buf + from, c) points at, if any. */
  method StrChr(buf: array<char>, from: nat, c: char, ghost s: string) returns (at: int)
    requires c != NUL && HasAt(buf[..], from, s)
    ensures c in s ==> at == from + IndexOf(s, c)
    ensures c !in s ==> at == -1
  {
    at := from;
    assert buf[at] == At(s, 0);
    while buf[at] != NUL
      invariant from <= at <= from + |s| < buf.Length
      invariant buf[at] == At(s, at - from) && c !in s[..at - from]
      decreases from + |s| - at
    {
      if buf[at] == c {
        IndexOfIs(s, c, at - from);
        return;
      }
      assert s[..at + 1 - from] == s[..at - from] + [s[at - from]];
      at := at + 1;
      assert buf[at] == At(s, at - from);
    }
    assert at == from + |s| && s[..|s|] == s;
    at := -1;
  }

  /** The C string that starts at `from`. */
  method ReadString(buf: array<char>, from: nat, ghost s: string) returns (r: string)
    requires HasAt(buf[..], from, s)
    ensures r == s
  {
    var at := from;
    assert buf[at] == At(s, 0);
    while buf[at] != NUL
      invariant from <= at <= from + |s| < buf.Length && buf[at] == At(s, at - from)
      invariant forall k :: 0 <= k < at - from ==> buf[from + k] == s[k]
      decreases from + |s| - at
    {
      at := at + 1;
      assert buf[at] == At(s, at - from);
    }
    r := buf[from..at];
  }
}
