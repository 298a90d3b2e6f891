/**
 The string operations `allowed_file` leans on: Python's `str.lower`
 (restricted to ASCII letters), the position of the last occurrence of a
 character, and `str.rsplit(sep, 1)` for a one-character separator.
 */
module Strings {

  datatype Option<+T> = None | Some(value: T)

  predicate IsAsciiUpper(c: char) {
    'A' <= c <= 'Z'
  }

  predicate IsAsciiLower(c: char) {
    'a' <= c <= 'z'
  }

  /** `c.lower()` for one character, ASCII letters only: a capital becomes
      the small letter 32 code points above it, every other character is
      left alone, so no capital survives and '.' neither appears nor
      disappears. */
  function LowerChar(c: char): (d: char)
    ensures !IsAsciiUpper(d)
    ensures IsAsciiUpper(c) ==> IsAsciiLower(d) && d as int - c as int == 'a' as int - 'A' as int
    ensures !IsAsciiUpper(c) ==> d == c
    ensures d == '.' <==> c == '.'
  {
    if IsAsciiUpper(c) then (c as int + 32) as char else c
  }

  /** `s.lower()`, character by character. */
  function Lower(s: string): (r: string)
    ensures |r| == |s|
    ensures forall i :: 0 <= i < |s| ==> r[i] == LowerChar(s[i])
  {
    if s == [] then [] else [LowerChar(s[0])] + Lower(s[1..])
  }

  /** Lower-casing commutes with taking a suffix. */
  lemma LowerSuffix(s: string, k: nat)
    requires k <= |s|
    ensures Lower(s[k..]) == Lower(s)[k..]
  {
  }

  /** Lower-casing commutes with taking a prefix. */
  lemma LowerPrefix(s: string, k: nat)
    requires k <= |s|
    ensures Lower(s[..k]) == Lower(s)[..k]
  {
  }

  /** Index of the last occurrence of `c` in `s`, or None when `c` does not occur. */
  function LastIndexOf(s: string, c: char): (r: Option<nat>)
    ensures r.None? <==> c !in s
    ensures r.Some? ==> r.value < |s| && s[r.value] == c && c !in s[r.value + 1..]
  {
    if |s| == 0 then None
    else if s[|s| - 1] == c then Some(|s| - 1)
    else
      assert s == s[..|s| - 1] + [s[|s| - 1]];
      LastIndexOf(s[..|s| - 1], c)
  }

  /** Any occurrence of `c` after which `c` no longer occurs is the one
      LastIndexOf finds. */
  lemma {:induction false} LastIndexOfUnique(s: string, c: char, i: nat)
    requires i < |s| && s[i] == c && c !in s[i + 1..]
    ensures LastIndexOf(s, c) == Some(i)
  {
  }

  /** Lower-casing moves no '.': the last '.' of a name and of its
      lower-case form are at the same place. */
  lemma {:induction false} LastDotIgnoresCase(s: string)
    ensures LastIndexOf(Lower(s), '.') == LastIndexOf(s, '.')
  {
    if |s| > 0 {
      var n := |s| - 1;
      if s[n] != '.' {
        LowerPrefix(s, n);
        LastDotIgnoresCase(s[..n]);
      }
    }
  }

  /** `s.rsplit(sep, 1)`: `[s]` when `sep` does not occur, otherwise the
      text before and after the last `sep`. */
  function RSplitOnce(s: string, sep: char): (parts: seq<string>)
    ensures |parts| == 1 <==> sep !in s
    ensures |parts| == 1 ==> parts[0] == s
    ensures |parts| != 1 ==> |parts| == 2 && parts[0] + [sep] + parts[1] == s && sep !in parts[1]
  {
    match LastIndexOf(s, sep)
    case None => [s]
    case Some(i) =>
      assert s == s[..i] + [sep] + s[i + 1..];
      [s[..i], s[i + 1..]]
  }

  /** The converse of RSplitOnce's guarantee: splitting `head + sep + tail`
      at the last `sep` gives back exactly `head` and `tail` when `tail`
      holds no `sep`, whatever `head` holds. */
  lemma {:induction false} RSplitOnceOfJoin(head: string, sep: char, tail: string)
    requires sep !in tail
    ensures RSplitOnce(head + [sep] + tail, sep) == [head, tail]
  {
    var s := head + [sep] + tail;
    assert s[|head|] == sep;
    assert s[|head| + 1..] == tail;
    LastIndexOfUnique(s, sep, |head|);
    assert s[..|head|] == head;
  }
}
