/**
 * The pieces of the Kotlin standard library the editor leans on to take
 * query strings apart and to read booleans: `split`, `joinToString` and
 * `String.toBoolean`.
 */
module Strings {
  import opened Wrappers

  /** `parts.joinToString(sep)`: the parts with one `sep` between neighbours. */
  function JoinWith(parts: seq<string>, sep: char): (r: string)
    ensures |parts| >= 1 ==> parts[0] <= r
    ensures |parts| >= 2 ==> sep in r
    ensures r == [] ==> |parts| <= 1
  {
    if |parts| == 0 then []
    else if |parts| == 1 then parts[0]
    else parts[0] + [sep] + JoinWith(parts[1..], sep)
  }

  /**
   * `s.split(sep)`: every maximal run between separators, empty runs
   * included, so the result is never empty and joining it gives `s` back.
   */
  function Split(s: string, sep: char): (parts: seq<string>)
    ensures |parts| >= 1
    ensures forall i :: 0 <= i < |parts| ==> sep !in parts[i]
    ensures JoinWith(parts, sep) == s
  {
    if s == [] then [[]]
    else
      var rest := Split(s[1..], sep);
      if s[0] == sep then
        assert ([[]] + rest)[1..] == rest;
        [[]] + rest
      else
        var parts := [[s[0]] + rest[0]] + rest[1..];
        assert parts[1..] == rest[1..];
        assert s == [s[0]] + s[1..];
        parts
  }

  /** Splitting is the only way to cut `s` into separator-free parts. */
  lemma {:induction false} SplitUnique(s: string, sep: char, parts: seq<string>)
    requires |parts| >= 1
    requires forall i :: 0 <= i < |parts| ==> sep !in parts[i]
    requires JoinWith(parts, sep) == s
    ensures Split(s, sep) == parts
    decreases |s|
  {
    if |parts| >= 2 {
      assert s == parts[0] + [sep] + JoinWith(parts[1..], sep);
    }
    if s == [] {
    } else if s[0] == sep {
      assert parts[0] == [];
      assert JoinWith(parts[1..], sep) == s[1..];
      SplitUnique(s[1..], sep, parts[1..]);
      assert parts == [[]] + parts[1..];
    } else {
      assert parts[0] != [];
      var first := parts[0][1..];
      var tail := [first] + parts[1..];
      assert tail[1..] == parts[1..];
      assert sep !in first by { assert forall c :: c in first ==> c in parts[0]; }
      assert JoinWith(tail, sep) == s[1..];
      SplitUnique(s[1..], sep, tail);
      assert parts[0] == [s[0]] + first;
      assert parts == [[s[0]] + tail[0]] + tail[1..];
    }
  }

  /** Joining separator-free parts and splitting again gives the parts back. */
  lemma SplitJoin(parts: seq<string>, sep: char)
    requires |parts| >= 1
    requires forall i :: 0 <= i < |parts| ==> sep !in parts[i]
    ensures Split(JoinWith(parts, sep), sep) == parts
  {
    SplitUnique(JoinWith(parts, sep), sep, parts);
  }

  /**
   * `s.split(sep, limit = 2)` followed by the check that two pieces came
   * back: the text before the first `sep` and everything after it, or
   * `None` when `s` holds no `sep`.
   */
  function SplitFirst(s: string, sep: char): (r: Option<(string, string)>)
    ensures r.None? <==> sep !in s
    ensures r.Some? ==> sep !in r.value.0 && r.value.0 + [sep] + r.value.1 == s
  {
    if s == [] then None
    else if s[0] == sep then Some(([], s[1..]))
    else
      match SplitFirst(s[1..], sep)
      case None => None
      case Some((key, rest)) => Some(([s[0]] + key, rest))
  }

  /** A separator-free head is recovered exactly by `SplitFirst`. */
  lemma {:induction false} SplitFirstOfJoined(key: string, sep: char, rest: string)
    requires sep !in key
    ensures SplitFirst(key + [sep] + rest, sep) == Some((key, rest))
  {
    var s := key + [sep] + rest;
    if key == [] {
      assert s[1..] == rest;
    } else {
      assert s[1..] == key[1..] + [sep] + rest;
      SplitFirstOfJoined(key[1..], sep, rest);
      assert key == [key[0]] + key[1..];
    }
  }

  /** ASCII lower-casing; every other character is left as it is. */
  function LowerAscii(c: char): char
  {
    if 'A' <= c <= 'Z' then (c as int + 32) as char else c
  }

  /** `a.equals(b, ignoreCase = true)` under ASCII case folding. */
  predicate EqualsIgnoreCase(a: string, b: string)
  {
    |a| == |b| && forall i :: 0 <= i < |a| ==> LowerAscii(a[i]) == LowerAscii(b[i])
  }

  /** Kotlin's `String.toBoolean()`: true exactly for "true" in any letter case. */
  function ToBoolean(s: string): (r: bool)
    ensures r <==> |s| == 4 && s[0] in "tT" && s[1] in "rR" && s[2] in "uU" && s[3] in "eE"
  {
    EqualsIgnoreCase(s, "true")
  }
}
