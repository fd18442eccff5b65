/** The .NET string operations the core calls (`IndexOf(char)`, `Replace`,
    `ToUpper`, `string.Join`), stated over `seq<char>` with ordinal
    (case-sensitive, culture-free) comparison. */
module Text {

  /** Upper-case of a character. Only ASCII letters change; the culture-sensitive
      mapping of other scripts is not modelled. */
  function ToUpper(c: char): (u: char)
    ensures u == '_' <==> c == '_'
    ensures 'a' <= c <= 'z' ==> 'A' <= u <= 'Z' && u as int - c as int == 'A' as int - 'a' as int
    ensures !('a' <= c <= 'z') ==> u == c
  {
    if 'a' <= c <= 'z' then (c as int - 'a' as int + 'A' as int) as char else c
  }

  /** `String.IndexOf(char)`: the first position holding `c`, or -1 when there is none. */
  function IndexOf(s: string, c: char): (i: int)
    ensures -1 <= i < |s|
    ensures i == -1 <==> c !in s
    ensures 0 <= i ==> s[i] == c && c !in s[..i]
  {
    if s == [] then -1
    else if s[0] == c then 0
    else
      var j := IndexOf(s[1..], c);
      assert 0 <= j ==> s[..j + 1] == [s[0]] + s[1..][..j];
      if j < 0 then -1 else j + 1
  }

  /** A prefix free of `c` shifts the first position of `c` by its length. */
  lemma {:induction false} IndexOfAfterPrefix(p: string, t: string, c: char)
    requires c !in p
    ensures IndexOf(p + t, c) == if IndexOf(t, c) < 0 then -1 else |p| + IndexOf(t, c)
  {
    if p != [] {
      assert (p + t)[1..] == p[1..] + t;
      IndexOfAfterPrefix(p[1..], t, c);
    } else {
      assert p + t == t;
    }
  }

  /** `String.Replace(pattern, replacement)`: every non-overlapping occurrence of
      `pattern`, found scanning left to right, is replaced. */
  function Replace(s: string, pattern: string, replacement: string): string
    requires pattern != []
    decreases |s|
  {
    if s == [] then []
    else if pattern <= s then replacement + Replace(s[|pattern|..], pattern, replacement)
    else [s[0]] + Replace(s[1..], pattern, replacement)
  }

  /** A pattern holding a character that `s` lacks never occurs in `s`, so the
      replacement leaves `s` as it is. */
  lemma {:induction false} ReplaceAbsent(s: string, pattern: string, replacement: string, c: char)
    requires pattern != []
    requires c in pattern && c !in s
    ensures Replace(s, pattern, replacement) == s
    decreases |s|
  {
    if s != [] {
      assert !(pattern <= s);
      ReplaceAbsent(s[1..], pattern, replacement, c);
      assert s == [s[0]] + s[1..];
    }
  }

  /** When the first two characters of `pattern` never stand side by side in
      `s`, the pattern does not occur and `s` is left as it is. */
  lemma {:induction false} ReplaceWithoutLeadingPair(s: string, pattern: string, replacement: string)
    requires |pattern| >= 2
    requires forall k | 0 <= k < |s| - 1 :: !(s[k] == pattern[0] && s[k + 1] == pattern[1])
    ensures Replace(s, pattern, replacement) == s
    decreases |s|
  {
    if s != [] {
      if |s| >= 2 {
        assert !(s[0] == pattern[0] && s[1] == pattern[1]);
      }
      assert !(pattern <= s);
      forall k | 0 <= k < |s[1..]| - 1 ensures !(s[1..][k] == pattern[0] && s[1..][k + 1] == pattern[1]) {
        assert s[1..][k] == s[k + 1] && s[1..][k + 1] == s[k + 2];
      }
      ReplaceWithoutLeadingPair(s[1..], pattern, replacement);
      assert s == [s[0]] + s[1..];
    }
  }

  /** A prefix in which the pattern's first two characters never start side by
      side is copied as it is, and the replacement goes on after it. */
  lemma {:induction false} ReplaceAfterPrefix(a: string, b: string, pattern: string, replacement: string)
    requires |pattern| >= 2 && b != []
    requires forall k | 0 <= k < |a| :: !((a + b)[k] == pattern[0] && (a + b)[k + 1] == pattern[1])
    ensures Replace(a + b, pattern, replacement) == a + Replace(b, pattern, replacement)
  {
    var s := a + b;
    if a != [] {
      var a' := a[1..];
      assert s[1..] == a' + b;
      assert !(s[0] == pattern[0] && s[1] == pattern[1]);
      assert !(pattern <= s);
      assert Replace(s, pattern, replacement) == [s[0]] + Replace(a' + b, pattern, replacement);
      forall k | 0 <= k < |a'| ensures !((a' + b)[k] == pattern[0] && (a' + b)[k + 1] == pattern[1]) {
        assert (a' + b)[k] == s[k + 1] && (a' + b)[k + 1] == s[k + 2];
      }
      ReplaceAfterPrefix(a', b, pattern, replacement);
      assert [s[0]] + (a' + Replace(b, pattern, replacement)) == a + Replace(b, pattern, replacement);
    } else {
      assert s == b;
    }
  }

  /** `string.Join(separator, parts)`. */
  function Join(separator: string, parts: seq<string>): string
  {
    if parts == [] then ""
    else if |parts| == 1 then parts[0]
    else parts[0] + separator + Join(separator, parts[1..])
  }

  /** Cuts `s` at every `separator`; the inverse of `Join` for a one-character separator. */
  function Split(s: string, separator: char): (parts: seq<string>)
    ensures |parts| >= 1
    decreases |s|
  {
    var i := IndexOf(s, separator);
    if i < 0 then [s] else [s[..i]] + Split(s[i + 1..], separator)
  }

  /** Splitting at a first separator that follows a separator-free prefix
      cuts off exactly that prefix. */
  lemma SplitAfterPart(part: string, rest: string, separator: char)
    requires separator !in part
    ensures Split(part + [separator] + rest, separator) == [part] + Split(rest, separator)
  {
    var s := part + [separator] + rest;
    IndexOfAfterPrefix(part, [separator] + rest, separator);
    assert s == part + ([separator] + rest);
    assert s[..|part|] == part;
    assert s[|part| + 1..] == rest;
  }

  /** Joining parts that do not contain the separator, then splitting, gives
      the parts back. */
  lemma {:induction false} SplitJoin(parts: seq<string>, separator: char)
    requires |parts| >= 1
    requires forall k | 0 <= k < |parts| :: separator !in parts[k]
    ensures Split(Join([separator], parts), separator) == parts
  {
    if |parts| > 1 {
      var tail := parts[1..];
      assert forall k | 0 <= k < |tail| :: tail[k] == parts[k + 1];
      assert separator !in parts[0];
      SplitJoin(tail, separator);
      SplitAfterPart(parts[0], Join([separator], tail), separator);
      assert parts == [parts[0]] + tail;
    }
  }
}
