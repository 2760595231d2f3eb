/**
 * The pieces of java.lang.String that the trigger model relies on, written
 * over `seq<char>`: a nullable reference is an `Option`, `trim` strips the
 * characters at or below U+0020 at both ends, `startsWith` is a prefix test,
 * `replace(target, "")` deletes every non-overlapping occurrence found from
 * left to right, and `compareTo` is the lexicographic comparison that returns
 * the difference of the first differing characters or of the lengths.
 */
module JavaStrings {

  /** A Java reference that may be null. */
  datatype Option<+T> = None | Some(value: T)

  /** Characters that `String.trim` removes: everything up to and including the space. */
  predicate IsTrimmable(c: char) {
    c <= ' '
  }

  /** The text does not begin or end with a trimmable character. */
  predicate IsTrimmed(s: string) {
    s == [] || (!IsTrimmable(s[0]) && !IsTrimmable(s[|s| - 1]))
  }

  predicate AllTrimmable(s: string) {
    forall i :: 0 <= i < |s| ==> IsTrimmable(s[i])
  }

  /** Drops the leading trimmable characters: the result is the longest suffix that starts with a kept character. */
  function TrimStart(s: string): (r: string)
    ensures |r| <= |s|
    ensures r == [] || !IsTrimmable(r[0])
  {
    if s != [] && IsTrimmable(s[0]) then TrimStart(s[1..]) else s
  }

  /** Drops the trailing trimmable characters: the result is the longest prefix that ends with a kept character. */
  function TrimEnd(s: string): (r: string)
    ensures |r| <= |s|
    ensures r == [] || !IsTrimmable(r[|r| - 1])
  {
    if s != [] && IsTrimmable(s[|s| - 1]) then TrimEnd(s[..|s| - 1]) else s
  }

  /** `String.trim`. */
  function Trim(s: string): (r: string)
    ensures |r| <= |s|
    ensures IsTrimmed(r)
  {
    TrimEndRemovesSuffix(TrimStart(s));
    TrimEnd(TrimStart(s))
  }

  /**
   * Trim recovers exactly the kept core of a text surrounded by trimmable
   * characters; this pins `Trim` down independently of how it is computed.
   */
  lemma {:induction false} TrimSurrounded(pre: string, core: string, post: string)
    requires AllTrimmable(pre) && AllTrimmable(post) && IsTrimmed(core)
    ensures Trim(pre + core + post) == core
  {
    if core == [] {
      assert pre + core + post == (pre + post) + [];
      assert AllTrimmable(pre + post) by {
        forall i | 0 <= i < |pre + post| ensures IsTrimmable((pre + post)[i]) {
          if i >= |pre| { assert (pre + post)[i] == post[i - |pre|]; }
        }
      }
      TrimStartSkips(pre + post, []);
    } else {
      TrimStartSkips(pre, core + post);
      assert pre + core + post == pre + (core + post);
      TrimEndSkips(core, post);
    }
  }

  lemma {:induction false} TrimStartSkips(pre: string, rest: string)
    requires AllTrimmable(pre)
    requires rest == [] || !IsTrimmable(rest[0])
    ensures TrimStart(pre + rest) == rest
  {
    if pre != [] {
      assert (pre + rest)[1..] == pre[1..] + rest;
      TrimStartSkips(pre[1..], rest);
    }
  }

  lemma {:induction false} TrimEndSkips(rest: string, post: string)
    requires AllTrimmable(post)
    requires rest == [] || !IsTrimmable(rest[|rest| - 1])
    ensures TrimEnd(rest + post) == rest
  {
    if post != [] {
      assert (rest + post)[..|rest + post| - 1] == rest + post[..|post| - 1];
      TrimEndSkips(rest, post[..|post| - 1]);
    } else {
      assert rest + post == rest;
    }
  }

  /** Trimming a trimmed text changes nothing; in particular `Trim` is idempotent. */
  lemma TrimOfTrimmed(s: string)
    requires IsTrimmed(s)
    ensures Trim(s) == s
  {
    TrimSurrounded([], s, []);
    assert [] + s + [] == s;
  }

  /** A block of trailing trimmable characters behind a kept character is all `TrimEnd` removes. */
  lemma {:induction false} TrimEndAppend(front: string, back: string)
    requires TrimEnd(back) != []
    ensures TrimEnd(front + back) == front + TrimEnd(back)
  {
    var core := TrimEnd(back);
    TrimEndRemovesSuffix(back);
    assert back == core + back[|core|..];
    assert front + back == (front + core) + back[|core|..];
    TrimEndSkips(front + core, back[|core|..]);
  }

  /** `TrimStart` removes a prefix made only of trimmable characters. */
  lemma {:induction false} TrimStartRemovesPrefix(s: string)
    ensures var r := TrimStart(s); r == s[|s| - |r|..] && AllTrimmable(s[..|s| - |r|])
  {
    if s != [] && IsTrimmable(s[0]) {
      TrimStartRemovesPrefix(s[1..]);
    }
  }

  /** `TrimEnd` removes a suffix made only of trimmable characters. */
  lemma {:induction false} TrimEndRemovesSuffix(s: string)
    ensures var r := TrimEnd(s); r == s[..|r|] && AllTrimmable(s[|r|..])
  {
    if s != [] && IsTrimmable(s[|s| - 1]) {
      TrimEndRemovesSuffix(s[..|s| - 1]);
    }
  }

  /** `String.startsWith`. */
  predicate StartsWith(s: string, prefix: string): (r: bool)
    ensures r && prefix != [] ==> s != [] && s[0] == prefix[0]
  {
    |prefix| <= |s| && s[..|prefix|] == prefix
  }

  /** The pattern occurs at some position of the text: the proof-side notion that `replace` deletes. */
  predicate Occurs(s: string, pattern: string)
    decreases |s|
  {
    StartsWith(s, pattern) || (s != [] && Occurs(s[1..], pattern))
  }

  /**
   * `s.replace(pattern, "")` for a non-empty pattern: occurrences are found
   * from the left and removed, scanning resumes right after each removed one.
   */
  function RemoveAll(s: string, pattern: string): (r: string)
    requires pattern != []
    ensures |r| <= |s|
    decreases |s|
  {
    if s == [] then []
    else if StartsWith(s, pattern) then RemoveAll(s[|pattern|..], pattern)
    else [s[0]] + RemoveAll(s[1..], pattern)
  }

  /** A text without an occurrence of the pattern is left as it is. */
  lemma {:induction false} RemoveAllWithoutOccurrence(s: string, pattern: string)
    requires pattern != [] && !Occurs(s, pattern)
    ensures RemoveAll(s, pattern) == s
  {
    if s != [] {
      RemoveAllWithoutOccurrence(s[1..], pattern);
      assert s == [s[0]] + s[1..];
    }
  }

  /** A leading occurrence of the pattern is deleted and scanning resumes after it. */
  lemma RemoveAllLeadingPattern(pattern: string, rest: string)
    requires pattern != []
    ensures RemoveAll(pattern + rest, pattern) == RemoveAll(rest, pattern)
  {
    assert (pattern + rest)[..|pattern|] == pattern;
    assert (pattern + rest)[|pattern|..] == rest;
  }

  /**
   * Up to the leftmost occurrence nothing is deleted, that occurrence is
   * deleted, and scanning resumes right after it. With
   * `RemoveAllWithoutOccurrence` this fixes the result on every text.
   */
  lemma {:induction false} RemoveAllLeftmost(x: string, y: string, pattern: string)
    requires pattern != []
    requires forall k :: 0 <= k < |x| ==> !StartsWith((x + pattern + y)[k..], pattern)
    ensures RemoveAll(x + pattern + y, pattern) == x + RemoveAll(y, pattern)
  {
    if x == [] {
      assert x + pattern + y == pattern + y;
      RemoveAllLeadingPattern(pattern, y);
    } else {
      var s := x + pattern + y;
      assert s[0..] == s;
      assert s[1..] == x[1..] + pattern + y;
      forall k | 0 <= k < |x[1..]| ensures !StartsWith((x[1..] + pattern + y)[k..], pattern) {
        assert (x[1..] + pattern + y)[k..] == s[k + 1..];
      }
      RemoveAllLeftmost(x[1..], y, pattern);
      assert x == [x[0]] + x[1..];
    }
  }

  /** A leading character that cannot start the pattern is kept. */
  lemma RemoveAllLeadingChar(c: char, rest: string, pattern: string)
    requires pattern != [] && c != pattern[0]
    ensures RemoveAll([c] + rest, pattern) == [c] + RemoveAll(rest, pattern)
  {
    if |pattern| <= |[c] + rest| {
      assert ([c] + rest)[..|pattern|][0] == c;
    }
    assert ([c] + rest)[1..] == rest;
  }

  /** A prefix without the pattern's first character passes through unchanged. */
  lemma {:induction false} RemoveAllKeepsPrefix(x: string, y: string, pattern: string)
    requires pattern != []
    requires forall k :: 0 <= k < |x| ==> x[k] != pattern[0]
    ensures RemoveAll(x + y, pattern) == x + RemoveAll(y, pattern)
  {
    if x != [] {
      assert x + y == [x[0]] + (x[1..] + y);
      RemoveAllLeadingChar(x[0], x[1..] + y, pattern);
      RemoveAllKeepsPrefix(x[1..], y, pattern);
      assert [x[0]] + (x[1..] + RemoveAll(y, pattern)) == x + RemoveAll(y, pattern);
    } else {
      assert x + y == y;
    }
  }

  /** ASCII lower-casing of one character. */
  function LowerAscii(c: char): char {
    if 'A' <= c <= 'Z' then (c as int + 32) as char else c
  }

  /** ASCII lower-casing of a text, character by character. */
  function LowerAsciiString(s: string): (r: string)
    ensures |r| == |s|
    ensures forall i :: 0 <= i < |s| ==> r[i] == LowerAscii(s[i])
  {
    seq(|s|, i requires 0 <= i < |s| => LowerAscii(s[i]))
  }

  /** `String.compareTo`: the first differing characters decide, otherwise the lengths. */
  function CompareStrings(a: string, b: string): (r: int)
    ensures a == b ==> r == 0
    ensures r == 0 ==> |a| == |b|
  {
    if a == [] || b == [] then |a| - |b|
    else if a[0] != b[0] then a[0] as int - b[0] as int
    else CompareStrings(a[1..], b[1..])
  }

  /** `compareTo` returns 0 exactly for equal texts, so it is consistent with `equals`. */
  lemma {:induction false} CompareZeroIff(a: string, b: string)
    ensures CompareStrings(a, b) == 0 <==> a == b
  {
    if a != [] && b != [] && a[0] == b[0] {
      CompareZeroIff(a[1..], b[1..]);
      assert a == [a[0]] + a[1..] && b == [b[0]] + b[1..];
    }
  }

  /** Swapping the arguments negates the result. */
  lemma {:induction false} CompareAntisymmetric(a: string, b: string)
    ensures CompareStrings(a, b) == -CompareStrings(b, a)
  {
    if a != [] && b != [] && a[0] == b[0] {
      CompareAntisymmetric(a[1..], b[1..]);
    }
  }

  /** "Less than" by `compareTo` is transitive, so it orders texts totally. */
  lemma {:induction false} CompareTransitive(a: string, b: string, c: string)
    requires CompareStrings(a, b) < 0 && CompareStrings(b, c) < 0
    ensures CompareStrings(a, c) < 0
  {
    if a != [] && b != [] && c != [] && a[0] == b[0] && b[0] == c[0] {
      CompareTransitive(a[1..], b[1..], c[1..]);
    }
  }
}
