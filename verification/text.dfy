/**
 * Character and string helpers shared by the generator model: ASCII case
 * mapping, Go's white-space predicates, trimming, splitting on one
 * character and joining.  Strings are `seq<char>`; case mapping is ASCII
 * only.
 */
module Text {

  /** Upper-case an ASCII letter; every other character is left alone. */
  function ToUpper(c: char): char
  {
    if 'a' <= c <= 'z' then (c as int - 32) as char else c
  }

  /** Lower-case an ASCII letter; every other character is left alone. */
  function ToLower(c: char): char
  {
    if 'A' <= c <= 'Z' then (c as int + 32) as char else c
  }

  /** Lower-case every character of `s` (the model of strings.ToLower). */
  function LowerString(s: string): (r: string)
    ensures |r| == |s|
    ensures forall i :: 0 <= i < |s| ==> r[i] == ToLower(s[i])
  {
    seq(|s|, i requires 0 <= i < |s| => ToLower(s[i]))
  }

  /** Case-insensitive equality, character by character (strings.EqualFold on ASCII). */
  predicate EqualFold(a: string, b: string)
  {
    |a| == |b| && forall i :: 0 <= i < |a| ==> ToLower(a[i]) == ToLower(b[i])
  }

  /** White space as Go's unicode.IsSpace defines it (strings.TrimSpace trims these). */
  const Spaces: set<char> := {
    ' ', '\t', '\n', '\r', '\U{000B}', '\U{000C}', '\U{0085}', '\U{00A0}', '\U{1680}',
    '\U{2000}', '\U{2001}', '\U{2002}', '\U{2003}', '\U{2004}', '\U{2005}', '\U{2006}',
    '\U{2007}', '\U{2008}', '\U{2009}', '\U{200A}',
    '\U{2028}', '\U{2029}', '\U{202F}', '\U{205F}', '\U{3000}'
  }

  predicate IsSpace(c: char)
  {
    c in Spaces
  }

  predicate AllSpace(s: string)
  {
    forall i :: 0 <= i < |s| ==> IsSpace(s[i])
  }

  predicate StartsWith(s: string, prefix: string)
  {
    |prefix| <= |s| && s[..|prefix|] == prefix
  }

  predicate EndsWith(s: string, suffix: string)
  {
    |suffix| <= |s| && s[|s| - |suffix|..] == suffix
  }

  /** `part` occurs in `s` as a contiguous block (strings.Contains). */
  predicate Contains(s: string, part: string)
  {
    exists i :: 0 <= i <= |s| && StartsWith(s[i..], part)
  }

  /** Drop leading white space. */
  function TrimLeft(s: string): (r: string)
    ensures |r| <= |s| && r == s[|s| - |r|..]
    ensures AllSpace(s[..|s| - |r|])
    ensures r == [] || !IsSpace(r[0])
  {
    if |s| > 0 && IsSpace(s[0]) then
      var r := TrimLeft(s[1..]);
      TrimLeftStep(s, r);
      r
    else s
  }

  /** Dropping one more leading space keeps TrimLeft's facts. */
  lemma TrimLeftStep(s: string, r: string)
    requires |s| > 0 && IsSpace(s[0])
    requires |r| <= |s| - 1 && r == s[1..][|s| - 1 - |r|..]
    requires AllSpace(s[1..][..|s| - 1 - |r|])
    ensures r == s[|s| - |r|..]
    ensures AllSpace(s[..|s| - |r|])
  {
    var k := |s| - |r|;
    assert s[1..][k - 1..] == s[k..];
    forall i | 0 <= i < k ensures IsSpace(s[..k][i]) {
      if i > 0 {
        assert s[..k][i] == s[1..][..k - 1][i - 1];
      }
    }
  }

  /** Drop trailing white space. */
  function TrimRight(s: string): (r: string)
    ensures |r| <= |s| && r == s[..|r|]
    ensures AllSpace(s[|r|..])
    ensures r == [] || !IsSpace(r[|r| - 1])
  {
    if |s| > 0 && IsSpace(s[|s| - 1]) then
      var r := TrimRight(s[..|s| - 1]);
      assert s[|r|..] == s[..|s| - 1][|r|..] + [s[|s| - 1]];
      r
    else s
  }

  /**
   * strings.TrimSpace: the result is the block of `s` that remains once the
   * white space on both ends is removed.
   */
  function TrimSpace(s: string): (r: string)
    ensures r == [] || (!IsSpace(r[0]) && !IsSpace(r[|r| - 1]))
    ensures SpaceAround(s, r)
  {
    var left := TrimLeft(s);
    var r := TrimRight(left);
    TrimBothEnds(s, left, r);
    r
  }

  /** `s` is `r` with only white space before and after it. */
  predicate SpaceAround(s: string, r: string)
  {
    exists i :: 0 <= i <= |s| - |r| && r == s[i..i + |r|] && AllSpace(s[..i]) && AllSpace(s[i + |r|..])
  }

  /** The two trims compose into one block of `s` with white space on either side. */
  lemma TrimBothEnds(s: string, left: string, r: string)
    requires |left| <= |s| && left == s[|s| - |left|..] && AllSpace(s[..|s| - |left|])
    requires |r| <= |left| && r == left[..|r|] && AllSpace(left[|r|..])
    requires left == [] || !IsSpace(left[0])
    requires r == [] || !IsSpace(r[|r| - 1])
    ensures r == [] || (!IsSpace(r[0]) && !IsSpace(r[|r| - 1]))
    ensures SpaceAround(s, r)
  {
    var i := |s| - |left|;
    assert r == s[i..i + |r|];
    assert s[i + |r|..] == left[|r|..];
    if r != [] {
      assert r[0] == left[0];
    }
  }

  /** Trimming twice is trimming once. */
  lemma TrimSpaceIdempotent(s: string)
    ensures TrimSpace(TrimSpace(s)) == TrimSpace(s)
  {
    var t := TrimSpace(s);
    assert TrimLeft(t) == t;
    assert TrimRight(t) == t;
  }

  /** A string without white space on either end is its own trimming. */
  lemma TrimSpaceOfTrimmed(s: string)
    requires s == [] || (!IsSpace(s[0]) && !IsSpace(s[|s| - 1]))
    ensures TrimSpace(s) == s
  {
    assert TrimLeft(s) == s;
    assert TrimRight(s) == s;
  }

  /**
   * strings.Split with a one-character separator: the pieces between the
   * separators, always at least one (splitting "" gives [""]).
   */
  function Split(s: string, sep: char): (r: seq<string>)
    ensures |r| >= 1
    ensures forall i :: 0 <= i < |r| ==> sep !in r[i]
  {
    if |s| == 0 then [""]
    else
      var rest := Split(s[1..], sep);
      if s[0] == sep then [""] + rest
      else [[s[0]] + rest[0]] + rest[1..]
  }

  /** strings.Join. */
  function Join(parts: seq<string>, sep: string): string
  {
    if |parts| == 0 then ""
    else if |parts| == 1 then parts[0]
    else parts[0] + sep + Join(parts[1..], sep)
  }

  /** Concatenate all the strings of `parts`, in order. */
  function Concat(parts: seq<string>): (r: string)
    ensures |parts| == 0 ==> r == ""
  {
    if |parts| == 0 then "" else parts[0] + Concat(parts[1..])
  }

  lemma {:induction false} JoinConsHead(c: char, x: string, tail: seq<string>, sep: string)
    ensures Join([[c] + x] + tail, sep) == [c] + Join([x] + tail, sep)
  {
    if |tail| == 0 {
    } else {
      assert ([[c] + x] + tail)[1..] == tail;
      assert ([x] + tail)[1..] == tail;
    }
  }

  /** Joining the pieces of a split with the separator gives back the input. */
  lemma {:induction false} JoinSplit(s: string, sep: char)
    ensures Join(Split(s, sep), [sep]) == s
  {
    if |s| == 0 {
    } else {
      var rest := Split(s[1..], sep);
      JoinSplit(s[1..], sep);
      if s[0] == sep {
        assert ([""] + rest)[1..] == rest;
      } else {
        JoinConsHead(s[0], rest[0], rest[1..], [sep]);
        assert [rest[0]] + rest[1..] == rest;
      }
    }
  }

  /** Splitting never cuts a string that lacks the separator. */
  lemma {:induction false} SplitWithoutSeparator(s: string, sep: char)
    requires sep !in s
    ensures Split(s, sep) == [s]
  {
    if |s| > 0 {
      assert sep !in s[1..] by {
        forall c | c in s[1..] ensures c != sep {
          assert c in s;
        }
      }
      SplitWithoutSeparator(s[1..], sep);
      assert [s[0]] + s[1..] == s;
    }
  }

  /** Splitting distributes over a separator placed between two strings. */
  lemma {:induction false} SplitAround(p: string, sep: char, q: string)
    ensures Split(p + [sep] + q, sep) == Split(p, sep) + Split(q, sep)
  {
    if |p| == 0 {
      assert p + [sep] + q == [sep] + q;
      assert ([sep] + q)[1..] == q;
    } else {
      assert (p + [sep] + q)[1..] == p[1..] + [sep] + q;
      SplitAround(p[1..], sep, q);
    }
  }
  /** Splitting a join on its separator gives back the parts when none of them holds the separator. */
  lemma {:induction false} SplitJoin(parts: seq<string>, sep: char)
    requires |parts| > 0
    requires forall i :: 0 <= i < |parts| ==> sep !in parts[i]
    ensures Split(Join(parts, [sep]), sep) == parts
    decreases |parts|
  {
    SplitWithoutSeparator(parts[0], sep);
    if |parts| > 1 {
      var rest := Join(parts[1..], [sep]);
      SplitJoin(parts[1..], sep);
      assert Join(parts, [sep]) == parts[0] + [sep] + rest;
      SplitAround(parts[0], sep, rest);
      assert [parts[0]] + parts[1..] == parts;
    }
  }

  /** Every part of a concatenation occurs in it. */
  lemma {:induction false} ConcatContains(parts: seq<string>, i: nat)
    requires i < |parts|
    ensures Contains(Concat(parts), parts[i])
    decreases i
  {
    var whole := Concat(parts);
    if i == 0 {
      assert whole[0..] == whole;
      assert StartsWith(whole[0..], parts[0]);
    } else {
      var rest := Concat(parts[1..]);
      ConcatContains(parts[1..], i - 1);
      var j :| 0 <= j <= |rest| && StartsWith(rest[j..], parts[1..][i - 1]);
      assert whole == parts[0] + rest;
      assert whole[|parts[0]| + j..] == rest[j..];
      assert StartsWith(whole[|parts[0]| + j..], parts[i]);
    }
  }

  /** What occurs in a part of a string occurs in the string. */
  lemma ContainsTransitive(a: string, b: string, c: string)
    requires Contains(a, b) && Contains(b, c)
    ensures Contains(a, c)
  {
    var i :| 0 <= i <= |a| && StartsWith(a[i..], b);
    var j :| 0 <= j <= |b| && StartsWith(b[j..], c);
    forall k | 0 <= k < |c| ensures a[i + j + k] == c[k] {
      assert a[i + j + k] == a[i..][..|b|][j + k] == b[j + k] == b[j..][..|c|][k];
    }
    assert a[i + j..][..|c|] == c;
  }
  /** A string is at least as long as anything that occurs in it. */
  lemma ContainsLength(s: string, part: string)
    requires Contains(s, part)
    ensures |part| <= |s|
  {
  }

  lemma AppendAssociative<T>(a: seq<T>, b: seq<T>, c: seq<T>)
    ensures a + b + c == a + (b + c)
  {
  }

  /** A non-empty sequence followed by another is its head followed by the rest. */
  lemma ConsAppend<T>(xs: seq<T>, ys: seq<T>)
    requires |xs| > 0
    ensures xs + ys == [xs[0]] + (xs[1..] + ys)
  {
    assert xs == [xs[0]] + xs[1..];
  }

  /** A slice within the first part of a concatenation is a slice of that part. */
  lemma PrefixSlice<T>(a: seq<T>, b: seq<T>, i: nat, j: nat)
    requires i <= j <= |a|
    ensures (a + b)[i..j] == a[i..j]
  {
  }

  lemma EndsWithAppend(a: string, b: string, suffix: string)
    requires EndsWith(b, suffix)
    ensures EndsWith(a + b, suffix)
  {
    assert (a + b)[|a + b| - |suffix|..] == b[|b| - |suffix|..];
  }

  /** Dropping the first character keeps a suffix that does not reach it. */
  lemma EndsWithTail(s: string, suffix: string)
    requires EndsWith(s, suffix) && |suffix| < |s|
    ensures EndsWith(s[1..], suffix)
  {
    assert s[1..][|s| - 1 - |suffix|..] == s[|s| - |suffix|..];
  }

  lemma EndsWithContains(s: string, suffix: string)
    requires EndsWith(s, suffix)
    ensures Contains(s, suffix)
  {
    assert StartsWith(s[|s| - |suffix|..], suffix);
  }
}
