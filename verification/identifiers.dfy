/**
 * Identifier rendering (render.go): `caseFirstChar`, the camel-casing
 * transform `renderIdentifiers`, and the names derived from a method stem.
 *
 * `CamelLoop` follows the source loop step by step (find the first
 * delimiter, drop it, upper-case what follows); `CamelPass` is an
 * independent one-pass reading of the same transform, and
 * `LoopIsPass` proves the two agree.
 */
module Identifiers {
  import opened Text

  /** What Go's UTF-8 decoder returns for an empty string (utf8.RuneError). */
  const ReplacementChar: char := '\U{FFFD}'

  /** The two delimiters renderIdentifiers removes, in the order it removes them. */
  predicate IsDelimiter(c: char)
  {
    c == '_' || c == '-'
  }

  predicate DelimiterFree(s: string)
  {
    '_' !in s && '-' !in s
  }

  /** Upper- or lower-case one character. */
  function SetCase(c: char, upper: bool): char
  {
    if upper then ToUpper(c) else ToLower(c)
  }

  /**
   * caseFirstChar: decode the first character (U+FFFD and nothing consumed
   * when the string is empty), change its case and put the rest back.
   */
  function CaseFirstChar(s: string, upper: bool): (r: string)
    ensures |s| == 0 ==> r == [ReplacementChar]
    ensures |s| > 0 ==> |r| == |s| && r[1..] == s[1..] && r[0] == SetCase(s[0], upper)
  {
    var (first, size) := if |s| == 0 then (ReplacementChar, 0) else (s[0], 1);
    [SetCase(first, upper)] + s[size..]
  }

  /** How often `c` occurs in `s`. */
  function Count(s: string, c: char): (n: nat)
    ensures n == 0 <==> c !in s
  {
    if |s| == 0 then 0
    else
      assert s == [s[0]] + s[1..];
      (if s[0] == c then 1 else 0) + Count(s[1..], c)
  }

  lemma {:induction false} CountAppend(a: string, b: string, c: char)
    ensures Count(a + b, c) == Count(a, c) + Count(b, c)
  {
    if |a| == 0 {
      assert a + b == b;
    } else {
      assert (a + b)[1..] == a[1..] + b;
      CountAppend(a[1..], b, c);
    }
  }

  /** Case changes never create or destroy a delimiter. */
  lemma CaseFirstCharKeepsDelimiters(t: string, upper: bool, d: char)
    requires IsDelimiter(d)
    ensures Count(CaseFirstChar(t, upper), d) == Count(t, d)
  {
    var r := CaseFirstChar(t, upper);
    if |t| > 0 {
      assert r[1..] == t[1..];
    } else {
      assert r[1..] == [];
    }
  }

  /** Changing the case of the first character twice is changing it once. */
  lemma CaseFirstCharIdempotent(s: string, upper: bool)
    ensures CaseFirstChar(CaseFirstChar(s, upper), upper) == CaseFirstChar(s, upper)
  {
  }

  /** The position strings.Index reports for a character that occurs. */
  function FirstIndex(s: string, c: char): (i: nat)
    requires c in s
    ensures i < |s| && s[i] == c && c !in s[..i]
  {
    if s[0] == c then 0 else 1 + FirstIndex(s[1..], c)
  }

  /** One turn of the inner loop of renderIdentifiers for delimiter `d`. */
  function CamelStep(name: string, d: char): (r: string)
    requires IsDelimiter(d) && d in name
    ensures Count(r, d) == Count(name, d) - 1
    ensures forall e :: IsDelimiter(e) && e != d ==> Count(r, e) == Count(name, e)
  {
    var i := FirstIndex(name, d);
    var t := name[i + 1..];
    assert name == name[..i] + ([d] + t);
    CountAppend(name[..i], [d] + t, '_');
    CountAppend(name[..i], [d] + t, '-');
    CountAppend(name[..i], CaseFirstChar(t, true), '_');
    CountAppend(name[..i], CaseFirstChar(t, true), '-');
    CaseFirstCharKeepsDelimiters(t, true, '_');
    CaseFirstCharKeepsDelimiters(t, true, '-');
    assert ([d] + t)[1..] == t;
    name[..i] + CaseFirstChar(t, true)
  }

  /** The inner loop of renderIdentifiers: step until `d` no longer occurs. */
  function CamelLoop(name: string, d: char): (r: string)
    requires IsDelimiter(d)
    ensures d !in r
    ensures forall e :: IsDelimiter(e) && e != d ==> Count(r, e) == Count(name, e)
    decreases Count(name, d)
  {
    if d !in name then name else CamelLoop(CamelStep(name, d), d)
  }

  /**
   * The same transform read in one left-to-right pass: every `d` is dropped
   * and the next character kept is upper-cased; a delimiter with nothing
   * after it leaves U+FFFD behind.  `pending` records that a delimiter was
   * just dropped.
   */
  function CamelPass(s: string, d: char, pending: bool): (r: string)
    requires IsDelimiter(d)
    ensures d !in r
  {
    if |s| == 0 then (if pending then [ReplacementChar] else "")
    else if s[0] == d then CamelPass(s[1..], d, true)
    else [if pending then ToUpper(s[0]) else s[0]] + CamelPass(s[1..], d, false)
  }

  lemma {:induction false} PassOfFree(s: string, d: char)
    requires IsDelimiter(d) && d !in s
    ensures CamelPass(s, d, false) == s
  {
    if |s| > 0 {
      assert d !in s[1..] by {
        forall c | c in s[1..] ensures c != d {
          assert c in s;
        }
      }
      PassOfFree(s[1..], d);
      assert [s[0]] + s[1..] == s;
    }
  }

  lemma PassPending(t: string, d: char)
    requires IsDelimiter(d)
    ensures CamelPass(t, d, true) == CamelPass(CaseFirstChar(t, true), d, false)
  {
    var u := CaseFirstChar(t, true);
    if |t| == 0 {
      assert u == [ReplacementChar];
    } else if t[0] == d {
      assert u == t;
    } else {
      assert u == [ToUpper(t[0])] + t[1..];
      assert u[0] != d;
      assert u[1..] == t[1..];
    }
  }

  lemma {:induction false} PassPrefix(p: string, t: string, d: char)
    requires IsDelimiter(d) && d !in p
    ensures CamelPass(p + t, d, false) == p + CamelPass(t, d, false)
  {
    if |p| > 0 {
      assert (p + t)[0] == p[0] && p[0] != d;
      assert (p + t)[1..] == p[1..] + t;
      assert d !in p[1..] by {
        forall c | c in p[1..] ensures c != d {
          assert c in p;
        }
      }
      PassPrefix(p[1..], t, d);
      assert [p[0]] + (p[1..] + CamelPass(t, d, false)) == p + CamelPass(t, d, false);
    } else {
      assert p + t == t;
    }
  }

  /** The source loop and the one-pass reading compute the same string. */
  lemma {:induction false} LoopIsPass(s: string, d: char)
    requires IsDelimiter(d)
    ensures CamelLoop(s, d) == CamelPass(s, d, false)
    decreases Count(s, d)
  {
    if d !in s {
      PassOfFree(s, d);
    } else {
      var i := FirstIndex(s, d);
      var p, t := s[..i], s[i + 1..];
      assert s == p + ([d] + t);
      LoopIsPass(CamelStep(s, d), d);
      PassPrefix(p, CaseFirstChar(t, true), d);
      PassPending(t, d);
      PassPrefix(p, [d] + t, d);
      assert ([d] + t)[1..] == t;
    }
  }

  /**
   * renderIdentifiers: camel-case on `_`, then on `-`, then force the first
   * character to upper case (public) or lower case.  The result never holds
   * a delimiter and is never empty.
   */
  function RenderIdentifier(name: string, isPublic: bool): (r: string)
    ensures DelimiterFree(r)
    ensures |r| >= 1 && SetCase(r[0], isPublic) == r[0]
  {
    var camel := CamelLoop(CamelLoop(name, '_'), '-');
    CaseFirstCharKeepsDelimiters(camel, isPublic, '_');
    CaseFirstCharKeepsDelimiters(camel, isPublic, '-');
    CaseFirstChar(camel, isPublic)
  }

  /** renderIdentifiers is the two one-pass rewrites followed by the case change. */
  lemma RenderIdentifierIsOnePass(name: string, isPublic: bool)
    ensures RenderIdentifier(name, isPublic)
         == CaseFirstChar(CamelPass(CamelPass(name, '_', false), '-', false), isPublic)
  {
    LoopIsPass(name, '_');
    LoopIsPass(CamelLoop(name, '_'), '-');
  }

  /** On a name without delimiters only the case of the first character changes. */
  lemma RenderOfDelimiterFree(name: string, isPublic: bool)
    requires DelimiterFree(name)
    ensures RenderIdentifier(name, isPublic) == CaseFirstChar(name, isPublic)
  {
  }

  /** Rendering an already rendered identifier again changes nothing. */
  lemma RenderIdempotent(name: string, isPublic: bool)
    ensures RenderIdentifier(RenderIdentifier(name, isPublic), isPublic) == RenderIdentifier(name, isPublic)
  {
    var r := RenderIdentifier(name, isPublic);
    RenderOfDelimiterFree(r, isPublic);
    assert CaseFirstChar(r, isPublic) == [r[0]] + r[1..];
  }

  lemma {:induction false} PassKeepsSuffix(p: string, q: string, d: char, pending: bool)
    requires IsDelimiter(d) && |q| > 0 && d !in q && ToUpper(q[0]) == q[0]
    ensures EndsWith(CamelPass(p + q, d, pending), q)
  {
    if |p| == 0 {
      assert p + q == q;
      assert d !in q[1..] by {
        forall c | c in q[1..] ensures c != d {
          assert c in q;
        }
      }
      PassOfFree(q[1..], d);
      assert [q[0]] + q[1..] == q;
    } else {
      assert (p + q)[1..] == p[1..] + q;
      if p[0] == d {
        PassKeepsSuffix(p[1..], q, d, true);
      } else {
        PassKeepsSuffix(p[1..], q, d, false);
      }
    }
  }

  lemma PassKeepsEnding(x: string, q: string, d: char)
    requires IsDelimiter(d) && |q| > 0 && d !in q && ToUpper(q[0]) == q[0]
    requires EndsWith(x, q)
    ensures EndsWith(CamelPass(x, d, false), q)
  {
    var k := |x| - |q|;
    assert x == x[..k] + q;
    PassKeepsSuffix(x[..k], q, d, false);
  }

  lemma CaseFirstCharKeepsEnding(y: string, q: string)
    requires |q| > 0 && ToUpper(q[0]) == q[0] && EndsWith(y, q)
    ensures EndsWith(CaseFirstChar(y, true), q)
  {
    var r := CaseFirstChar(y, true);
    if |y| == |q| {
      assert y == q;
    } else {
      assert r[|r| - |q|..] == y[|y| - |q|..];
    }
  }

  /**
   * Appending a delimiter-free suffix that starts with a capital letter
   * (such as "Params") to any name leaves that suffix at the end of the
   * rendered public identifier.
   */
  lemma RenderKeepsSuffix(name: string, suffix: string)
    requires |suffix| > 0 && DelimiterFree(suffix) && ToUpper(suffix[0]) == suffix[0]
    ensures EndsWith(RenderIdentifier(name + suffix, true), suffix)
  {
    RenderIdentifierIsOnePass(name + suffix, true);
    var x := CamelPass(name + suffix, '_', false);
    PassKeepsSuffix(name, suffix, '_', false);
    var y := CamelPass(x, '-', false);
    PassKeepsEnding(x, suffix, '-');
    CaseFirstCharKeepsEnding(y, suffix);
  }

  /** A plain stem followed by a plain suffix renders as the stem with a capital first letter, then the suffix. */
  lemma RenderOfPlainConcat(stem: string, suffix: string)
    requires DelimiterFree(stem) && DelimiterFree(suffix) && |stem| > 0
    ensures RenderIdentifier(stem + suffix, true) == [ToUpper(stem[0])] + stem[1..] + suffix
  {
    var joined := stem + suffix;
    assert DelimiterFree(joined);
    RenderOfDelimiterFree(joined, true);
    assert joined[1..] == stem[1..] + suffix;
  }

  /**
   * renderMethodParamName: the public name of a method's parameter type,
   * always ending in "Params".
   */
  function ParamsName(methName: string): (r: string)
    ensures EndsWith(r, "Params")
    ensures DelimiterFree(r) && ToUpper(r[0]) == r[0]
  {
    RenderKeepsSuffix(methName, "Params");
    RenderIdentifier(methName + "Params", true)
  }

  /** For a plain stem the parameter type is the stem with a capital first letter, then "Params". */
  lemma ParamsNameOfPlain(methName: string)
    requires DelimiterFree(methName) && |methName| > 0
    ensures ParamsName(methName) == [ToUpper(methName[0])] + methName[1..] + "Params"
  {
    RenderOfPlainConcat(methName, "Params");
  }

  /**
   * renderMethodResultsName: the public name of a method's result type,
   * always ending in "Results".
   */
  function ResultsName(methName: string): (r: string)
    ensures EndsWith(r, "Results")
    ensures DelimiterFree(r) && ToUpper(r[0]) == r[0]
  {
    RenderKeepsSuffix(methName, "Results");
    RenderIdentifier(methName + "Results", true)
  }

  /** For a plain stem the result type is the stem with a capital first letter, then "Results". */
  lemma ResultsNameOfPlain(methName: string)
    requires DelimiterFree(methName) && |methName| > 0
    ensures ResultsName(methName) == [ToUpper(methName[0])] + methName[1..] + "Results"
  {
    RenderOfPlainConcat(methName, "Results");
  }

  /**
   * The stem of the nested type generated for a field with embedded
   * variables: the method stem and the field name, each with a capital
   * first letter, run together.
   */
  function NestedStem(methName: string, fieldName: string): (r: string)
    ensures |r| >= 1 && DelimiterFree(r) && ToUpper(r[0]) == r[0]
  {
    RenderIdentifier(methName + CaseFirstChar(fieldName, true), true)
  }

  /** For plain names the nested stem is both names with capital first letters, run together. */
  lemma NestedStemOfPlain(methName: string, fieldName: string)
    requires DelimiterFree(methName) && DelimiterFree(fieldName) && |methName| > 0 && |fieldName| > 0
    ensures NestedStem(methName, fieldName) == [ToUpper(methName[0])] + methName[1..] + [ToUpper(fieldName[0])] + fieldName[1..]
  {
    RenderOfPlainConcat(methName, CaseFirstChar(fieldName, true));
    assert CaseFirstChar(fieldName, true) == [ToUpper(fieldName[0])] + fieldName[1..];
  }
}
