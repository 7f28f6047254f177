/**
 * renderDocumentation (render.go): documentation text becomes one Go
 * comment.  The lines are trimmed and run together, each after a space,
 * and a fixed list of DocBook tags is rewritten.  Each regular expression
 * of the source is modelled by a function that matches it exactly:
 * `<name[^>]*>` by `ReplaceOpenTag`, a literal closing tag by
 * `ReplaceLiteral`, and `//\s*$` by `StripTrailingMarker`.
 */
module Documentation {
  import opened Text

  /**
   * The lines bufio.Reader.ReadLine hands out: the pieces between newlines,
   * without the empty piece after a final newline.  (ReadLine also drops a
   * carriage return before the newline; here it stays in the line, and the
   * trimming that follows removes it either way.)
   */
  function DocLines(doc: string): (r: seq<string>)
    ensures forall i :: 0 <= i < |r| ==> '\n' !in r[i]
    ensures doc == "" ==> r == []
  {
    var pieces := Split(doc, '\n');
    if pieces[|pieces| - 1] == "" then pieces[..|pieces| - 1] else pieces
  }

  /** Every character of a trimmed string comes from the original. */
  lemma TrimSpaceChars(s: string, c: char)
    requires c !in s
    ensures c !in TrimSpace(s)
  {
    var r := TrimSpace(s);
    var i :| 0 <= i <= |s| - |r| && r == s[i..i + |r|] && AllSpace(s[..i]) && AllSpace(s[i + |r|..]);
  }

  /** The comment block before scrubbing: " " and the trimmed line, for every line. */
  function JoinedLines(lines: seq<string>): (r: string)
    requires forall i :: 0 <= i < |lines| ==> '\n' !in lines[i]
    ensures '\n' !in r
  {
    if |lines| == 0 then ""
    else
      TrimSpaceChars(lines[0], '\n');
      " " + TrimSpace(lines[0]) + JoinedLines(lines[1..])
  }

  /**
   * Go's regexp ReplaceAllString for `<open>[^>]*>`: at the leftmost
   * position where `open` starts and a `>` follows, the text up to that
   * `>` is replaced by `rep`; the search resumes after the match.
   */
  function ReplaceOpenTag(s: string, open: string, rep: string): (r: string)
    requires |open| > 0 && '>' !in open
    decreases |s|
  {
    if |s| == 0 then ""
    else if StartsWith(s, open) && '>' in s[|open|..] then
      var close := |open| + FirstGreater(s[|open|..]);
      rep + ReplaceOpenTag(s[close + 1..], open, rep)
    else [s[0]] + ReplaceOpenTag(s[1..], open, rep)
  }

  function FirstGreater(s: string): (i: nat)
    requires '>' in s
    ensures i < |s| && s[i] == '>' && '>' !in s[..i]
  {
    if s[0] == '>' then 0 else 1 + FirstGreater(s[1..])
  }

  /** ReplaceAllString for a pattern without meta-characters: leftmost, non-overlapping. */
  function ReplaceLiteral(s: string, pat: string, rep: string): (r: string)
    requires |pat| > 0
    decreases |s|
  {
    if |s| == 0 then ""
    else if StartsWith(s, pat) then rep + ReplaceLiteral(s[|pat|..], pat, rep)
    else [s[0]] + ReplaceLiteral(s[1..], pat, rep)
  }

  /** Neither rewrite touches a text without `<` when the pattern starts with `<`. */
  lemma {:induction false} ReplaceOpenTagWithoutTags(s: string, open: string, rep: string)
    requires |open| > 0 && '>' !in open && open[0] == '<' && '<' !in s
    ensures ReplaceOpenTag(s, open, rep) == s
    decreases |s|
  {
    if |s| > 0 {
      assert s[0] != '<';
      assert '<' !in s[1..] by {
        forall c | c in s[1..] ensures c != '<' {
          assert c in s;
        }
      }
      ReplaceOpenTagWithoutTags(s[1..], open, rep);
      assert [s[0]] + s[1..] == s;
    }
  }

  lemma {:induction false} ReplaceLiteralWithoutTags(s: string, pat: string, rep: string)
    requires |pat| > 0 && pat[0] == '<' && '<' !in s
    ensures ReplaceLiteral(s, pat, rep) == s
    decreases |s|
  {
    if |s| > 0 {
      assert s[0] != '<';
      assert '<' !in s[1..] by {
        forall c | c in s[1..] ensures c != '<' {
          assert c in s;
        }
      }
      ReplaceLiteralWithoutTags(s[1..], pat, rep);
      assert [s[0]] + s[1..] == s;
    }
  }

  /** The white space of Go's `\s`: tab, newline, form feed, carriage return and space. */
  predicate IsRegexSpace(c: char)
  {
    c == '\t' || c == '\n' || c == '\U{000C}' || c == '\r' || c == ' '
  }

  predicate AllRegexSpace(s: string)
  {
    forall i :: 0 <= i < |s| ==> IsRegexSpace(s[i])
  }

  /** A match of `//\s*$` starts at `i`: "//" there and only white space after it. */
  predicate MarkerAt(s: string, i: nat)
  {
    i + 2 <= |s| && s[i..i + 2] == "//" && AllRegexSpace(s[i + 2..])
  }

  /**
   * ReplaceAllString for `//\s*$`: the leftmost "//" that only white space
   * follows is cut off together with that white space.
   */
  function StripTrailingMarker(s: string): (r: string)
    ensures r == s || (MarkerAt(s, |r|) && s[..|r|] == r)
    ensures r == s ==> forall i :: 0 <= i <= |s| ==> !MarkerAt(s, i)
    ensures r != s ==> forall i :: 0 <= i < |r| ==> !MarkerAt(s, i)
  {
    MarkerFrom(s, 0)
  }

  function MarkerFrom(s: string, i: nat): (r: string)
    requires i <= |s|
    ensures r == s || (i <= |r| && MarkerAt(s, |r|) && s[..|r|] == r)
    ensures r == s ==> forall j :: i <= j <= |s| ==> !MarkerAt(s, j)
    ensures r != s ==> forall j :: i <= j < |r| ==> !MarkerAt(s, j)
    decreases |s| - i
  {
    if i + 2 > |s| then s
    else if MarkerAt(s, i) then s[..i]
    else MarkerFrom(s, i + 1)
  }

  /** The tag rewrites of renderDocumentation, in the source's order. */
  function Scrub(line: string): string
  {
    var line1 := ReplaceOpenTag(line, "<para", "\n// ");
    var line2 := ReplaceLiteral(line1, "</para>", "");
    var line3 := ReplaceOpenTag(line2, "<code", "");
    var line4 := ReplaceLiteral(line3, "</code>", "");
    var line5 := ReplaceOpenTag(line4, "<itemizedlist", "\n// ");
    var line6 := ReplaceLiteral(line5, "</itemizedlist>", ":");
    var line7 := ReplaceOpenTag(line6, "<listitem", "");
    var line8 := ReplaceLiteral(line7, "</listitem>", "");
    StripTrailingMarker(line8)
  }

  /** renderDocumentation: the scrubbed block behind a comment marker. */
  function RenderDocumentation(doc: string): (r: string)
    ensures StartsWith(r, "// ")
  {
    "// " + Scrub(JoinedLines(DocLines(doc)))
  }

  /**
   * Documentation without any markup goes through the scrub untouched
   * except for a dangling comment marker at its end: the comment is the
   * trimmed lines run together.
   */
  lemma PlainDocumentation(doc: string)
    requires '<' !in doc
    ensures RenderDocumentation(doc) == "// " + StripTrailingMarker(JoinedLines(DocLines(doc)))
  {
    var lines := DocLines(doc);
    NoTagInLines(doc);
    NoTagInJoined(lines);
    ScrubWithoutTags(JoinedLines(lines));
  }

  /** On a text without `<`, every tag rewrite is the identity. */
  lemma ScrubWithoutTags(block: string)
    requires '<' !in block
    ensures Scrub(block) == StripTrailingMarker(block)
  {
    ReplaceOpenTagWithoutTags(block, "<para", "\n// ");
    ReplaceLiteralWithoutTags(block, "</para>", "");
    ReplaceOpenTagWithoutTags(block, "<code", "");
    ReplaceLiteralWithoutTags(block, "</code>", "");
    ReplaceOpenTagWithoutTags(block, "<itemizedlist", "\n// ");
    ReplaceLiteralWithoutTags(block, "</itemizedlist>", ":");
    ReplaceOpenTagWithoutTags(block, "<listitem", "");
    ReplaceLiteralWithoutTags(block, "</listitem>", "");
  }

  lemma NoTagInLines(doc: string)
    requires '<' !in doc
    ensures forall i :: 0 <= i < |DocLines(doc)| ==> '<' !in DocLines(doc)[i]
  {
    SplitKeepsAbsence(doc, '\n', '<');
  }

  lemma {:induction false} SplitKeepsAbsence(s: string, sep: char, c: char)
    requires c !in s
    ensures forall i :: 0 <= i < |Split(s, sep)| ==> c !in Split(s, sep)[i]
  {
    if |s| > 0 {
      assert c !in s[1..] by {
        forall x | x in s[1..] ensures x != c {
          assert x in s;
        }
      }
      SplitKeepsAbsence(s[1..], sep, c);
    }
  }

  lemma {:induction false} NoTagInJoined(lines: seq<string>)
    requires forall i :: 0 <= i < |lines| ==> '\n' !in lines[i] && '<' !in lines[i]
    ensures '<' !in JoinedLines(lines)
  {
    if |lines| > 0 {
      TrimSpaceChars(lines[0], '<');
      NoTagInJoined(lines[1..]);
    }
  }
}
