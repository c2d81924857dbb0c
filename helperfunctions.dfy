/** The page title: the text of the first level-one heading of a markdown
    document. */
module HelperFunctions {
  import opened Wrappers
  import opened Strings

  /** A line that starts with `# `: a level-one heading. */
  predicate IsTitleLine(line: string) {
    |line| >= 2 && line[..2] == "# "
  }

  const NoTitle := ValueError("No title found in the markdown content.")

  /** `extract_title`: the first heading line, less its `# ` marker and the
      whitespace around the rest; an error when no line is a heading. */
  method ExtractTitle(markdown: string) returns (r: Result<string>)
    ensures var lines := SplitLines(markdown);
      r.Success? <==> exists i :: 0 <= i < |lines| && IsTitleLine(lines[i])
    ensures var lines := SplitLines(markdown);
      r.Success? ==> exists i ::
        && 0 <= i < |lines|
        && IsTitleLine(lines[i])
        && (forall j :: 0 <= j < i ==> !IsTitleLine(lines[j]))
        && r.value == Strip(lines[i][2..])
    ensures r.Failure? ==> r.error == NoTitle
  {
    var lines := SplitLines(markdown);
    for i := 0 to |lines|
      invariant forall j :: 0 <= j < i ==> !IsTitleLine(lines[j])
    {
      if IsTitleLine(lines[i]) {
        return Success(Strip(lines[i][2..]));
      }
    }
    return Failure(NoTitle);
  }

  /** A title has no whitespace at either end and no line break in it. */
  lemma TitleIsTrimmed(markdown: string, i: nat)
    requires i < |SplitLines(markdown)| && IsTitleLine(SplitLines(markdown)[i])
    ensures var t := Strip(SplitLines(markdown)[i][2..]);
      && (t == [] || (!IsSpace(t[0]) && !IsSpace(t[|t| - 1])))
      && '\n' !in t
  {
    var line := SplitLines(markdown)[i];
    LinesRoundTrip(markdown);
    assert '\n' !in line[2..] by {
      assert '\n' !in line;
    }
    StripTrims(line[2..]);
    StripKeepsOut(line[2..], '\n');
  }

  /** An empty document has no lines, hence no title. */
  lemma EmptyHasNoLines()
    ensures SplitLines("") == []
  {
  }

  /** `#` alone, and a deeper heading, are not titles. */
  lemma OnlyLevelOne(rest: string)
    ensures !IsTitleLine("#")
    ensures !IsTitleLine("##" + rest)
  {
    assert ("##" + rest)[1] == '#';
  }

  /** A text without line breaks is a single line. */
  lemma {:induction false} OneLine(s: string)
    requires s != [] && '\n' !in s
    ensures SplitLines(s) == [s]
  {
    SingleSplit(s);
  }

  lemma {:induction false} SingleSplit(s: string)
    requires '\n' !in s
    ensures Split(s) == [s]
  {
    if s != [] {
      SingleSplit(s[1..]);
      assert s == [s[0]] + s[1..];
    }
  }

  /** A document that is only a title line, `# ` and a trimmed title:
      its one line is a heading and the title comes back unchanged. */
  lemma OnlyTitle(title: string)
    requires title != [] && '\n' !in title
    requires !IsSpace(title[0]) && !IsSpace(title[|title| - 1])
    ensures SplitLines("# " + title) == ["# " + title]
    ensures IsTitleLine("# " + title)
    ensures Strip(("# " + title)[2..]) == title
  {
    var line := "# " + title;
    assert '\n' !in line by {
      assert forall k :: 2 <= k < |line| ==> line[k] == title[k - 2];
    }
    OneLine(line);
    assert line[2..] == title;
  }
}
