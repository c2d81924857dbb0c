/** The few `str` methods the core relies on: `rstrip`, `strip` and
    `splitlines`, over ASCII whitespace and the line break `\n`. */
module Strings {

  /** The whitespace `str.strip` and `str.rstrip` remove, restricted to
      ASCII: space, `\t` to `\r`, and the separators `\x1c` to `\x1f`. */
  predicate IsSpace(c: char) {
    || c == ' '
    || c == '\t' || c == '\n' || c == '\U{000B}' || c == '\U{000C}' || c == '\r'
    || c == '\U{001C}' || c == '\U{001D}' || c == '\U{001E}' || c == '\U{001F}'
  }

  /** Every character of `t` is whitespace. */
  predicate AllSpace(t: string) {
    forall j :: 0 <= j < |t| ==> IsSpace(t[j])
  }

  /** `s.rstrip()`: `s` without its trailing whitespace. */
  function RStrip(s: string): (r: string)
    ensures r <= s
    ensures r == [] || !IsSpace(r[|r| - 1])
    ensures AllSpace(s[|r|..])
  {
    if s == [] || !IsSpace(s[|s| - 1]) then s
    else
      var r := RStrip(s[..|s| - 1]);
      assert s[|r|..] == s[..|s| - 1][|r|..] + [s[|s| - 1]];
      r
  }

  /** `s.lstrip()`: `s` without its leading whitespace. */
  function LStrip(s: string): (r: string)
    ensures |r| <= |s| && r == s[|s| - |r|..]
    ensures r == [] || !IsSpace(r[0])
    ensures AllSpace(s[..|s| - |r|])
  {
    if s == [] || !IsSpace(s[0]) then s
    else
      var r := LStrip(s[1..]);
      assert s[..|s| - |r|] == [s[0]] + s[1..][..|s| - 1 - |r|];
      r
  }

  /** `s.strip()`. */
  function Strip(s: string): string {
    LStrip(RStrip(s))
  }

  /** The stripped string is a slice of `s` with only whitespace cut from
      either end, and it neither starts nor ends with whitespace. */
  lemma StripTrims(s: string)
    ensures var r := Strip(s);
      && (r == [] || (!IsSpace(r[0]) && !IsSpace(r[|r| - 1])))
      && exists i, j :: 0 <= i <= j <= |s| && r == s[i..j] && AllSpace(s[..i]) && AllSpace(s[j..])
  {
    StripSlice(s);
    StripEnds(s);
    var j := |RStrip(s)|;
    var i := j - |Strip(s)|;
    assert Strip(s) == s[i..j] && AllSpace(s[..i]) && AllSpace(s[j..]);
  }

  lemma StripSlice(s: string)
    ensures var t := RStrip(s);
      var i := |t| - |Strip(s)|;
      Strip(s) == s[i..|t|] && AllSpace(s[..i]) && AllSpace(s[|t|..])
  {
    var t := RStrip(s);
    var i := |t| - |LStrip(t)|;
    assert t == s[..|t|];
    assert s[..i] == t[..i];
  }

  lemma StripEnds(s: string)
    ensures var r := Strip(s);
      r == [] || (!IsSpace(r[0]) && !IsSpace(r[|r| - 1]))
  {
    var t := RStrip(s);
    var r := LStrip(t);
    if r != [] {
      assert r[|r| - 1] == t[|t| - 1];
    }
  }

  /** Stripping adds no character: what was not in `s` is not in the
      result. */
  lemma StripKeepsOut(s: string, c: char)
    requires c !in s
    ensures c !in Strip(s)
  {
    var t := RStrip(s);
    assert c !in t by {
      assert forall k :: 0 <= k < |t| ==> t[k] == s[k];
    }
    var r := LStrip(t);
    assert forall k :: 0 <= k < |r| ==> r[k] == t[|t| - |r| + k];
  }

  /** The pieces of `s` between its line breaks; one more than the number
      of breaks. */
  function Split(s: string): (r: seq<string>)
    ensures |r| >= 1
  {
    if s == [] then [""]
    else
      var rest := Split(s[1..]);
      if s[0] == '\n' then [""] + rest else [[s[0]] + rest[0]] + rest[1..]
  }

  /** The lines joined back with line breaks between them. */
  function Join(lines: seq<string>): string {
    if lines == [] then ""
    else if |lines| == 1 then lines[0]
    else lines[0] + "\n" + Join(lines[1..])
  }

  /** `s.splitlines()` for `\n` breaks: the pieces between the breaks, with
      no line for a final break and none at all for an empty string. */
  function SplitLines(s: string): seq<string> {
    var pieces := Split(s);
    if pieces[|pieces| - 1] == "" then pieces[..|pieces| - 1] else pieces
  }

  /** Splitting at the breaks and joining with breaks gives back the text,
      and no piece holds a break. */
  lemma {:induction false} SplitJoin(s: string)
    ensures Join(Split(s)) == s
    ensures forall k :: 0 <= k < |Split(s)| ==> '\n' !in Split(s)[k]
    ensures s == [] || (Split(s)[|Split(s)| - 1] == [] <==> s[|s| - 1] == '\n')
  {
    JoinSplit(s);
    SplitNoBreaks(s);
    SplitLast(s);
  }

  lemma {:induction false} JoinSplit(s: string)
    ensures Join(Split(s)) == s
  {
    if s != [] {
      JoinSplit(s[1..]);
      var rest := Split(s[1..]);
      if s[0] == '\n' {
        assert s == "\n" + s[1..];
      } else if |rest| == 1 {
        assert s == [s[0]] + rest[0];
      } else {
        assert Join(rest) == rest[0] + "\n" + Join(rest[1..]);
        assert Split(s)[1..] == rest[1..];
        assert s == [s[0]] + s[1..];
      }
    }
  }

  lemma {:induction false} SplitNoBreaks(s: string)
    ensures forall k :: 0 <= k < |Split(s)| ==> '\n' !in Split(s)[k]
  {
    if s != [] {
      SplitNoBreaks(s[1..]);
      var rest := Split(s[1..]);
      if s[0] != '\n' {
        var first := [s[0]] + rest[0];
        assert '\n' !in first by {
          assert forall c :: c in first ==> c == s[0] || c in rest[0];
        }
        assert Split(s) == [first] + rest[1..];
      }
    }
  }

  /** The last piece is empty exactly when the text ends with a break; a
      text without breaks is one piece. */
  lemma {:induction false} SplitLast(s: string)
    ensures |Split(s)| == 1 ==> '\n' !in s
    ensures s == [] || (Split(s)[|Split(s)| - 1] == [] <==> s[|s| - 1] == '\n')
  {
    if s != [] {
      SplitLast(s[1..]);
      var rest := Split(s[1..]);
      assert s[|s| - 1] == if |s| == 1 then s[0] else s[1..][|s| - 2];
      if s[0] != '\n' {
        assert s == [s[0]] + s[1..];
      }
    }
  }

  /** The lines give back the text when joined with breaks, plus the final
      break when the text ended with one. */
  lemma LinesRoundTrip(s: string)
    ensures forall k :: 0 <= k < |SplitLines(s)| ==> '\n' !in SplitLines(s)[k]
    ensures Join(SplitLines(s)) + (if s != [] && s[|s| - 1] == '\n' then "\n" else "") == s
  {
    SplitJoin(s);
    LinesArePieces(s);
    var pieces := Split(s);
    if SplitLines(s) != pieces {
      if |pieces| == 1 {
        assert s == [];
      } else {
        JoinDropLast(pieces);
      }
    }
  }

  /** The lines are the pieces, less an empty last piece. */
  lemma LinesArePieces(s: string)
    ensures var pieces := Split(s);
      SplitLines(s) == if pieces[|pieces| - 1] == [] then pieces[..|pieces| - 1] else pieces
  {
  }

  /** Dropping an empty last piece drops the final break. */
  lemma {:induction false} JoinDropLast(pieces: seq<string>)
    requires |pieces| > 1 && pieces[|pieces| - 1] == ""
    ensures Join(pieces) == Join(pieces[..|pieces| - 1]) + "\n"
  {
    if |pieces| > 2 {
      JoinDropLast(pieces[1..]);
      assert pieces[1..][..|pieces| - 2] == pieces[..|pieces| - 1][1..];
    }
  }
}
