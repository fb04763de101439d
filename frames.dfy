/**
 * Frames are multi-line text blocks. This module models str.splitlines()
 * (on '\n' only) and get_frame_size from lesson1/main.py.
 */
module Frames {

  /** Index of the first '\n' in s, or |s| when there is none. */
  function LineEnd(s: string): (i: nat)
    ensures i <= |s|
    ensures i < |s| ==> s[i] == '\n'
    ensures forall k :: 0 <= k < i ==> s[k] != '\n'
  {
    if s == [] || s[0] == '\n' then 0 else 1 + LineEnd(s[1..])
  }

  /**
   * text.splitlines() for '\n' line boundaries: a final '\n' does not start
   * another line and the empty text has no lines.
   */
  function Lines(text: string): (lines: seq<string>)
    ensures |lines| == 0 <==> text == ""
    ensures forall l :: l in lines ==> '\n' !in l
    decreases |text|
  {
    if text == "" then []
    else
      var i := LineEnd(text);
      if i == |text| then [text]
      else [text[..i]] + Lines(text[i + 1..])
  }

  /** Writing each line followed by '\n'. */
  function Unlines(lines: seq<string>): string
  {
    if lines == [] then "" else lines[0] + "\n" + Unlines(lines[1..])
  }

  /** Splitting undoes joining: the lines of a block of '\n'-terminated lines are those lines. */
  lemma {:induction false} LinesOfUnlines(lines: seq<string>)
    requires forall l :: l in lines ==> '\n' !in l
    ensures Lines(Unlines(lines)) == lines
  {
    if lines != [] {
      var text := Unlines(lines);
      var head := lines[0];
      assert text == head + ("\n" + Unlines(lines[1..]));
      LineEndOfLine(head, "\n" + Unlines(lines[1..]));
      assert text[..|head|] == head;
      assert text[|head| + 1..] == Unlines(lines[1..]);
      LinesOfUnlines(lines[1..]);
    }
  }

  /**
   * Joining undoes splitting: writing the lines of a text back, each followed
   * by '\n', gives the text itself, with a '\n' added at the end when the
   * text was not empty and did not already end in one.
   */
  lemma {:induction false} UnlinesOfLines(text: string)
    ensures Unlines(Lines(text)) == if text == "" || text[|text| - 1] == '\n' then text else text + "\n"
    decreases |text|
  {
    if text != "" {
      var i := LineEnd(text);
      if i == |text| {
        assert Lines(text) == [text];
        assert text[|text| - 1] != '\n';
        assert Unlines([text]) == text + "\n" + Unlines([]);
      } else {
        var rest := text[i + 1..];
        var ls := Lines(rest);
        assert Lines(text) == [text[..i]] + ls;
        UnlinesCons(text[..i], ls);
        UnlinesOfLines(rest);
        SplitAtBreak(text, i);
        if rest != "" {
          assert text[|text| - 1] == rest[|rest| - 1];
        }
      }
    }
  }

  lemma SplitAtBreak(s: string, i: nat)
    requires i < |s| && s[i] == '\n'
    ensures s == s[..i] + "\n" + s[i + 1..]
  {
    assert forall k :: 0 <= k < |s| ==> s[k] == (s[..i] + "\n" + s[i + 1..])[k];
  }

  lemma UnlinesCons(l: string, lines: seq<string>)
    ensures Unlines([l] + lines) == l + "\n" + Unlines(lines)
  {
    assert ([l] + lines)[1..] == lines;
  }

  /** The first line of l + rest ends where l ends, when l has no '\n' and rest starts with one. */
  lemma {:induction false} LineEndOfLine(l: string, rest: string)
    requires '\n' !in l && rest != [] && rest[0] == '\n'
    ensures LineEnd(l + rest) == |l|
  {
    if l != [] {
      assert (l + rest)[1..] == l[1..] + rest;
      LineEndOfLine(l[1..], rest);
    }
  }

  /** The longest of a non-empty list of lines: max(len(line) for line in lines). */
  function LongestLine(lines: seq<string>): (m: nat)
    requires |lines| > 0
    ensures forall l :: l in lines ==> |l| <= m
    ensures exists l :: l in lines && |l| == m
  {
    if |lines| == 1 then |lines[0]|
    else
      var rest := LongestLine(lines[1..]);
      assert forall l :: l in lines[1..] ==> l in lines;
      if |lines[0]| >= rest then |lines[0]| else rest
  }

  /**
   * get_frame_size: (number of lines, length of the longest line). The source
   * takes max over the list of line lengths, which fails for a text with no
   * lines, so the text must not be empty.
   */
  function GetFrameSize(text: string): (nat, nat)
    requires text != ""
  {
    var lines := Lines(text);
    (|lines|, LongestLine(lines))
  }

  /** get_frame_size gives the number of lines and the length of the longest one. */
  lemma FrameSizeIsBox(text: string)
    requires text != ""
    ensures GetFrameSize(text).0 == |Lines(text)| > 0
    ensures forall l :: l in Lines(text) ==> |l| <= GetFrameSize(text).1
    ensures exists l :: l in Lines(text) && |l| == GetFrameSize(text).1
  {
  }
}
