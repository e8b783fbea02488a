/** The comment body's marker and size limit (`ci/markdown.py`). */
module Markdown {
  import opened Text

  const COMMENT_MARKER := "<!-- blastoise-ci-report -->"

  const GITHUB_COMMENT_LIMIT := 65536

  const CLIPPED :=
    "\n\n---\n\n_This comment was clipped at GitHub's size limit. The complete reports are in the workflow artifact._\n"

  function JoinLines(lines: seq<string>): string {
    if |lines| == 0 then "" else if |lines| == 1 then lines[0] else lines[0] + "\n" + JoinLines(lines[1..])
  }

  /** One rung of the ladder: the marker line, then whatever the sections wrote. */
  function Assemble(sections: seq<string>): string {
    TrimRight(JoinLines([COMMENT_MARKER] + sections)) + "\n"
  }

  function Clip(body: string, limit: nat): string {
    var room := if limit > |CLIPPED| then limit - |CLIPPED| else 0;
    TrimRight(if room < |body| then body[..room] else body) + CLIPPED
  }

  /** Whitespace is trimmed at most back to a character that is not whitespace. */
  lemma {:induction false} TrimRightKeeps(prefix: string, s: string)
    requires prefix <= s && prefix != "" && !IsSpace(prefix[|prefix| - 1])
    ensures prefix <= TrimRight(s)
    decreases |s|
  {
    if IsSpace(s[|s| - 1]) {
      assert prefix != s;
      TrimRightKeeps(prefix, s[..|s| - 1]);
    }
  }

  lemma AssembleStartsWithMarker(sections: seq<string>)
    ensures COMMENT_MARKER <= Assemble(sections)
  {
    var lines := [COMMENT_MARKER] + sections;
    assert COMMENT_MARKER <= JoinLines(lines);
    TrimRightKeeps(COMMENT_MARKER, JoinLines(lines));
  }

  lemma ClipStartsWithMarker(body: string, limit: nat)
    requires COMMENT_MARKER <= body && |COMMENT_MARKER| + |CLIPPED| <= limit
    ensures COMMENT_MARKER <= Clip(body, limit) && |Clip(body, limit)| <= limit
  {
    var room := limit - |CLIPPED|;
    TrimRightKeeps(COMMENT_MARKER, if room < |body| then body[..room] else body);
  }

  /**
   The body of the first rung that fits, or the last one clipped; either way it begins with the marker and fits.
   `ladder` holds the sections each rung would write.
   */
  method RenderComment(ladder: seq<seq<string>>, limit: nat := GITHUB_COMMENT_LIMIT) returns (body: string)
    requires ladder != []
    ensures (exists k :: 0 <= k < |ladder| && body == Assemble(ladder[k]) && |body| <= limit
                         && forall j :: 0 <= j < k ==> |Assemble(ladder[j])| > limit)
            || (body == Clip(Assemble(ladder[|ladder| - 1]), limit)
                && forall j :: 0 <= j < |ladder| ==> |Assemble(ladder[j])| > limit)
    ensures |COMMENT_MARKER| + |CLIPPED| <= limit ==> COMMENT_MARKER <= body && |body| <= limit
  {
    hide Assemble, Clip;
    body := "";
    for rung := 0 to |ladder|
      invariant forall j :: 0 <= j < rung ==> |Assemble(ladder[j])| > limit
      invariant rung > 0 ==> body == Assemble(ladder[rung - 1])
    {
      body := Assemble(ladder[rung]);
      if |body| <= limit {
        AssembleStartsWithMarker(ladder[rung]);
        return;
      }
    }
    AssembleStartsWithMarker(ladder[|ladder| - 1]);
    if |COMMENT_MARKER| + |CLIPPED| <= limit {
      ClipStartsWithMarker(body, limit);
    }
    body := Clip(body, limit);
  }

  lemma {:induction false} JoinedLines(lines: seq<string>)
    requires lines != [] && forall line <- lines :: '\n' !in line
    ensures Split('\n', JoinLines(lines) + "\n") == lines + [""]
  {
    if |lines| == 1 {
      SplitFirst('\n', lines[0], "");
      assert lines[0] + "\n" + "" == lines[0] + "\n";
    } else {
      var rest := JoinLines(lines[1..]) + "\n";
      JoinedLines(lines[1..]);
      SplitFirst('\n', lines[0], rest);
      assert JoinLines(lines) + "\n" == lines[0] + ['\n'] + rest;
      assert lines == [lines[0]] + lines[1..];
    }
  }

  lemma {:induction false} LastLineEnds(lines: seq<string>)
    requires lines != []
    ensures lines[|lines| - 1] != "" ==>
              JoinLines(lines) != "" && JoinLines(lines)[|JoinLines(lines)| - 1] ==
                                        lines[|lines| - 1][|lines[|lines| - 1]| - 1]
  {
    if |lines| > 1 {
      LastLineEnds(lines[1..]);
    }
  }

  lemma MarkerIsOneLine()
    ensures '\n' !in COMMENT_MARKER
  {}

  /** Line by line, a body is the marker and then every line that the sections wrote, in order. */
  lemma AssembleKeepsEveryLine(sections: seq<string>)
    requires sections != [] && forall line <- sections :: '\n' !in line
    requires var last := sections[|sections| - 1]; last != "" && !IsSpace(last[|last| - 1])
    ensures Split('\n', Assemble(sections)) == [COMMENT_MARKER] + sections + [""]
  {
    var lines := [COMMENT_MARKER] + sections;
    MarkerIsOneLine();
    hide COMMENT_MARKER, IsSpace, Split, JoinLines;
    LastLineEnds(lines);
    JoinedLines(lines);
    assert TrimRight(JoinLines(lines)) == JoinLines(lines);
  }

  /** Clipping keeps as much of the body as there is room for, but for white space at the cut. */
  lemma ClipKeepsAPrefix(body: string, limit: nat) returns (kept: string)
    requires |CLIPPED| <= limit
    ensures kept <= body && Clip(body, limit) == kept + CLIPPED
    ensures forall i :: |kept| <= i < |body| && i < limit - |CLIPPED| ==> IsSpace(body[i])
  {
    var room := limit - |CLIPPED|;
    var cut := if room < |body| then body[..room] else body;
    kept := TrimRight(cut);
    hide IsSpace;
  }
}
