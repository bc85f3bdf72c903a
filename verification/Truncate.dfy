/** The log truncator of ci/truncate.go and the proof that it does not change what is extracted. */
module Truncate {
  import opened Text
  import opened Sequences

  const PREFIXES := ["{\"Secret\":", "{\"TestName\":", "{\"Score\":", "{\"MaxScore\":", "{\"Weight\":"]

  /** `score.HasPrefix`: does the line look like a JSON score object? */
  predicate IsScoreLine(line: string) {
    exists prefix :: prefix in PREFIXES && HasPrefix(TrimSpace(line), prefix)
  }

  /** What a line looks like apart from its indentation is all that counts. */
  lemma IndentedScoreLine(e: string, line: string)
    requires IsSpace(e)
    ensures IsScoreLine(e + line) == IsScoreLine(line) == IsScoreLine(line + e)
  {
    TrimSpaceAtStart(e, line);
    TrimSpaceAtEnd(line, e);
    hide TrimSpace;
  }

  predicate StartsWith(line: string, i: nat) { i < |PREFIXES| && PREFIXES[i] <= line }

  lemma TrimmedPrefix(line: string, prefix: string)
    requires LeadingSpace(line) == 0 && prefix != "" && prefix[|prefix| - 1] == ':'
    ensures prefix <= TrimSpace(line) <==> prefix <= line
  {
    assert TrimLeft(line) == line;
    hide TrimLeft, TrimRight, LeadingSpace;
    TrimRightIsPrefix(line);
    if prefix <= line {
      TrimRightKeepsPrefix(line, prefix);
    }
  }

  lemma UnindentedScoreLine(line: string)
    requires LeadingSpace(line) == 0
    ensures IsScoreLine(line) <==> exists i: nat :: StartsWith(line, i)
  {
    hide TrimSpace, LeadingSpace;
    forall i: nat | i < |PREFIXES| ensures PREFIXES[i] <= TrimSpace(line) <==> StartsWith(line, i) {
      TrimmedPrefix(line, PREFIXES[i]);
    }
    if i: nat :| StartsWith(line, i) {
      assert PREFIXES[i] in PREFIXES;
    }
    if IsScoreLine(line) {
      var i: nat :| i < |PREFIXES| && PREFIXES[i] <= TrimSpace(line);
      assert StartsWith(line, i);
    }
  }

  lemma FirstFields(line: string)
    ensures StartsWith(line, 0) <==> "{\"Secret\":" <= line
    ensures StartsWith(line, 1) <==> "{\"TestName\":" <= line
    ensures StartsWith(line, 2) <==> "{\"Score\":" <= line
  {
  }

  lemma LastFields(line: string, i: nat)
    ensures StartsWith(line, 3) <==> "{\"MaxScore\":" <= line
    ensures StartsWith(line, 4) <==> "{\"Weight\":" <= line
    ensures StartsWith(line, i) ==> i < 5
  {
  }

  /** A line that is not indented is a score line exactly if it starts with one of the five fields of a score. */
  lemma ScoreLineExactlyWhen(line: string)
    requires LeadingSpace(line) == 0
    ensures IsScoreLine(line) <==>
            || "{\"Secret\":" <= line || "{\"TestName\":" <= line || "{\"Score\":" <= line
            || "{\"MaxScore\":" <= line || "{\"Weight\":" <= line
  {
    UnindentedScoreLine(line);
    hide *;
    FirstFields(line);
    LastFields(line, 0);
    if i: nat :| StartsWith(line, i) {
      LastFields(line, i);
      assert i == 0 || i == 1 || i == 2 || i == 3 || i == 4;
    }
  }

  const NOTICE := "... truncated output ..."
  const NOTICE_LINES := "\n" + (NOTICE + "\n\n")
  const TRUNCATE_MSG := "\n" + NOTICE_LINES
  const TOO_MUCH_OUTPUT := "too much output data to scan" + " (skipping; fix your code)"

  /** The score lines of a text, in order. */
  function ScoreLines(s: string): seq<string> {
    Filter(IsScoreLine, Lines(s))
  }

  method FindScoreLines(lines: string) returns (found: string)
    ensures found == Join(ScoreLines(lines))
  {
    hide IsScoreLine;
    var all := Lines(lines);
    var scoreLines: seq<string> := [];
    for i := 0 to |all|
      invariant scoreLines == Filter(IsScoreLine, all[..i])
    {
      FilterSnoc(IsScoreLine, all, i);
      if IsScoreLine(all[i]) {
        scoreLines := scoreLines + [all[i]];
      }
    }
    assert all[..|all|] == all;
    found := Join(scoreLines);
  }

  /** The offset of the first byte after the last newline in `all[..limit]`. */
  function LineStart(all: string, limit: nat): (start: nat)
    requires limit <= |all|
    ensures start <= limit
  {
    LastNewline(all[..limit]) + 1
  }

  function Middle(all: string, truncate: nat, last: nat): string
    requires |all| > truncate + last
  {
    LineStartMonotone(all, truncate, |all| - last);
    all[LineStart(all, truncate)..LineStart(all, |all| - last)]
  }

  /** `truncateLog`. The caller, ci/docker.go:107, calls it only for a log longer than the first and
      last segments together. */
  function TruncateLog(all: string, truncate: nat, last: nat, max: nat): string
    requires |all| > truncate + last
  {
    var middle := Middle(all, truncate, last);
    var scoreLines := if |middle| < max then Join(ScoreLines(middle)) else TOO_MUCH_OUTPUT;
    all[..LineStart(all, truncate)] + (scoreLines + (TRUNCATE_MSG + all[LineStart(all, |all| - last)..]))
  }

  lemma LineStartMonotone(all: string, a: nat, b: nat)
    requires a <= b <= |all|
    ensures LineStart(all, a) <= LineStart(all, b)
  {
    var i := LastNewline(all[..a]);
    assert i >= 0 ==> all[..b][i] == '\n';
  }

  // ---------- where score lines come from ----------

  /** A text that is empty or ends with a newline. */
  predicate WholeLines(s: string) { s == "" || s[|s| - 1] == '\n' }

  lemma ScoreLineStart(line: string)
    requires IsScoreLine(line)
    ensures TrimSpace(line) != "" && TrimSpace(line)[0] == '{'
  {
    hide TrimSpace;
  }

  lemma NoScoreLine(line: string)
    requires line == "" || (LeadingSpace(line) == 0 && line[0] != '{')
    ensures !IsScoreLine(line)
  {
    hide IsScoreLine, IsSpace, LeadingSpace, TrailingSpace;
    assert TrimLeft(line) == line;
    TrimRightIsPrefix(line);
    if IsScoreLine(line) {
      ScoreLineStart(line);
    }
  }

  lemma NotSpace(line: string)
    requires |line| > 0 && line[0] in ".t"
    ensures LeadingSpace(line) == 0
  {
    forall k | 0 < k <= |line| ensures !IsSpace(line[..k]) {
      assert line[..k][0] == line[0];
    }
  }

  lemma NoScoreLinesIn(line: string)
    requires NoNewline(line) && !IsScoreLine(line)
    ensures ScoreLines(line) == []
  {
    hide IsScoreLine;
    LinesOfOneLine(line);
  }

  lemma NoScoreLinesInPlaceholder()
    ensures ScoreLines(TOO_MUCH_OUTPUT) == []
  {
    hide IsScoreLine, ScoreLines;
    assert NoNewline(TOO_MUCH_OUTPUT) && TOO_MUCH_OUTPUT[0] == 't';
    NotSpace(TOO_MUCH_OUTPUT);
    NoScoreLine(TOO_MUCH_OUTPUT);
    NoScoreLinesIn(TOO_MUCH_OUTPUT);
  }

  /** Cutting a text at a line start cuts its list of score lines. */
  lemma ScoreLinesOfWholeLines(a: string, b: string)
    requires WholeLines(a)
    ensures ScoreLines(a + b) == ScoreLines(a) + ScoreLines(b)
  {
    hide IsScoreLine;
    if a == "" {
      assert a + b == b;
      NoScoreLine("");
      assert Lines(a) == [""];
    } else {
      var a' := a[..|a| - 1];
      assert a == a' + ("\n" + "") && a + b == a' + ("\n" + b);
      LinesOfConcat(a', b);
      LinesOfConcat(a', "");
      FilterConcat(IsScoreLine, Lines(a'), Lines(b));
      FilterConcat(IsScoreLine, Lines(a'), Lines(""));
      NoScoreLine("");
    }
  }

  /** The score lines of a text survive being filtered, joined and read back. */
  lemma ScoreLinesOfJoined(s: string)
    ensures ScoreLines(Join(ScoreLines(s))) == ScoreLines(s)
  {
    hide IsScoreLine;
    var found := ScoreLines(s);
    LinesHaveNoNewline(s);
    FilterMembers(IsScoreLine, Lines(s));
    if found == [] {
      NoScoreLine("");
    } else {
      LinesOfJoin(found);
      FilterAll(IsScoreLine, found);
    }
  }

  /** A line that is no score line, surrounded by blank lines, adds no score line. */
  lemma ScoreLinesOfNotice(notice: string, b: string)
    requires NoNewline(notice) && !IsScoreLine(notice)
    ensures ScoreLines("\n" + (notice + "\n\n") + b) == ScoreLines(b)
  {
    hide IsScoreLine, ScoreLines;
    var blank := "\n" + b;
    var text := notice + ("\n" + blank);
    assert "\n" + (notice + "\n\n") + b == "" + ("\n" + text);
    assert blank == "" + ("\n" + b);
    LineThen("", text);
    LineThen(notice, blank);
    LineThen("", b);
  }

  /** A leading line that is no score line does not matter. */
  lemma LineThen(line: string, rest: string)
    requires NoNewline(line) && (line == "" || !IsScoreLine(line))
    ensures ScoreLines(line + ("\n" + rest)) == ScoreLines(rest)
  {
    NoScoreLine("");
    hide IsScoreLine;
    LinesOfConcat(line, rest);
    LinesOfOneLine(line);
    FilterConcat(IsScoreLine, [line], Lines(rest));
  }

  lemma ScoreLinesOfMessage(b: string)
    ensures ScoreLines(NOTICE_LINES + b) == ScoreLines(b)
  {
    hide IsScoreLine, ScoreLines;
    NotSpace(NOTICE);
    NoScoreLine(NOTICE);
    ScoreLinesOfNotice(NOTICE, b);
  }

  /** Score lines around an inserted middle text. */
  lemma ScoreLinesAround(a: string, mid: string, b: string)
    requires WholeLines(a)
    ensures ScoreLines(a + (mid + (TRUNCATE_MSG + b))) == ScoreLines(a) + (ScoreLines(mid) + ScoreLines(b))
  {
    hide IsScoreLine;
    var tail := NOTICE_LINES + b;
    assert TRUNCATE_MSG + b == "\n" + tail;
    ScoreLinesOfWholeLines(a, mid + ("\n" + tail));
    LinesOfConcat(mid, tail);
    FilterConcat(IsScoreLine, Lines(mid), Lines(tail));
    ScoreLinesOfMessage(b);
  }

  lemma LineStartIsWholeLines(all: string, limit: nat)
    requires limit <= |all|
    ensures WholeLines(all[..LineStart(all, limit)])
    ensures forall k :: LineStart(all, limit) < k <= limit ==> !WholeLines(all[..k])
  {
    var i := LastNewline(all[..limit]);
    forall k | LineStart(all, limit) < k <= limit ensures !WholeLines(all[..k]) {
      assert all[..limit][k - 1] != '\n';
    }
  }

  lemma ScoreLinesOfCuts(all: string, m: nat, l: nat)
    requires m <= l <= |all| && WholeLines(all[..m]) && WholeLines(all[..l])
    ensures ScoreLines(all) == ScoreLines(all[..m]) + (ScoreLines(all[m..l]) + ScoreLines(all[l..]))
  {
    hide IsScoreLine, ScoreLines;
    var first, middle, end := all[..m], all[m..l], all[l..];
    assert all == first + (middle + end);
    assert middle != "" ==> middle[|middle| - 1] == all[..l][l - 1];
    ScoreLinesOfWholeLines(first, middle + end);
    ScoreLinesOfWholeLines(middle, end);
  }

  lemma ScoreLinesOfSegments(all: string, truncate: nat, last: nat)
    requires |all| > truncate + last
    ensures ScoreLines(all) ==
              ScoreLines(all[..LineStart(all, truncate)]) +
              (ScoreLines(Middle(all, truncate, last)) + ScoreLines(all[LineStart(all, |all| - last)..]))
  {
    hide IsScoreLine, ScoreLines;
    LineStartMonotone(all, truncate, |all| - last);
    LineStartIsWholeLines(all, truncate);
    LineStartIsWholeLines(all, |all| - last);
    ScoreLinesOfCuts(all, LineStart(all, truncate), LineStart(all, |all| - last));
  }

  // ---------- main results ----------

  /** Truncation leaves the score lines exactly as they were if and only if the middle segment is
      small enough to be scanned or holds no score line at all. */
  lemma TruncateKeepsScoreLines(all: string, truncate: nat, last: nat, max: nat)
    requires |all| > truncate + last
    ensures ScoreLines(TruncateLog(all, truncate, last, max)) == ScoreLines(all)
            <==> |Middle(all, truncate, last)| < max || ScoreLines(Middle(all, truncate, last)) == []
  {
    hide IsScoreLine, ScoreLines, LastNewline, Join;
    var middle := Middle(all, truncate, last);
    var first, end := all[..LineStart(all, truncate)], all[LineStart(all, |all| - last)..];
    LineStartIsWholeLines(all, truncate);
    ScoreLinesOfSegments(all, truncate, last);
    if |middle| < max {
      ScoreLinesAround(first, Join(ScoreLines(middle)), end);
      ScoreLinesOfJoined(middle);
    } else {
      ScoreLinesAround(first, TOO_MUCH_OUTPUT, end);
      NoScoreLinesInPlaceholder();
    }
  }

  lemma OnlyScoreLines(s: string)
    ensures Join(ScoreLines(s)) == "" || forall line :: line in Lines(Join(ScoreLines(s))) ==> IsScoreLine(line)
  {
    hide IsScoreLine;
    LinesHaveNoNewline(s);
    FilterMembers(IsScoreLine, Lines(s));
    if ScoreLines(s) != [] {
      LinesOfJoin(ScoreLines(s));
    }
  }

  /** What else the truncated log keeps: it starts with the longest run of whole lines that fits in
      the first `truncate` bytes, and ends with the whole lines that hold the last `last` bytes. Of the lines
      between them nothing is left but score lines, or only a message if there is too much to scan. */
  lemma TruncateKeepsEnds(all: string, truncate: nat, last: nat, max: nat)
    returns (start: nat, mid: string, end: nat)
    requires |all| > truncate + last
    ensures start <= truncate && start <= end <= |all| - last
    ensures WholeLines(all[..start]) && forall k :: start < k <= truncate ==> !WholeLines(all[..k])
    ensures WholeLines(all[..end]) && forall k :: end < k <= |all| - last ==> !WholeLines(all[..k])
    ensures TruncateLog(all, truncate, last, max) ==
            all[..start] + (mid + (TRUNCATE_MSG + all[end..]))
    ensures end - start < max ==> mid == "" || forall line :: line in Lines(mid) ==> IsScoreLine(line)
    ensures end - start >= max ==> mid == TOO_MUCH_OUTPUT
  {
    hide IsScoreLine, ScoreLines, LastNewline, WholeLines, Join, Lines;
    OnlyScoreLines(Middle(all, truncate, last));
    start, end := LineStart(all, truncate), LineStart(all, |all| - last);
    LineStartMonotone(all, truncate, |all| - last);
    LineStartIsWholeLines(all, truncate);
    LineStartIsWholeLines(all, |all| - last);
    var middle := Middle(all, truncate, last);
    mid := if |middle| < max then Join(ScoreLines(middle)) else TOO_MUCH_OUTPUT;
  }
}
