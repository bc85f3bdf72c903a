/** Score extraction: kit/score/parse.go and the table of kit/score/results.go.

    JSON decoding is a parameter (`decode`); everything the extractor does around it is modelled. */
module ScoreResults {
  import opened Text
  import opened Truncate
  import opened Sequences

  datatype Score = Score(secret: string, testName: string, taskName: string,
                         score: int, maxScore: int, weight: int, details: string)

  datatype Problem =
    | EmptyTestName
    | BadMaxScore(test: string)
    | BadWeight(test: string)
    | BadInterval(test: string)
    | WrongSecret(test: string)
    | ScoreNotFound
    | SuppressedSecret
    | BadJson(msg: string)

  datatype Decoded = Decoded(sc: Score) | Malformed(msg: string)
  datatype Parsed = Valid(sc: Score) | Invalid(problem: Problem)

  // ---------- parsing one line ----------

  /** `isValid`: the score with its secret cleared, or the first thing that is wrong with it. */
  function Check(sc: Score, secret: string): Parsed {
    if sc.testName == "" then Invalid(EmptyTestName)
    else if sc.maxScore <= 0 then Invalid(BadMaxScore(sc.testName))
    else if sc.weight <= 0 then Invalid(BadWeight(sc.testName))
    else if sc.score < 0 || sc.score > sc.maxScore then Invalid(BadInterval(sc.testName))
    else if sc.secret != secret then Invalid(WrongSecret(sc.testName))
    else Valid(sc.(secret := ""))
  }

  /** `parse`. */
  function Parse(line: string, secret: string, decode: string -> Decoded): Parsed {
    if !Contains(line, secret) then Invalid(ScoreNotFound)
    else match decode(line)
      case Decoded(sc) => Check(sc, secret)
      case Malformed(msg) => Invalid(if Contains(msg, secret) then SuppressedSecret else BadJson(msg))
  }

  /** A line is accepted exactly when it carries the secret and decodes to a well-formed score. */
  predicate WellFormed(sc: Score) {
    sc.testName != "" && sc.maxScore > 0 && sc.weight > 0 && 0 <= sc.score <= sc.maxScore
  }

  lemma ParseAccepts(line: string, secret: string, decode: string -> Decoded)
    ensures Parse(line, secret, decode).Valid? <==>
              && (exists i: nat :: OccursAt(line, secret, i)) && decode(line).Decoded?
              && WellFormed(decode(line).sc) && decode(line).sc.secret == secret
    ensures Parse(line, secret, decode).Valid? ==>
              Parse(line, secret, decode).sc == decode(line).sc.(secret := "")
  {
    ContainsExactlyWhen(line, secret);
    hide Contains;
  }

  /** What a reported problem says about the line it is reported for. */
  ghost predicate IsTrueOf(problem: Problem, line: string, secret: string, d: Decoded) {
    match problem
    case ScoreNotFound => !exists i: nat :: OccursAt(line, secret, i)
    case SuppressedSecret => d.Malformed? && exists i: nat :: OccursAt(d.msg, secret, i)
    case BadJson(msg) => d == Malformed(msg) && !exists i: nat :: OccursAt(msg, secret, i)
    case EmptyTestName => d.Decoded? && d.sc.testName == ""
    case BadMaxScore(test) => d.Decoded? && d.sc.testName == test != "" && d.sc.maxScore <= 0
    case BadWeight(test) => d.Decoded? && d.sc.testName == test != "" && d.sc.maxScore > 0 && d.sc.weight <= 0
    case BadInterval(test) =>
      d.Decoded? && d.sc.testName == test != "" && d.sc.weight > 0 && !(0 <= d.sc.score <= d.sc.maxScore)
    case WrongSecret(test) => d.Decoded? && d.sc.testName == test && WellFormed(d.sc) && d.sc.secret != secret
  }

  /** A line is rejected for what is wrong with it, and for nothing else. A decoder's message that holds the secret is
      never passed on. */
  lemma ParseRejects(line: string, secret: string, decode: string -> Decoded)
    requires Parse(line, secret, decode).Invalid?
    ensures IsTrueOf(Parse(line, secret, decode).problem, line, secret, decode(line))
    ensures Parse(line, secret, decode).problem != ScoreNotFound ==> exists i: nat :: OccursAt(line, secret, i)
  {
    ContainsExactlyWhen(line, secret);
    if decode(line).Malformed? {
      ContainsExactlyWhen(decode(line).msg, secret);
    }
    hide Contains;
  }

  // ---------- the table of results ----------

  datatype Table = Table(names: seq<string>, scores: map<string, Score>)

  const EMPTY := Table([], map[])

  function Add(t: Table, sc: Score): Table {
    var name := sc.testName;
    if name !in t.scores then Table(t.names + [name], t.scores[name := sc])
    else Table(t.names, t.scores[name := Record(t.scores[name], sc)])
  }

  /** What a second score for a test becomes, given the one on record. */
  function Record(current: Score, sc: Score): Score {
    if current.score != 0 then sc.(score := -1, details := "(duplicate)") else sc
  }

  function AddAll(t: Table, scs: seq<Score>): Table {
    if |scs| == 0 then t else Add(AddAll(t, scs[..|scs| - 1]), scs[|scs| - 1])
  }

  ghost predicate Consistent(t: Table) {
    && (forall name :: name in t.names <==> name in t.scores)
    && (forall name :: name in t.scores ==> t.scores[name].testName == name)
    && (forall i, j :: 0 <= i < j < |t.names| ==> t.names[i] != t.names[j])
  }

  /** The scores in the order of their names. */
  function Slice(t: Table): seq<Score> {
    SliceOf(t.names, t.scores)
  }

  function SliceOf(names: seq<string>, scores: map<string, Score>): seq<Score> {
    if |names| == 0 then []
    else SliceOf(names[..|names| - 1], scores) +
         if names[|names| - 1] in scores then [scores[names[|names| - 1]]] else []
  }

  lemma {:induction false} SliceAt(names: seq<string>, scores: map<string, Score>)
    requires forall i :: 0 <= i < |names| ==> names[i] in scores
    ensures |SliceOf(names, scores)| == |names|
    ensures forall i :: 0 <= i < |names| ==> SliceOf(names, scores)[i] == scores[names[i]]
  {
    if |names| > 0 {
      SliceAt(names[..|names| - 1], scores);
    }
  }

  lemma {:induction false} AddAllConsistent(t: Table, scs: seq<Score>)
    requires Consistent(t)
    ensures Consistent(AddAll(t, scs))
    ensures t.names <= AddAll(t, scs).names
    ensures forall sc :: sc in scs ==> sc.testName in AddAll(t, scs).scores
  {
    if |scs| > 0 {
      AddAllConsistent(t, scs[..|scs| - 1]);
    }
  }

  /** The `Results` object while it is being filled. */
  class Results {
    var testNames: seq<string>
    var scoreMap: map<string, Score>

    function View(): Table reads this { Table(testNames, scoreMap) }

    constructor ()
      ensures View() == EMPTY
    {
      testNames, scoreMap := [], map[];
    }

    method AddScore(sc: Score)
      modifies this
      ensures View() == Add(old(View()), sc)
    {
      var testName, recorded := sc.testName, sc;
      if testName in scoreMap {
        if scoreMap[testName].score != 0 {
          recorded := sc.(score := -1, details := "(duplicate)");
        }
      } else {
        testNames := testNames + [testName];
      }
      scoreMap := scoreMap[testName := recorded];
    }

    method ToScoreSlice() returns (scores: seq<Score>)
      requires Consistent(View())
      ensures scores == Slice(View())
    {
      scores := [];
      for i := 0 to |testNames|
        invariant scores == SliceOf(testNames[..i], scoreMap)
      {
        assert testNames[..i + 1][..i] == testNames[..i];
        scores := scores + [scoreMap[testNames[i]]];
      }
      assert testNames[..|testNames|] == testNames;
    }
  }

  // ---------- extraction ----------

  function TestNames(scs: seq<Score>): seq<string> {
    if |scs| == 0 then [] else TestNames(scs[..|scs| - 1]) + [scs[|scs| - 1].testName]
  }

  /** The valid, expected scores on a list of score lines, in order. */
  function Accepted(lines: seq<string>, secret: string, decode: string -> Decoded, expected: seq<Score>): seq<Score> {
    if |lines| == 0 then []
    else
      var before := Accepted(lines[..|lines| - 1], secret, decode, expected);
      match Parse(lines[|lines| - 1], secret, decode)
      case Valid(sc) => if sc.testName in TestNames(expected) then before + [sc] else before
      case Invalid(_) => before
  }

  /** The score lines that do not parse, each with what is wrong with it. */
  function Errors(lines: seq<string>, secret: string, decode: string -> Decoded): seq<(string, Problem)> {
    if |lines| == 0 then []
    else
      var before := Errors(lines[..|lines| - 1], secret, decode);
      match Parse(lines[|lines| - 1], secret, decode)
      case Valid(_) => before
      case Invalid(problem) => before + [(lines[|lines| - 1], problem)]
  }

  /** The errors are for exactly the lines that do not parse, each with what is wrong with it; the scores stem from
      exactly the lines that do, if they are for an expected test. */
  lemma {:induction false} ErrorsAndAccepted(lines: seq<string>, secret: string, decode: string -> Decoded,
                                             expected: seq<Score>)
    ensures forall e :: e in Errors(lines, secret, decode) <==>
              e.0 in lines && Parse(e.0, secret, decode) == Invalid(e.1)
    ensures forall sc :: sc in Accepted(lines, secret, decode, expected) <==>
              && sc.testName in TestNames(expected)
              && exists line :: line in lines && Parse(line, secret, decode) == Valid(sc)
    ensures |lines| >= |Errors(lines, secret, decode)| + |Accepted(lines, secret, decode, expected)|
  {
    hide Parse, TestNames;
    if |lines| > 0 {
      var front, line := lines[..|lines| - 1], lines[|lines| - 1];
      ErrorsAndAccepted(front, secret, decode, expected);
      assert lines == front + [line];
      assert forall x :: x in lines <==> x in front || x == line;
    }
  }

  /** No reported problem tells the secret. */
  lemma ProblemsHideSecret(lines: seq<string>, secret: string, decode: string -> Decoded, line: string, msg: string)
    requires (line, BadJson(msg)) in Errors(lines, secret, decode)
    ensures decode(line) == Malformed(msg) && !exists i: nat :: OccursAt(msg, secret, i)
  {
    hide Parse;
    ErrorsAndAccepted(lines, secret, decode, []);
    ParseRejects(line, secret, decode);
  }

  /** The table for an output with the given score lines. */
  function FinalTable(lines: seq<string>, secret: string, decode: string -> Decoded, expected: seq<Score>): Table {
    AddAll(AddAll(EMPTY, expected), Accepted(lines, secret, decode, expected))
  }

  lemma FinalTableConsistent(lines: seq<string>, secret: string, decode: string -> Decoded, expected: seq<Score>)
    ensures Consistent(FinalTable(lines, secret, decode, expected))
  {
    AddAllConsistent(EMPTY, expected);
    AddAllConsistent(AddAll(EMPTY, expected), Accepted(lines, secret, decode, expected));
  }

  lemma AddAllSnoc(t: Table, scs: seq<Score>, sc: Score)
    ensures AddAll(t, scs + [sc]) == Add(AddAll(t, scs), sc)
  {
    assert (scs + [sc])[..|scs|] == scs;
  }

  lemma ExtractSnoc(lines: seq<string>, line: string, secret: string, decode: string -> Decoded, expected: seq<Score>)
    ensures Errors(lines + [line], secret, decode) == Errors(lines, secret, decode) +
              (match Parse(line, secret, decode) case Valid(_) => [] case Invalid(problem) => [(line, problem)])
    ensures Accepted(lines + [line], secret, decode, expected) == Accepted(lines, secret, decode, expected) +
              (match Parse(line, secret, decode)
               case Valid(sc) => if sc.testName in TestNames(expected) then [sc] else []
               case Invalid(_) => [])
  {
    hide Parse, TestNames;
    assert (lines + [line])[..|lines|] == lines;
  }

  predicate IsLogLine(line: string) { !IsScoreLine(line) && line != "" }

  /** `ExtractResults`: scores, parse errors and the build log without score lines. */
  method ExtractResults(out: string, secret: string, decode: string -> Decoded, expected: seq<Score>)
    returns (scores: seq<Score>, errs: seq<(string, Problem)>, buildLog: string)
    ensures scores == Slice(FinalTable(ScoreLines(out), secret, decode, expected))
    ensures errs == Errors(ScoreLines(out), secret, decode)
    ensures buildLog == Join(Filter(IsLogLine, Lines(out)))
  {
    hide IsScoreLine, IsLogLine, Parse, Join, Lines, Filter, Errors, Accepted, TestNames, Add;
    var results := new Results();
    for i := 0 to |expected|
      invariant results.View() == AddAll(EMPTY, expected[..i])
    {
      AddAllSnoc(EMPTY, expected[..i], expected[i]);
      assert expected[..i + 1] == expected[..i] + [expected[i]];
      results.AddScore(expected[i]);
    }
    assert expected[..|expected|] == expected;
    ghost var start := AddAll(EMPTY, expected);

    var lines, filteredLog := Lines(out), [];
    ghost var seen: seq<string>, accepted: seq<Score> := [], [];
    errs := [];
    ExtractNothing(secret, decode, expected);
    for i := 0 to |lines|
      invariant seen == Filter(IsScoreLine, lines[..i]) && filteredLog == Filter(IsLogLine, lines[..i])
      invariant errs == Errors(seen, secret, decode) && accepted == Accepted(seen, secret, decode, expected)
      invariant results.View() == AddAll(start, accepted)
    {
      var line := lines[i];
      FilterSnoc(IsScoreLine, lines, i);
      FilterSnoc(IsLogLine, lines, i);
      LogLine(line);
      if IsScoreLine(line) {
        ExtractSnoc(seen, line, secret, decode, expected);
        seen := seen + [line];
        match Parse(line, secret, decode)
        case Invalid(problem) =>
          errs := errs + [(line, problem)];
        case Valid(sc) =>
          if sc.testName in TestNames(expected) {
            AddAllSnoc(start, accepted, sc);
            accepted := accepted + [sc];
            results.AddScore(sc);
          }
      } else if line != "" {
        filteredLog := filteredLog + [line];
      }
    }
    assert lines[..|lines|] == lines;
    FinalTableConsistent(seen, secret, decode, expected);
    scores := results.ToScoreSlice();
    buildLog := Join(filteredLog);
  }

  lemma LogLine(line: string)
    ensures IsLogLine(line) <==> !IsScoreLine(line) && line != ""
  {
    hide IsScoreLine;
  }

  lemma ExtractNothing(secret: string, decode: string -> Decoded, expected: seq<Score>)
    ensures Errors([], secret, decode) == [] && Accepted([], secret, decode, expected) == []
    ensures Filter(IsScoreLine, []) == [] && Filter(IsLogLine, []) == []
  {
  }

  // ---------- main result 1: truncating does not change what is extracted ----------

  lemma TruncateThenExtract(out: string, truncate: nat, last: nat, max: nat,
                            secret: string, decode: string -> Decoded, expected: seq<Score>)
    requires |out| > truncate + last
    requires |Middle(out, truncate, last)| < max || ScoreLines(Middle(out, truncate, last)) == []
    ensures FinalTable(ScoreLines(TruncateLog(out, truncate, last, max)), secret, decode, expected)
            == FinalTable(ScoreLines(out), secret, decode, expected)
    ensures Errors(ScoreLines(TruncateLog(out, truncate, last, max)), secret, decode) ==
            Errors(ScoreLines(out), secret, decode)
  {
    TruncateKeepsScoreLines(out, truncate, last, max);
  }

  lemma {:induction false} RejectAll(lines: seq<string>)
    ensures var errs := Errors(lines, "", _ => Malformed(""));
            |errs| == |lines| && forall i :: 0 <= i < |lines| ==> errs[i].0 == lines[i]
  {
    if |lines| > 0 {
      RejectAll(lines[..|lines| - 1]);
    }
  }

  /** The condition above is exact: when it fails, a decoder can tell the two outputs apart. */
  lemma TruncateTooMuch(out: string, truncate: nat, last: nat, max: nat)
    requires |out| > truncate + last
    requires !(|Middle(out, truncate, last)| < max || ScoreLines(Middle(out, truncate, last)) == [])
    ensures Errors(ScoreLines(TruncateLog(out, truncate, last, max)), "", _ => Malformed(""))
            != Errors(ScoreLines(out), "", _ => Malformed(""))
  {
    var kept, all := ScoreLines(TruncateLog(out, truncate, last, max)), ScoreLines(out);
    TruncateKeepsScoreLines(out, truncate, last, max);
    RejectAll(kept);
    RejectAll(all);
    hide IsScoreLine, ScoreLines, TruncateLog, Errors;
    if |kept| == |all| {
      var i :| 0 <= i < |all| && kept[i] != all[i];
    }
  }

  // ---------- main result 2: what the table holds ----------

  function For(name: string, scs: seq<Score>): seq<Score> {
    if |scs| == 0 then []
    else For(name, scs[..|scs| - 1]) + if scs[|scs| - 1].testName == name then [scs[|scs| - 1]] else []
  }

  /** The entry of one test after a list of scores for that test. */
  function Entry(first: Score, ss: seq<Score>): Score {
    if |ss| == 0 then first else Record(Entry(first, ss[..|ss| - 1]), ss[|ss| - 1])
  }

  /** Scores for other tests do not matter. */
  lemma {:induction false} EntryOfTable(t: Table, scs: seq<Score>, name: string)
    requires name in t.scores
    ensures name in AddAll(t, scs).scores
    ensures AddAll(t, scs).scores[name] == Entry(t.scores[name], For(name, scs))
  {
    if |scs| > 0 {
      var front, sc := scs[..|scs| - 1], scs[|scs| - 1];
      EntryOfTable(t, front, name);
      if sc.testName == name {
        assert (For(name, front) + [sc])[..|For(name, front)|] == For(name, front);
      } else {
        assert For(name, scs) == For(name, front);
      }
    }
  }

  predicate FirstNonzero(ss: seq<Score>, i: int) {
    0 <= i < |ss| && ss[i].score != 0 && forall k :: 0 <= k < i ==> ss[k].score == 0
  }

  /** A test that starts at zero holds its first nonzero score; any later score makes it -1 for good. */
  lemma {:induction false} EntryVerdict(first: Score, ss: seq<Score>)
    requires first.score == 0 && forall k :: 0 <= k < |ss| ==> ss[k].score >= 0
    ensures (forall k :: 0 <= k < |ss| ==> ss[k].score == 0) ==> Entry(first, ss).score == 0
    ensures forall i :: FirstNonzero(ss, i) && i == |ss| - 1 ==> Entry(first, ss) == ss[i]
    ensures forall i :: FirstNonzero(ss, i) && i < |ss| - 1 ==>
              Entry(first, ss).score == -1 && Entry(first, ss).details == "(duplicate)"
    ensures |ss| > 0 ==> Entry(first, ss).(score := 0, details := "") == ss[|ss| - 1].(score := 0, details := "")
  {
    if |ss| > 0 {
      var front := ss[..|ss| - 1];
      EntryVerdict(first, front);
      forall i | FirstNonzero(ss, i) && i < |ss| - 1 ensures Entry(first, front).score != 0 {
        assert FirstNonzero(front, i);
        assert i == |front| - 1 ==> Entry(first, front) == front[i];
      }
    }
  }

  predicate ValidFor(name: string, ss: seq<Score>) {
    forall k :: 0 <= k < |ss| ==> ss[k].testName == name && WellFormed(ss[k])
  }

  lemma {:induction false} ForIsValid(lines: seq<string>, secret: string, decode: string -> Decoded,
                                      expected: seq<Score>, name: string)
    ensures ValidFor(name, For(name, Accepted(lines, secret, decode, expected)))
  {
    if |lines| > 0 {
      var init, line := lines[..|lines| - 1], lines[|lines| - 1];
      ParseAccepts(line, secret, decode);
      hide Parse, TestNames;
      ForIsValid(init, secret, decode, expected, name);
      if Parse(line, secret, decode).Valid? {
        ForSnoc(name, Accepted(init, secret, decode, expected), Parse(line, secret, decode).sc);
      }
    }
  }

  lemma ForSnoc(name: string, scs: seq<Score>, sc: Score)
    ensures For(name, scs + [sc]) == For(name, scs) + if sc.testName == name then [sc] else []
  {
    assert (scs + [sc])[..|scs|] == scs;
  }

  lemma {:induction false} AcceptedAreExpected(lines: seq<string>, secret: string, decode: string -> Decoded,
                                               expected: seq<Score>)
    ensures forall sc :: sc in Accepted(lines, secret, decode, expected) ==> sc.testName in TestNames(expected)
  {
    hide Parse, TestNames;
    if |lines| > 0 {
      AcceptedAreExpected(lines[..|lines| - 1], secret, decode, expected);
    }
  }

  lemma {:induction false} ZeroEntries(expected: seq<Score>, name: string)
    requires forall k :: 0 <= k < |expected| ==> expected[k].score == 0
    requires name in TestNames(expected)
    ensures name in AddAll(EMPTY, expected).scores && AddAll(EMPTY, expected).scores[name].score == 0
  {
    var front, sc := expected[..|expected| - 1], expected[|expected| - 1];
    NamesOfTable(front);
    if name in TestNames(front) {
      ZeroEntries(front, name);
    }
  }

  /** For every list of score lines and every expected test: the extracted score is -1 exactly when another valid
      line for the test follows its first nonzero one; otherwise it is the first nonzero line, and
      zero when there is none. */
  lemma ExtractedScore(lines: seq<string>, secret: string, decode: string -> Decoded, expected: seq<Score>,
                       name: string)
    requires forall k :: 0 <= k < |expected| ==> expected[k].score == 0
    requires name in TestNames(expected)
    ensures var t := FinalTable(lines, secret, decode, expected);
            var ss := For(name, Accepted(lines, secret, decode, expected));
            && name in t.scores
            && (t.scores[name].score == -1 <==> exists i :: FirstNonzero(ss, i) && i < |ss| - 1)
            && (forall i :: FirstNonzero(ss, i) && i == |ss| - 1 ==> t.scores[name] == ss[i])
            && ((forall i :: !FirstNonzero(ss, i)) ==> t.scores[name].score == 0)
  {
    hide Parse, Accepted, AddAll, Entry, TestNames;
    var accepted := Accepted(lines, secret, decode, expected);
    var ss := For(name, accepted);
    ZeroEntries(expected, name);
    EntryOfTable(AddAll(EMPTY, expected), accepted, name);
    ForIsValid(lines, secret, decode, expected, name);
    EntryVerdict(AddAll(EMPTY, expected).scores[name], ss);
    FirstNonzeroOrNone(ss);
  }

  lemma FirstNonzeroOrNone(ss: seq<Score>)
    ensures (exists i :: FirstNonzero(ss, i)) || forall k :: 0 <= k < |ss| ==> ss[k].score == 0
  {
    var i := 0;
    while i < |ss| && ss[i].score == 0
      invariant 0 <= i <= |ss| && forall k :: 0 <= k < i ==> ss[k].score == 0
    {
      i := i + 1;
    }
    assert i < |ss| ==> FirstNonzero(ss, i);
  }

  // ---------- which tests are listed, and in which order ----------

  function FirstIndex(names: seq<string>, name: string): (i: nat)
    requires name in names
    ensures i < |names| && names[i] == name && name !in names[..i]
  {
    if names[0] == name then 0 else 1 + FirstIndex(names[1..], name)
  }

  /** The names without repetitions, in first-occurrence order. */
  function Distinct(names: seq<string>): seq<string> {
    if |names| == 0 then []
    else
      var front, last := names[..|names| - 1], names[|names| - 1];
      if last in front then Distinct(front) else Distinct(front) + [last]
  }

  lemma FirstIndexIsUnique(names: seq<string>, name: string, i: nat)
    requires i < |names| && names[i] == name && name !in names[..i]
    ensures FirstIndex(names, name) == i
  {
    var f := FirstIndex(names, name);
    assert forall k :: 0 <= k < i ==> names[k] in names[..i];
    assert forall k :: 0 <= k < f ==> names[k] in names[..f];
  }

  predicate Ordered(names: seq<string>, d: seq<string>) {
    && (forall i :: 0 <= i < |d| ==> d[i] in names)
    && forall i, j :: 0 <= i < j < |d| ==> FirstIndex(names, d[i]) < FirstIndex(names, d[j])
  }

  lemma {:induction false} DistinctIsOrdered(names: seq<string>)
    ensures forall name :: name in Distinct(names) <==> name in names
    ensures Ordered(names, Distinct(names))
  {
    if |names| > 0 {
      var front, last := names[..|names| - 1], names[|names| - 1];
      DistinctIsOrdered(front);
      var d := Distinct(front);
      forall name | name in front ensures FirstIndex(names, name) == FirstIndex(front, name) {
        var i := FirstIndex(front, name);
        assert names[..i] == front[..i];
        FirstIndexIsUnique(names, name, i);
      }
      assert forall i :: 0 <= i < |d| ==> d[i] in front;
      if last !in front {
        FirstIndexIsUnique(names, last, |front|);
      }
    }
  }

  lemma {:induction false} NamesOfTable(scs: seq<Score>)
    ensures AddAll(EMPTY, scs).names == Distinct(TestNames(scs))
    ensures forall name :: name in AddAll(EMPTY, scs).scores <==> name in TestNames(scs)
  {
    if |scs| > 0 {
      var names := TestNames(scs[..|scs| - 1]);
      NamesOfTable(scs[..|scs| - 1]);
      assert (names + [scs[|scs| - 1].testName])[..|names|] == names;
    }
  }

  /** A line for a test already in the table never adds a name to it. */
  lemma {:induction false} KnownTestsAddNoNames(t: Table, scs: seq<Score>)
    requires forall sc :: sc in scs ==> sc.testName in t.scores
    ensures AddAll(t, scs).names == t.names && AddAll(t, scs).scores.Keys == t.scores.Keys
  {
    if |scs| > 0 {
      KnownTestsAddNoNames(t, scs[..|scs| - 1]);
    }
  }

  /** The extracted scores list exactly the expected tests, each once, in first-occurrence order. */
  lemma ExtractedTests(lines: seq<string>, secret: string, decode: string -> Decoded, expected: seq<Score>)
    ensures FinalTable(lines, secret, decode, expected).names == Distinct(TestNames(expected))
  {
    hide Parse, Accepted, AddAll, TestNames, Distinct;
    NamesOfTable(expected);
    AcceptedAreExpected(lines, secret, decode, expected);
    KnownTestsAddNoNames(AddAll(EMPTY, expected), Accepted(lines, secret, decode, expected));
  }
}
