/** The rewriter and the loader of the `.env` file agree: loading a rewritten file gives the new values to
    the rewritten variables and to all others the values they had (internal/env/save.go:60-97,
    internal/env/load.go:13-47). */
module EnvAgreement {
  import opened EnvFile
  import opened Sequences
  import opened Text

  // ---------- what a line means ----------

  datatype Entry = NoEntry | Entry(key: string, value: string)

  function EntryOf(line: string): Entry {
    match CutAtEquals(line)
    case NotFound => NoEntry
    case Found(key, value) =>
      if HasPrefix(TrimSpace(key), "#") then NoEntry else Entry(TrimSpace(key), TrimSpace(value))
  }

  function LoadEntry(env: Env, e: Entry, expand: Expand): Env {
    if e.NoEntry? || Get(env, e.key) != "" then env else SetEnv(env, e.key, expand(TrimQuotes(e.value), env))
  }

  /** A line with a '=' is ignored exactly if its key starts with a '#'. */
  lemma IgnoredByKey(line: string)
    requires CutAtEquals(line).Found?
    ensures Ignore(line) <==> HasPrefix(TrimSpace(CutAtEquals(line).before), "#")
  {
    hide LeadingSpace, TrailingSpace, IsSpace, TrimLeft, TrimRight;
    var key, rest := CutAtEquals(line).before, "=" + CutAtEquals(line).after;
    assert line == key + rest;
    TrimLeftOfConcat(key, rest);
    TrimLeftIsTrimmed(key);
    TrimLeftIsTrimmed(line);
    TrimLeftOfEquals(rest);
    TrimRightKeepsFirst(TrimLeft(line));
    if TrimLeft(key) != "" {
      TrimRightKeepsFirst(TrimLeft(key));
    } else {
      TrimRightIsPrefix("");
    }
  }

  lemma TrimLeftOfEquals(s: string)
    requires HasPrefix(s, "=")
    ensures TrimLeft(s) == s
  {
    assert s[..1] == "=";
  }

  lemma LineIsEntry(env: Env, line: string, expand: Expand)
    ensures LoadLine(env, line, expand) == LoadEntry(env, EntryOf(line), expand)
  {
    if CutAtEquals(line).Found? {
      IgnoredByKey(line);
    }
    hide Ignore, TrimSpace, TrimQuotes, SetEnv;
  }

  /** A line that assigns a variable which has no value yet sets it to the value without the space and the quotes
      around it, expanded in the environment so far, if the system allows it; any other line does nothing. */
  lemma LineSetsExactlyWhen(env: Env, line: string, key: string, value: string, expand: Expand)
    ensures '=' !in line ==> LoadLine(env, line, expand) == env
    ensures '=' !in key && line == key + "=" + value ==>
              var k, v := TrimSpace(key), expand(TrimQuotes(TrimSpace(value)), env);
              LoadLine(env, line, expand) ==
              if "#" <= k || (k in env && env[k] != "") || k == "" || '\0' in k || '\0' in v then env else env[k := v]
  {
    LineIsEntry(env, line, expand);
    if '=' !in key && line == key + "=" + value {
      CutIsUnique(key, value);
      TrimSpaceTakesAway(key, '=');
    }
    hide TrimSpace, TrimQuotes, Ignore, LoadLine;
  }

  // ---------- space around a line or around the whole file means nothing ----------

  lemma SpaceAtEndOfLine(line: string, e: string)
    requires IsSpace(e)
    ensures EntryOf(line + e) == EntryOf(line)
  {
    match CutAtEquals(line) {
      case NotFound => assert '=' !in line + e;
      case Found(key, value) =>
        assert line + e == key + "=" + (value + e);
        CutIsUnique(key, value + e);
        TrimSpaceAtEnd(value, e);
    }
  }

  lemma NoEqualsInSpace(e: string)
    requires IsSpace(e)
    ensures '=' !in e
  {
  }

  lemma SpaceAtStartOfLine(e: string, line: string)
    requires IsSpace(e)
    ensures EntryOf(e + line) == EntryOf(line)
  {
    hide IsSpace, TrimSpace;
    NoEqualsInSpace(e);
    match CutAtEquals(line) {
      case NotFound => assert '=' !in e + line;
      case Found(key, value) =>
        assert e + line == (e + key) + "=" + value;
        CutIsUnique(e + key, value);
        TrimSpaceAtStart(e, key);
    }
  }

  /** The lines mean the same, one by one. */
  ghost predicate SameMeaning(a: seq<string>, b: seq<string>) {
    |a| == |b| && forall i :: 0 <= i < |a| ==> EntryOf(a[i]) == EntryOf(b[i])
  }

  lemma {:induction false} SameMeaningLoads(env: Env, a: seq<string>, b: seq<string>, expand: Expand)
    requires SameMeaning(a, b)
    ensures LoadLines(env, a, expand) == LoadLines(env, b, expand)
  {
    if |a| > 0 {
      var n := |a| - 1;
      SameMeaningLoads(env, a[..n], b[..n], expand);
      LineIsEntry(LoadLines(env, a[..n], expand), a[n], expand);
      LineIsEntry(LoadLines(env, b[..n], expand), b[n], expand);
      hide EntryOf, LoadEntry, LoadLine;
    }
  }

  lemma BlankLine(env: Env, expand: Expand)
    ensures LoadLine(env, "", expand) == env
  {
    LineIsEntry(env, "", expand);
  }

  lemma {:induction false} LoadLinesConcat(env: Env, a: seq<string>, b: seq<string>, expand: Expand)
    ensures LoadLines(env, a + b, expand) == LoadLines(LoadLines(env, a, expand), b, expand)
  {
    hide LoadLine;
    if |b| == 0 {
      assert a + b == a;
    } else {
      var n := |b| - 1;
      LoadLinesConcat(env, a, b[..n], expand);
      assert (a + b)[..|a + b| - 1] == a + b[..n];
    }
  }

  lemma LoadOneLine(env: Env, line: string, expand: Expand)
    ensures LoadLines(env, [line], expand) == LoadLine(env, line, expand)
  {
    assert [line][..0] == [];
  }

  lemma BlankLineAround(env: Env, lines: seq<string>, expand: Expand)
    ensures LoadLines(env, lines + [""], expand) == LoadLines(env, lines, expand)
    ensures LoadLines(env, [""] + lines, expand) == LoadLines(env, lines, expand)
  {
    hide LoadLine, LoadLines;
    LoadLinesConcat(env, lines, [""], expand);
    LoadLinesConcat(env, [""], lines, expand);
    LoadOneLine(env, "", expand);
    LoadOneLine(LoadLines(env, lines, expand), "", expand);
    BlankLine(env, expand);
    BlankLine(LoadLines(env, lines, expand), expand);
  }

  lemma ReturnIsSpace()
    ensures IsSpace("\r")
  {
  }

  lemma DropReturnsLoad(env: Env, lines: seq<string>, expand: Expand)
    ensures LoadLines(env, DropReturns(lines), expand) == LoadLines(env, lines, expand)
  {
    hide LoadLines, EntryOf, IsSpace;
    var scanned := DropReturns(lines);
    forall i | 0 <= i < |lines| ensures EntryOf(scanned[i]) == EntryOf(lines[i]) {
      if DropReturn(lines[i]) != lines[i] {
        assert lines[i] == DropReturn(lines[i]) + "\r";
        ReturnIsSpace();
        SpaceAtEndOfLine(DropReturn(lines[i]), "\r");
      }
    }
    SameMeaningLoads(env, scanned, lines, expand);
  }

  /** The lines of a text up to the first one that does not fit. */
  function ReadLines(content: string): seq<string> { Lines(content)[..Readable(Lines(content))] }

  lemma {:induction false} ReadableSnoc(lines: seq<string>)
    ensures Readable(lines + [""]) == if Readable(lines) == |lines| then |lines| + 1 else Readable(lines)
  {
    if |lines| > 0 && |lines[0]| < MAX_LINE {
      ReadableSnoc(lines[1..]);
      assert (lines + [""])[1..] == lines[1..] + [""];
    }
  }

  /** What is loaded is what the lines of the text mean, up to the first one that does not fit: carriage returns
      and the empty last line make no difference. */
  lemma ScannedLinesLoad(env: Env, content: string, expand: Expand)
    ensures Loaded(env, content, expand) == LoadLines(env, ReadLines(content), expand)
  {
    hide LoadLines, Lines, DropReturns, Readable;
    var lines, full := Lines(content), FullLines(content);
    var read := full[..Readable(full)];
    DropReturnsLoad(env, read, expand);
    if |full| < |lines| {
      assert lines == full + [""];
      ReadableSnoc(full);
      if Readable(full) == |full| {
        assert ReadLines(content) == read + [""];
        BlankLineAround(env, read, expand);
      } else {
        assert ReadLines(content) == read;
      }
    }
  }

  /** Every line of the text fits. */
  ghost predicate Fits(content: string) { forall line :: line in Lines(content) ==> |line| < MAX_LINE }

  /** `Load` reads the whole file exactly if every line is shorter than 64 KB. */
  lemma FitsExactlyWhen(content: string)
    ensures Fits(content) <==> Readable(FullLines(content)) == |FullLines(content)|
    ensures Fits(content) <==> forall line :: line in Lines(content) ==> |line| < 65_536
  {
    hide Lines;
    var lines, full := Lines(content), FullLines(content);
    assert |full| < |lines| ==> lines == full + [""];
    forall line | line in lines ensures line in full || line == "" {
    }
    assert forall i :: 0 <= i < |full| ==> full[i] in lines;
  }

  lemma FittingLinesLoad(env: Env, content: string, expand: Expand)
    requires Fits(content)
    ensures Loaded(env, content, expand) == LoadLines(env, Lines(content), expand)
  {
    hide LoadLines, Lines, Loaded;
    var lines := Lines(content);
    assert forall i :: 0 <= i < |lines| ==> lines[i] in lines;
    assert Readable(lines) == |lines|;
    assert lines[..|lines|] == lines;
    ScannedLinesLoad(env, content, expand);
  }

  lemma OtherSpace(e: string)
    requires IsSpace(e) && e != "\n"
    ensures NoNewline(e)
  {
  }

  lemma SpaceInFrontOfFile(env: Env, e: string, s: string, expand: Expand)
    requires IsSpace(e)
    ensures LoadLines(env, Lines(e + s), expand) == LoadLines(env, Lines(s), expand)
  {
    hide EntryOf, IsSpace, Lines, LoadLines;
    var lines := Lines(s);
    if e == "\n" {
      assert e + s == "" + ("\n" + s);
      LinesOfConcat("", s);
      LinesOfOneLine("");
      BlankLineAround(env, lines, expand);
    } else {
      OtherSpace(e);
      LinesWithPrefix(e, s);
      SpaceAtStartOfLine(e, lines[0]);
      SameMeaningLoads(env, Lines(e + s), lines, expand);
    }
  }

  lemma SpaceBehindFile(env: Env, s: string, e: string, expand: Expand)
    requires IsSpace(e)
    ensures LoadLines(env, Lines(s + e), expand) == LoadLines(env, Lines(s), expand)
  {
    hide EntryOf, IsSpace, Lines, LoadLines;
    var lines := Lines(s);
    if e == "\n" {
      assert s + e == s + ("\n" + "");
      LinesOfConcat(s, "");
      LinesOfOneLine("");
      BlankLineAround(env, lines, expand);
    } else {
      OtherSpace(e);
      LinesWithSuffix(s, e);
      SpaceAtEndOfLine(lines[|lines| - 1], e);
      SameMeaningLoads(env, Lines(s + e), lines, expand);
    }
  }

  lemma TrimLeftStep(s: string) returns (e: string, rest: string)
    requires LeadingSpace(s) > 0
    ensures s == e + rest && IsSpace(e) && |rest| < |s| && TrimLeft(s) == TrimLeft(rest)
  {
    e, rest := s[..LeadingSpace(s)], s[LeadingSpace(s)..];
  }

  lemma TrimRightStep(s: string) returns (rest: string, e: string)
    requires TrailingSpace(s) > 0
    ensures s == rest + e && IsSpace(e) && |rest| < |s| && TrimRight(s) == TrimRight(rest)
  {
    rest, e := s[..|s| - TrailingSpace(s)], s[|s| - TrailingSpace(s)..];
  }

  lemma {:induction false} TrimLeftLoads(env: Env, s: string, expand: Expand)
    ensures LoadLines(env, Lines(TrimLeft(s)), expand) == LoadLines(env, Lines(s), expand)
    decreases |s|
  {
    if LeadingSpace(s) == 0 {
      assert TrimLeft(s) == s;
    } else {
      hide *;
      var e, rest := TrimLeftStep(s);
      TrimLeftLoads(env, rest, expand);
      SpaceInFrontOfFile(env, e, rest, expand);
    }
  }

  lemma {:induction false} TrimRightLoads(env: Env, s: string, expand: Expand)
    ensures LoadLines(env, Lines(TrimRight(s)), expand) == LoadLines(env, Lines(s), expand)
    decreases |s|
  {
    if TrailingSpace(s) == 0 {
      assert TrimRight(s) == s;
    } else {
      hide *;
      var rest, e := TrimRightStep(s);
      TrimRightLoads(env, rest, expand);
      SpaceBehindFile(env, rest, e, expand);
    }
  }

  lemma RestFits(e: string, s: string)
    requires IsSpace(e) && (Fits(e + s) || Fits(s + e))
    ensures Fits(s)
  {
    hide IsSpace, Lines;
    var lines := Lines(s);
    if e == "\n" {
      assert e + s == "" + ("\n" + s) && s + e == s + ("\n" + "");
      LinesOfConcat("", s);
      LinesOfConcat(s, "");
    } else {
      OtherSpace(e);
      LinesWithPrefix(e, s);
      LinesWithSuffix(s, e);
      var n := |lines| - 1;
      assert lines == [lines[0]] + lines[1..] && lines == lines[..n] + [lines[n]];
      assert e + lines[0] in Lines(e + s) && lines[n] + e in Lines(s + e);
      assert |lines[0]| <= |e + lines[0]| && |lines[n]| <= |lines[n] + e|;
      assert forall line :: line in lines[1..] ==> line in Lines(e + s);
      assert forall line :: line in lines[..n] ==> line in Lines(s + e);
    }
  }

  lemma {:induction false} TrimLeftFits(s: string)
    requires Fits(s)
    ensures Fits(TrimLeft(s))
    decreases |s|
  {
    if LeadingSpace(s) != 0 {
      hide *;
      var e, rest := TrimLeftStep(s);
      RestFits(e, rest);
      TrimLeftFits(rest);
    }
  }

  lemma {:induction false} TrimRightFits(s: string)
    requires Fits(s)
    ensures Fits(TrimRight(s))
    decreases |s|
  {
    if TrailingSpace(s) != 0 {
      hide *;
      var rest, e := TrimRightStep(s);
      RestFits(e, rest);
      TrimRightFits(rest);
    }
  }

  /** Loading a file does what its lines do after the file has been trimmed. */
  lemma LoadedTrimmed(env: Env, content: string, expand: Expand)
    requires Fits(content)
    ensures Fits(TrimSpace(content))
    ensures Loaded(env, content, expand) == LoadLines(env, Lines(TrimSpace(content)), expand)
  {
    hide LoadLines, TrimLeft, TrimRight, Lines, Fits;
    FittingLinesLoad(env, content, expand);
    TrimLeftLoads(env, content, expand);
    TrimRightLoads(env, TrimLeft(content), expand);
    TrimLeftFits(content);
    TrimRightFits(TrimLeft(content));
  }

  // ---------- what the rewriter does to a line ----------

  /** A new variable: a name the loader finds again, and a value it reads back as it is. */
  ghost predicate KeyOk(k: string) {
    k != "" && Trimmed(k) && NoNewline(k) && '=' !in k && '\0' !in k && !HasPrefix(k, "#") && |k| + 1 < MAX_LINE
  }

  ghost predicate ValueOk(v: string) {
    Trimmed(v) && TrimQuotes(v) == v && NoNewline(v) && '\0' !in v && '$' !in v
  }

  /** The line that assigns the value fits. */
  predicate LineFits(k: string, v: string) { |k| + 1 + |v| < MAX_LINE }

  ghost predicate WellFormed(vars: Env)
  {
    forall k :: k in vars ==> KeyOk(k) && ValueOk(vars[k]) && LineFits(k, vars[k])
  }

  lemma EntryOfAssignment(key: string, value: string)
    requires Trimmed(key) && '=' !in key
    ensures EntryOf(key + "=" + value) == if HasPrefix(key, "#") then NoEntry else Entry(key, TrimSpace(value))
  {
    CutIsUnique(key, value);
    TrimSpaceIsTrimmed(key);
  }

  function Replace(e: Entry, vars: Env): Entry {
    if e.Entry? && e.key in vars then e.(value := vars[e.key]) else e
  }

  lemma EntryOfRewrite(line: string, vars: Env)
    requires WellFormed(vars)
    ensures EntryOf(Rewrite(line, vars)) == Replace(EntryOf(line), vars)
    ensures NoNewline(line) ==> NoNewline(Rewrite(line, vars))
    ensures |line| < MAX_LINE ==> |Rewrite(line, vars)| < MAX_LINE
  {
    hide Trimmed, TrimSpace, TrimQuotes;
    match CutAtEquals(line) {
      case NotFound =>
      case Found(key, value) =>
        TrimSpaceIsTrimmed(key);
        TrimSpaceIsTrimmed(value);
        TrimSpaceTakesAway(key, '=');
        TrimSpaceTakesAway(key, '\n');
        TrimSpaceTakesAway(value, '\n');
        var v := if TrimSpace(key) in vars then vars[TrimSpace(key)] else TrimSpace(value);
        TrimSpaceIsTrimmed(v);
        EntryOfAssignment(TrimSpace(key), v);
        assert Rewrite(line, vars) == TrimSpace(key) + "=" + v;
    }
  }

  // ---------- loading the file and its rewritten form side by side ----------

  datatype Option<V> = None | Some(value: V)

  function At<K, V>(env: map<K, V>, k: K): Option<V> { if k in env then Some(env[k]) else None }

  /** A variable is free if it is not set, or set to the empty value. */
  predicate Free<K, V(==)>(env: map<K, V>, k: K, empty: V) { k !in env || env[k] == empty }

  /** Sets a variable that is free, if the system allows it. */
  function Assign<K, V(==)>(env: map<K, V>, k: K, v: V, allowed: bool, empty: V): map<K, V> {
    if Free(env, k, empty) && allowed then env[k := v] else env
  }

  /** `env` after loading lines of the file, `env'` after loading their rewritten form, both from `start`:
      variables that had a value keep it, those rewritten so far have the new one, and all other variables
      agree. */
  ghost predicate Follows<K(!new), V>(start: map<K, V>, vars: map<K, V>, seen: set<K>, env: map<K, V>, env': map<K, V>,
                            empty: V)
  {
    && (forall k :: !Free(start, k, empty) ==> At(env, k) == At(start, k))
    && (forall k :: k !in vars ==> At(env', k) == At(env, k))
    && (forall k :: k in vars ==>
          At(env', k) == if Free(start, k, empty) && k in seen then Some(vars[k]) else At(start, k))
  }

  lemma AssignOther<K(!new), V>(start: map<K, V>, vars: map<K, V>, seen: set<K>, env: map<K, V>, env': map<K, V>,
                      empty: V, key: K, value: V, allowed: bool)
    requires Follows(start, vars, seen, env, env', empty) && key !in vars
    ensures Follows(start, vars, seen + {key}, Assign(env, key, value, allowed, empty),
                    Assign(env', key, value, allowed, empty), empty)
  {
    assert At(env', key) == At(env, key);
  }

  lemma AssignNew<K(!new), V>(start: map<K, V>, vars: map<K, V>, seen: set<K>, env: map<K, V>, env': map<K, V>,
                    empty: V, key: K, value: V, allowed: bool)
    requires Follows(start, vars, seen, env, env', empty) && key in vars
    ensures Follows(start, vars, seen + {key}, Assign(env, key, value, allowed, empty),
                    Assign(env', key, vars[key], true, empty), empty)
  {
    assert At(env', key) == if Free(start, key, empty) && key in seen then Some(vars[key]) else At(start, key);
  }

  /** Values of variables that are not rewritten do not refer to others. */
  ghost predicate Plain(lines: seq<string>, vars: Env) {
    forall line :: line in lines && EntryOf(line).Entry? && EntryOf(line).key !in vars ==> '$' !in EntryOf(line).value
  }

  predicate Allowed(key: string, value: string) { key != "" && '=' !in key && '\0' !in key && '\0' !in value }

  lemma EntryAssigns(env: Env, key: string, value: string, plain: string, expand: Expand)
    requires KeepsPlainText(expand) && TrimQuotes(value) == plain && '$' !in plain
    ensures LoadEntry(env, Entry(key, value), expand) == Assign(env, key, plain, Allowed(key, plain), "")
  {
    hide TrimQuotes;
    assert expand(plain, env) == plain;
  }

  lemma EntryAssignsSomething(env: Env, key: string, value: string, expand: Expand)
    ensures LoadEntry(env, Entry(key, value), expand) ==
            var v := expand(TrimQuotes(value), env); Assign(env, key, v, Allowed(key, v), "")
  {
    hide TrimQuotes;
  }

  lemma EntryFollows(start: Env, vars: Env, seen: set<string>, env: Env, env': Env, e: Entry, expand: Expand)
    requires Follows(start, vars, seen, env, env', "") && KeepsPlainText(expand) && WellFormed(vars)
    requires e.Entry? && e.key !in vars ==> '$' !in e.value
    ensures Follows(start, vars, if e.Entry? then seen + {e.key} else seen,
                    LoadEntry(env, e, expand), LoadEntry(env', Replace(e, vars), expand), "")
  {
    hide TrimQuotes, Trimmed, NoNewline, HasPrefix, LoadEntry, Follows, KeepsPlainText, Assign;
    if e.Entry? {
      var value := TrimQuotes(e.value);
      if e.key in vars {
        assert KeyOk(e.key) && ValueOk(vars[e.key]);
        EntryAssigns(env', e.key, vars[e.key], vars[e.key], expand);
        EntryAssignsSomething(env, e.key, e.value, expand);
        var v := expand(value, env);
        AssignNew(start, vars, seen, env, env', "", e.key, v, Allowed(e.key, v));
      } else {
        TrimQuotesTakesAway(e.value, '$');
        EntryAssigns(env, e.key, e.value, value, expand);
        EntryAssigns(env', e.key, e.value, value, expand);
        AssignOther(start, vars, seen, env, env', "", e.key, value, Allowed(e.key, value));
      }
    } else {
      NoEntryLoads(env, expand);
      NoEntryLoads(env', expand);
    }
  }

  lemma NoEntryLoads(env: Env, expand: Expand)
    ensures LoadEntry(env, NoEntry, expand) == env
  {
  }

  /** The last line of a file and its rewritten form. */
  lemma LastLine(start: Env, vars: Env, lines: seq<string>, expand: Expand)
    requires |lines| > 0
    ensures var n := |lines| - 1;
            && LoadLines(start, lines, expand) == LoadLine(LoadLines(start, lines[..n], expand), lines[n], expand)
            && LoadLines(start, RewriteAll(lines, vars), expand) ==
               LoadLine(LoadLines(start, RewriteAll(lines[..n], vars), expand), Rewrite(lines[n], vars), expand)
  {
    hide LoadLine, Rewrite;
    var n := |lines| - 1;
    assert RewriteAll(lines, vars)[..|RewriteAll(lines, vars)| - 1] == RewriteAll(lines[..n], vars);
  }

  lemma {:induction false} LinesFollow(start: Env, vars: Env, lines: seq<string>, expand: Expand)
    requires KeepsPlainText(expand) && WellFormed(vars) && Plain(lines, vars)
    ensures Follows(start, vars, KeysOf(lines), LoadLines(start, lines, expand),
                    LoadLines(start, RewriteAll(lines, vars), expand), "")
  {
    if |lines| > 0 {
      var n := |lines| - 1;
      assert lines[n] in lines;
      assert lines[..n + 1] == lines;
      LinesFollow(start, vars, lines[..n], expand);
      LastLine(start, vars, lines, expand);
      hide LoadLine, LoadLines, LoadEntry, Follows, EntryOf, Rewrite, RewriteAll, KeysOf, WellFormed, KeepsPlainText,
           CutAtEquals, Replace;
      var env, env' := LoadLines(start, lines[..n], expand), LoadLines(start, RewriteAll(lines[..n], vars), expand);
      LineIsEntry(env, lines[n], expand);
      LineIsEntry(env', Rewrite(lines[n], vars), expand);
      EntryOfRewrite(lines[n], vars);
      EntryFollows(start, vars, KeysOf(lines[..n]), env, env', EntryOf(lines[n]), expand);
      KeysOfSnoc(lines, n);
      SeenMore(start, vars, KeysOf(lines[..n]), lines[n], LoadLine(env, lines[n], expand),
               LoadLine(env', Rewrite(lines[n], vars), expand));
      assert KeysOf(lines) == KeysOf(lines[..n]) + KeyOf(lines[n]);
    } else {
      assert KeysOf(lines) == {};
    }
  }

  lemma SeenVars<K(!new), V>(start: map<K, V>, vars: map<K, V>, seen: set<K>, seen': set<K>, env: map<K, V>,
                   env': map<K, V>, empty: V)
    requires Follows(start, vars, seen, env, env', empty) && forall k :: k in vars ==> (k in seen <==> k in seen')
    ensures Follows(start, vars, seen', env, env', empty)
  {
  }

  /** The key of a comment is no variable. */
  lemma SeenMore(start: Env, vars: Env, seen: set<string>, line: string, env: Env, env': Env)
    requires WellFormed(vars)
    requires Follows(start, vars, if EntryOf(line).Entry? then seen + {EntryOf(line).key} else seen, env, env', "")
    ensures Follows(start, vars, seen + KeyOf(line), env, env', "")
  {
    hide Trimmed, TrimQuotes, TrimSpace, Follows, NoNewline;
    var more := if EntryOf(line).Entry? then seen + {EntryOf(line).key} else seen;
    forall k | k in vars ensures k in more <==> k in seen + KeyOf(line) {
      assert KeyOk(k);
    }
    hide WellFormed, EntryOf, KeyOf;
    SeenVars(start, vars, more, seen + KeyOf(line), env, env', "");
  }

  // ---------- the lines added at the end ----------

  lemma AssignmentLine(env: Env, vars: Env, key: string, expand: Expand)
    requires KeepsPlainText(expand) && WellFormed(vars) && key in vars
    ensures LoadLine(env, key + "=" + vars[key], expand) == Assign(env, key, vars[key], true, "")
  {
    assert KeyOk(key) && ValueOk(vars[key]);
    EntryOfAssignment(key, vars[key]);
    TrimSpaceIsTrimmed(vars[key]);
    LineIsEntry(env, key + "=" + vars[key], expand);
    hide Trimmed, TrimSpace, EntryOf, LoadLine;
    EntryAssigns(env, key, vars[key], vars[key], expand);
  }

  function Members<K>(keys: seq<K>): set<K> { set k | k in keys }

  lemma MembersSnoc<K>(seen: set<K>, keys: seq<K>)
    requires |keys| > 0
    ensures seen + Members(keys[..|keys| - 1]) + {keys[|keys| - 1]} == seen + Members(keys)
  {
  }

  lemma LastNewLine(env: Env, vars: Env, added: seq<string>, expand: Expand)
    requires |added| > 0 && forall k :: k in added ==> k in vars
    ensures var n := |added| - 1;
            LoadLines(env, NewLines(added, vars), expand) ==
            LoadLine(LoadLines(env, NewLines(added[..n], vars), expand), added[n] + "=" + vars[added[n]], expand)
  {
    hide LoadLine;
    var n := |added| - 1;
    assert NewLines(added, vars)[..|NewLines(added, vars)| - 1] == NewLines(added[..n], vars);
  }

  /** The environment of the file as it is, and that of the rewritten file with lines for new keys. */
  lemma {:induction false} NewLinesFollow(start: Env, vars: Env, seen: set<string>, env: Env, env': Env,
                                          added: seq<string>, expand: Expand)
    requires KeepsPlainText(expand) && WellFormed(vars) && forall k :: k in added ==> k in vars
    requires Follows(start, vars, seen, env, env', "")
    ensures Follows(start, vars, seen + Members(added), env, LoadLines(env', NewLines(added, vars), expand), "")
  {
    if |added| == 0 {
      assert seen + Members(added) == seen;
      assert LoadLines(env', NewLines(added, vars), expand) == env';
    } else {
      var n := |added| - 1;
      var before := seen + Members(added[..n]);
      LastNewLine(env', vars, added, expand);
      hide *;
      MembersSnoc(seen, added);
      NewLinesFollow(start, vars, seen, env, env', added[..n], expand);
      var soFar := LoadLines(env', NewLines(added[..n], vars), expand);
      AssignmentLine(soFar, vars, added[n], expand);
      AssignNew(start, vars, before, env, soFar, "", added[n], vars[added[n]], false);
      NotAllowed(env, added[n], vars[added[n]]);
    }
  }

  lemma NotAllowed(env: Env, key: string, value: string)
    ensures Assign(env, key, value, false, "") == env
  {
  }

  lemma {:induction false} NewLinesLength(keys: seq<string>, vars: Env)
    requires forall k :: k in keys ==> k in vars
    ensures |NewLines(keys, vars)| == |keys|
    ensures WellFormed(vars) ==> forall line :: line in NewLines(keys, vars) ==> NoNewline(line) && |line| < MAX_LINE
  {
    if |keys| > 0 {
      NewLinesLength(keys[..|keys| - 1], vars);
      assert WellFormed(vars) ==> KeyOk(keys[|keys| - 1]) && ValueOk(vars[keys[|keys| - 1]]);
    }
  }

  lemma {:induction false} RewrittenHaveNoNewline(lines: seq<string>, vars: Env)
    requires WellFormed(vars) && forall line :: line in lines ==> NoNewline(line) && |line| < MAX_LINE
    ensures forall line :: line in RewriteAll(lines, vars) ==> NoNewline(line) && |line| < MAX_LINE
  {
    if |lines| > 0 {
      RewrittenHaveNoNewline(lines[..|lines| - 1], vars);
      EntryOfRewrite(lines[|lines| - 1], vars);
    }
  }

  // ---------- the theorem ----------

  /** What the new variables add to an environment: those that had no value before. */
  function Overrides(start: Env, vars: Env): Env { map k | k in vars && Get(start, k) == "" :: vars[k] }

  lemma FollowsToTheEnd(start: Env, vars: Env, seen: set<string>, env: Env, env': Env)
    requires Follows(start, vars, seen, env, env', "") && vars.Keys <= seen
    ensures env' == env + Overrides(start, vars)
  {
    forall k ensures At(env', k) == At(env + Overrides(start, vars), k) {
      assert Free(start, k, "") <==> Get(start, k) == "";
    }
    SameEverywhere(env', env + Overrides(start, vars));
  }

  lemma SameEverywhere<K, V>(a: map<K, V>, b: map<K, V>)
    requires forall k :: At(a, k) == At(b, k)
    ensures a == b
  {
    assert forall k :: k in a <==> At(a, k) != None;
    assert forall k :: k in b <==> At(b, k) != None;
  }

  lemma UpdatedFits(content: string, vars: Env, added: seq<string>)
    requires WellFormed(vars) && Fits(TrimSpace(content)) && Lacking(content, vars, added)
    ensures Lines(Updated(content, vars, added)) ==
            RewriteAll(Lines(TrimSpace(content)), vars) + NewLines(added, vars) + [""]
    ensures Fits(Updated(content, vars, added))
  {
    hide Lines, WellFormed, TrimSpace, Terminated;
    var lines := Lines(TrimSpace(content));
    LinesHaveNoNewline(TrimSpace(content));
    RewrittenHaveNoNewline(lines, vars);
    NewLinesLength(added, vars);
    LinesOfTerminated(RewriteAll(lines, vars) + NewLines(added, vars));
  }

  lemma UpdatedLoads(start: Env, content: string, vars: Env, added: seq<string>, expand: Expand)
    requires KeepsPlainText(expand) && WellFormed(vars) && Plain(Lines(TrimSpace(content)), vars)
    requires Fits(content) && Lacking(content, vars, added)
    ensures Loaded(start, Updated(content, vars, added), expand) ==
            Loaded(start, content, expand) + Overrides(start, vars)
    ensures Fits(Updated(content, vars, added))
  {
    hide LoadLines, Lines, WellFormed, KeepsPlainText, TrimSpace, Plain, Updated, Fits, Loaded;
    var lines := Lines(TrimSpace(content));
    var first, more := RewriteAll(lines, vars), NewLines(added, vars);
    LoadedTrimmed(start, content, expand);
    UpdatedFits(content, vars, added);
    FittingLinesLoad(start, Updated(content, vars, added), expand);
    BlankLineAround(start, first + more, expand);
    LoadLinesConcat(start, first, more, expand);
    LinesFollow(start, vars, lines, expand);
    var env, env' := LoadLines(start, lines, expand), LoadLines(start, first, expand);
    NewLinesFollow(start, vars, KeysOf(lines), env, env', added, expand);
    FollowsToTheEnd(start, vars, KeysOf(lines) + Members(added), env, LoadLines(env', more, expand));
  }

  /** Loading the rewritten file, in any environment: a rewritten variable that has no value yet gets its new
      value, and all else is as if the file had not been rewritten, whatever comments, blank lines, spaces and
      repeated keys the file holds. */
  lemma UpdateThenLoad(start: Env, content: string, vars: Env, file: string, expand: Expand)
    requires KeepsPlainText(expand) && WellFormed(vars) && Plain(Lines(TrimSpace(content)), vars)
    requires Fits(content) && IsUpdate(content, vars, file)
    ensures Loaded(start, file, expand) == Loaded(start, content, expand) + Overrides(start, vars)
    ensures Fits(file)
  {
    hide KeepsPlainText, WellFormed, Plain, Updated, Loaded, Fits;
    var added :| Lacking(content, vars, added) && file == Updated(content, vars, added);
    UpdatedLoads(start, content, vars, added, expand);
  }

  /** The line `line` of the file after it has been rewritten. */
  ghost predicate RewrittenTo(line: string, vars: Env, r: string) {
    && ('=' !in line ==> r == line)
    && forall key, value :: '=' !in key && line == key + "=" + value ==>
         r == TrimSpace(key) + "=" + if TrimSpace(key) in vars then vars[TrimSpace(key)] else TrimSpace(value)
  }

  lemma RewriteMeans(line: string, vars: Env)
    ensures RewrittenTo(line, vars, Rewrite(line, vars))
  {
    forall key, value | '=' !in key && line == key + "=" + value ensures CutAtEquals(line) == Found(key, value) {
      CutIsUnique(key, value);
    }
  }

  lemma {:induction false} RewriteAllMeans(lines: seq<string>, vars: Env)
    requires WellFormed(vars) && forall line :: line in lines ==> NoNewline(line)
    ensures |RewriteAll(lines, vars)| == |lines|
    ensures forall i :: 0 <= i < |lines| ==> RewrittenTo(lines[i], vars, RewriteAll(lines, vars)[i])
    ensures forall line :: line in RewriteAll(lines, vars) ==> NoNewline(line)
  {
    hide RewrittenTo, Rewrite, WellFormed;
    if |lines| > 0 {
      RewriteAllMeans(lines[..|lines| - 1], vars);
      EntryOfRewrite(lines[|lines| - 1], vars);
      RewriteMeans(lines[|lines| - 1], vars);
    }
  }

  /** The rewritten file line by line: lines without '=' stay as they are, wherever they stand, assignments keep
      their place and trimmed key, and get the new value if there is one; then one line for each new variable. */
  lemma UpdateKeepsLines(content: string, vars: Env, file: string, i: nat)
    requires WellFormed(vars) && IsUpdate(content, vars, file) && i < |Lines(TrimSpace(content))|
    ensures |Lines(file)| > |Lines(TrimSpace(content))|
    ensures RewrittenTo(Lines(TrimSpace(content))[i], vars, Lines(file)[i])
  {
    hide RewrittenTo, WellFormed, TrimSpace, Lines, Terminated;
    var added :| Lacking(content, vars, added) && file == Updated(content, vars, added);
    var lines := Lines(TrimSpace(content));
    LinesHaveNoNewline(TrimSpace(content));
    RewriteAllMeans(lines, vars);
    NewLinesLength(added, vars);
    LinesOfTerminated(RewriteAll(lines, vars) + NewLines(added, vars));
  }

  // ---------- which values survive ----------

  ghost predicate SingleLineValues(env: Env) { forall k :: k in env ==> NoNewline(env[k]) }

  lemma {:induction false} LoadedValuesAreSingleLines(env: Env, lines: seq<string>, expand: Expand)
    requires KeepsPlainText(expand) && SingleLineValues(env)
    requires forall line :: line in lines && EntryOf(line).Entry? ==>
               '$' !in EntryOf(line).value && NoNewline(EntryOf(line).value)
    ensures SingleLineValues(LoadLines(env, lines, expand))
  {
    hide EntryOf, LoadLine, TrimQuotes;
    if |lines| > 0 {
      var n := |lines| - 1;
      LoadedValuesAreSingleLines(env, lines[..n], expand);
      var soFar, e := LoadLines(env, lines[..n], expand), EntryOf(lines[n]);
      LineIsEntry(soFar, lines[n], expand);
      assert lines[n] in lines;
      if e.Entry? {
        TrimQuotesTakesAway(e.value, '$');
        TrimQuotesTakesAway(e.value, '\n');
        assert expand(TrimQuotes(e.value), soFar) == TrimQuotes(e.value);
      }
    }
  }

  lemma NothingToRewrite(vars: Env)
    ensures Lines(TrimSpace("")) == [""] && RewriteAll([""], vars) == [""] && KeysOf([""]) == {}
  {
    hide TrimLeft, TrimRight, IsSpace;
    LinesOfOneLine("");
    TrimSpaceTakesAway("", ' ');
    assert [""][..0] == [];
  }

  lemma TwoLines(line: string)
    ensures Terminated([""] + [line]) == "\n" + (line + "\n")
  {
    assert ([""] + [line])[1..] == [line] && [line][1..] == [];
    assert "" + ("\n" + Terminated([line])) == "\n" + Terminated([line]);
    assert "\n" + "" == "\n";
  }

  /** The file with one variable only, written from nothing. */
  lemma OneVariableFile(key: string, value: string)
    ensures Lacking("", map[key := value], [key])
    ensures Updated("", map[key := value], [key]) == "\n" + ((key + "=" + value) + "\n")
  {
    var vars := map[key := value];
    NothingToRewrite(vars);
    assert NewLines([key], vars) == [key + "=" + value] by {
      assert [key][..0] == [];
    }
    hide TrimSpace, Lines, NewLines, RewriteAll, KeysOf, Terminated;
    TwoLines(key + "=" + value);
  }

  /** The lines of that file. */
  lemma OneVariableLines(key: string, value: string)
    requires NoNewline(key)
    ensures Lines(Updated("", map[key := value], [key])) ==
            [""] + ([key + "=" + Lines(value)[0]] + Lines(value)[1..]) + [""]
  {
    var line := key + "=" + value;
    OneVariableFile(key, value);
    assert line == (key + "=") + value && NoNewline(key + "=");
    hide Updated, Lines, NoNewline;
    assert "\n" + (line + "\n") == "" + ("\n" + (line + "\n")) && line + "\n" == line + ("\n" + "");
    LinesOfOneLine("");
    LinesOfConcat("", line + "\n");
    LinesOfConcat(line, "");
    LinesWithPrefix(key + "=", value);
    assert (key + "=") + Lines(value)[0] == key + "=" + Lines(value)[0];
  }

  lemma OneLineLines(key: string, value: string)
    requires NoNewline(key) && NoNewline(value)
    ensures Lines(Updated("", map[key := value], [key])) == ["", key + "=" + value, ""]
  {
    OneVariableLines(key, value);
    LinesOfOneLine(value);
    hide Updated, Lines;
    assert [""] + ([key + "=" + value] + [value][1..]) + [""] == ["", key + "=" + value, ""];
  }

  /** A line that fits between two blank ones is read, a longer one is not. */
  lemma OneLineRead(env: Env, file: string, line: string, expand: Expand)
    requires Lines(file) == ["", line, ""]
    ensures Loaded(env, file, expand) == if |line| < MAX_LINE then LoadLine(env, line, expand) else env
  {
    var all := ["", line, ""];
    assert all[1..] == [line, ""] && all[1..][1..] == [""];
    ScannedLinesLoad(env, file, expand);
    hide LoadLines, Loaded, LoadLine;
    if |line| < MAX_LINE {
      assert ReadLines(file) == [""] + [line] + [""];
      BlankLineAround(env, [""] + [line], expand);
      BlankLineAround(env, [line], expand);
      LoadOneLine(env, line, expand);
    } else {
      assert ReadLines(file) == [""];
      LoadOneLine(env, "", expand);
      BlankLine(env, expand);
    }
  }

  /** A value that is a single line is read back without surrounding space and quotes, if its line fits and it
      can be set. */
  lemma OneLineLoaded(key: string, value: string, expand: Expand)
    requires KeepsPlainText(expand) && KeyOk(key) && NoNewline(value) && '$' !in value
    ensures var v := TrimQuotes(TrimSpace(value));
            Loaded(map[], Updated("", map[key := value], [key]), expand) ==
            if '\0' in v || !LineFits(key, value) then map[] else map[key := v]
  {
    var v, line := TrimQuotes(TrimSpace(value)), key + "=" + value;
    hide TrimSpace, TrimQuotes, Trimmed, EntryOf, LoadLine, Updated, Loaded, Lines, NoNewline;
    OneLineLines(key, value);
    OneLineRead(map[], Updated("", map[key := value], [key]), line, expand);
    EntryOfAssignment(key, value);
    TrimSpaceTakesAway(value, '$');
    TrimQuotesTakesAway(TrimSpace(value), '$');
    LineIsEntry(map[], line, expand);
    EntryAssigns(map[], key, TrimSpace(value), v, expand);
  }

  lemma ReadLinesArePlain(key: string, value: string, file: string, line: string)
    requires KeyOk(key) && '$' !in value && line in ReadLines(file)
    requires Lines(file) == [""] + ([key + "=" + Lines(value)[0]] + Lines(value)[1..]) + [""]
    ensures EntryOf(line).Entry? ==> '$' !in EntryOf(line).value && NoNewline(EntryOf(line).value)
  {
    hide EntryOf, Trimmed, Readable;
    assert line in Lines(file);
    if line == key + "=" + Lines(value)[0] {
      EntryIsPlain(key, Lines(value)[0], value);
    } else if line == "" {
      BlankIsNoEntry();
    } else {
      LineIsPlain(line, value);
    }
  }

  lemma BlankIsNoEntry()
    ensures EntryOf("") == NoEntry
  {
  }

  /** No value with a newline is read back: what is loaded are single lines. */
  lemma NewlineLost(key: string, value: string, expand: Expand)
    requires KeepsPlainText(expand) && KeyOk(key) && !NoNewline(value) && '$' !in value
    ensures Get(Loaded(map[], Updated("", map[key := value], [key]), expand), key) != value
  {
    hide Updated, Loaded, Lines, EntryOf, LoadLines, ReadLines, Trimmed;
    var file := Updated("", map[key := value], [key]);
    OneVariableLines(key, value);
    forall line | line in ReadLines(file) && EntryOf(line).Entry?
      ensures '$' !in EntryOf(line).value && NoNewline(EntryOf(line).value)
    {
      ReadLinesArePlain(key, value, file, line);
    }
    ScannedLinesLoad(map[], file, expand);
    LoadedValuesAreSingleLines(map[], ReadLines(file), expand);
  }

  lemma EntryIsPlain(key: string, first: string, value: string)
    requires KeyOk(key) && first in Lines(value) && '$' !in value
    ensures EntryOf(key + "=" + first).Entry? ==>
              '$' !in EntryOf(key + "=" + first).value && NoNewline(EntryOf(key + "=" + first).value)
  {
    hide Trimmed;
    EntryOfAssignment(key, first);
    LineOfPlain(value, first);
    TrimSpaceTakesAway(first, '$');
    TrimSpaceTakesAway(first, '\n');
  }

  lemma LineIsPlain(line: string, value: string)
    requires line in Lines(value) && '$' !in value
    ensures EntryOf(line).Entry? ==> '$' !in EntryOf(line).value && NoNewline(EntryOf(line).value)
  {
    LineOfPlain(value, line);
    hide TrimSpace;
    if CutAtEquals(line).Found? {
      TrimSpaceTakesAway(CutAtEquals(line).after, '$');
      TrimSpaceTakesAway(CutAtEquals(line).after, '\n');
    }
  }

  lemma {:induction false} LineOfPlain(s: string, line: string)
    requires line in Lines(s) && '$' !in s
    ensures '$' !in line && NoNewline(line)
  {
    LinesHaveNoNewline(s);
    if s != "" {
      var rest := Lines(s[1..]);
      if line in rest {
        LineOfPlain(s[1..], line);
      } else {
        assert rest[0] in rest;
        LineOfPlain(s[1..], rest[0]);
      }
    }
  }

  /** Writing one variable and loading it gives its value back exactly if the value is a single line without
      NUL, without space around it and without quotes around it, and its line fits. */
  lemma RoundTripExactlyWhen(key: string, value: string, file: string, expand: Expand)
    requires KeepsPlainText(expand) && KeyOk(key) && '$' !in value && IsUpdate("", map[key := value], file)
    ensures Get(Loaded(map[], file, expand), key) == value <==>
            && NoNewline(value) && '\0' !in value && Trimmed(value) && Unquoted(value)
            && |key| + 1 + |value| < 65_536
  {
    var i, j := TrimQuotesTakesQuotes(value);
    OnlyOneFile(key, value, file);
    if NoNewline(value) {
      OneLineLoaded(key, value, expand);
      TrimSpaceTakesAway(value, '\0');
      TrimQuotesTakesAway(TrimSpace(value), '\0');
      TrimSpaceIsTrimmed(value);
      hide TrimSpace, TrimQuotes, Updated, Loaded, Trimmed, NoNewline;
    } else {
      NewlineLost(key, value, expand);
    }
  }

  lemma OnlyOneFile(key: string, value: string, file: string)
    requires IsUpdate("", map[key := value], file)
    ensures file == Updated("", map[key := value], [key])
  {
    var vars := map[key := value];
    NothingToRewrite(vars);
    hide TrimSpace, Lines, Updated, KeysOf;
    var added :| Lacking("", vars, added) && file == Updated("", vars, added);
    assert key in vars && key !in KeysOf(Lines(TrimSpace("")));
    OnlyOne(added, key);
  }

  lemma OnlyOne(added: seq<string>, key: string)
    requires NoRepeats(added) && forall k :: k in added <==> k == key
    ensures added == [key]
  {
    assert key in added && added[0] in added;
    FirstIsMember(added[1..]);
    assert forall k :: k in added[1..] ==> k in added;
    assert added[0] !in added[1..];
  }
}
