/** The `.env` file: loading it into the environment (internal/env/load.go) and rewriting it with new values
    (internal/env/save.go:60-97).

    Expanding references to other variables is a parameter; all that is used of it is that text without a
    dollar sign stays as it is. */
module EnvFile {
  import opened Sequences
  import opened Text

  type Env = map<string, string>
  type Expand = (string, Env) -> string

  ghost predicate KeepsPlainText(expand: Expand) { forall s, env :: '$' !in s ==> expand(s, env) == s }

  /** An unset variable reads as the empty string. */
  function Get(env: Env, key: string): string { if key in env then env[key] else "" }

  /** `os.Setenv`, whose error is ignored: a name that the system refuses is not set. */
  function SetEnv(env: Env, key: string, value: string): Env {
    if key == "" || '=' in key || '\0' in key || '\0' in value then env else env[key := value]
  }

  /** `strings.Trim(s, "\"")`. */
  function TrimQuotes(s: string): string {
    if s != "" && s[0] == '"' then TrimQuotes(s[1..])
    else if s != "" && s[|s| - 1] == '"' then TrimQuotes(s[..|s| - 1])
    else s
  }

  lemma {:induction false} TrimQuotesTakesAway(s: string, c: char)
    ensures |TrimQuotes(s)| <= |s|
    ensures |TrimQuotes(s)| == |s| ==> TrimQuotes(s) == s
    ensures c !in s ==> c !in TrimQuotes(s)
  {
    if s != "" && s[0] == '"' {
      TrimQuotesTakesAway(s[1..], c);
    } else if s != "" && s[|s| - 1] == '"' {
      TrimQuotesTakesAway(s[..|s| - 1], c);
    }
  }

  /** No quote at either end. */
  predicate Unquoted(s: string) { s != "" ==> s[0] != '"' && s[|s| - 1] != '"' }

  lemma SliceOfTail(s: string, i: nat, j: nat)
    requires i <= j < |s|
    ensures s[1..][i..j] == s[i + 1..j + 1]
  {
  }

  lemma SliceOfFront(s: string, i: nat, j: nat)
    requires i <= j < |s|
    ensures s[..|s| - 1][i..j] == s[i..j]
  {
  }

  /** What is taken away at the ends are quotes, and all of them; so only unquoted text stays as it is. */
  lemma {:induction false} TrimQuotesTakesQuotes(s: string) returns (i: nat, j: nat)
    ensures i <= j <= |s| && s[i..j] == TrimQuotes(s)
    ensures forall k :: 0 <= k < |s| && !(i <= k < j) ==> s[k] == '"'
    ensures Unquoted(TrimQuotes(s))
    ensures TrimQuotes(s) == s <==> Unquoted(s)
    decreases |s|
  {
    if s != "" && s[0] == '"' {
      i, j := TrimQuotesTakesQuotes(s[1..]);
      SliceOfTail(s, i, j);
      i, j := i + 1, j + 1;
    } else if s != "" && s[|s| - 1] == '"' {
      i, j := TrimQuotesTakesQuotes(s[..|s| - 1]);
      SliceOfFront(s, i, j);
    } else {
      i, j := 0, |s|;
      assert s[i..j] == s;
    }
  }

  // ---------- loading ----------

  predicate Ignore(line: string) { TrimSpace(line) == "" || HasPrefix(TrimSpace(line), "#") }

  /** What one line does to the environment: a variable that has a value keeps it. */
  function LoadLine(env: Env, line: string, expand: Expand): Env {
    if Ignore(line) then env
    else
      match CutAtEquals(line)
      case NotFound => env
      case Found(key, value) =>
        if Get(env, TrimSpace(key)) != "" then env
        else SetEnv(env, TrimSpace(key), expand(TrimQuotes(TrimSpace(value)), env))
  }

  function DropReturn(line: string): string {
    if line != "" && line[|line| - 1] == '\r' then line[..|line| - 1] else line
  }

  /** The longest line, with its end, that fits into the scanner's buffer. */
  const MAX_LINE := 65_536

  /** How many lines the scanner reads: it gives up at the first one that does not fit. */
  function Readable(lines: seq<string>): (n: nat)
    ensures n <= |lines| && forall i :: 0 <= i < n ==> |lines[i]| < MAX_LINE
    ensures n < |lines| ==> |lines[n]| >= MAX_LINE
  {
    if |lines| == 0 || |lines[0]| >= MAX_LINE then 0 else 1 + Readable(lines[1..])
  }

  /** The lines of a text for the scanner: an empty last line is none. */
  function FullLines(content: string): seq<string> {
    var lines := Lines(content);
    if lines[|lines| - 1] == "" then lines[..|lines| - 1] else lines
  }

  function DropReturns(lines: seq<string>): seq<string> {
    seq(|lines|, i requires 0 <= i < |lines| => DropReturn(lines[i]))
  }

  /** The lines the scanner returns: those it reads, without a carriage return at the end. */
  function ScannedLines(content: string): seq<string> {
    DropReturns(FullLines(content)[..Readable(FullLines(content))])
  }

  function LoadLines(env: Env, lines: seq<string>, expand: Expand): Env {
    if |lines| == 0 then env
    else LoadLine(LoadLines(env, lines[..|lines| - 1], expand), lines[|lines| - 1], expand)
  }

  function Loaded(env: Env, content: string, expand: Expand): Env { LoadLines(env, ScannedLines(content), expand) }

  class Process {
    var env: Env

    constructor (env: Env)
      ensures this.env == env
    {
      this.env := env;
    }

    /** The variables are set line by line; it fails exactly if a line does not fit, and then stops there. */
    method Load(content: string, expand: Expand) returns (ok: bool)
      modifies this
      ensures env == Loaded(old(env), content, expand)
      ensures ok <==> Readable(FullLines(content)) == |FullLines(content)|
    {
      var lines := FullLines(content);
      LoadedIsFirst(env, content, expand);
      LoadNone(env, lines, expand);
      hide FullLines, DropReturns, DropReturn, ScannedLines, LoadLines, LoadFirst, Loaded;
      hide Ignore, TrimSpace, TrimQuotes, CutAtEquals, SetEnv;
      for i := 0 to |lines|
        invariant i <= Readable(lines)
        invariant env == LoadFirst(old(env), lines, i, expand)
      {
        LoadNext(old(env), lines, i, expand);
        if |lines[i]| >= MAX_LINE {
          return false;
        }
        var line := DropReturn(lines[i]);
        if Ignore(line) {
          continue;
        }
        var cut := CutAtEquals(line);
        if cut.NotFound? {
          continue;
        }
        var k := TrimSpace(cut.before);
        if Get(env, k) != "" {
          continue;
        }
        env := SetEnv(env, k, expand(TrimQuotes(TrimSpace(cut.after)), env));
      }
      ok := true;
    }
  }

  /** The environment after the first lines have been read. */
  function LoadFirst(env: Env, lines: seq<string>, i: nat, expand: Expand): Env
    requires i <= |lines|
  {
    LoadLines(env, DropReturns(lines[..i]), expand)
  }

  lemma LoadedIsFirst(env: Env, content: string, expand: Expand)
    ensures Loaded(env, content, expand) == LoadFirst(env, FullLines(content), Readable(FullLines(content)), expand)
  {
  }

  lemma LoadNone(env: Env, lines: seq<string>, expand: Expand)
    ensures LoadFirst(env, lines, 0, expand) == env
  {
  }

  lemma LoadNext(env: Env, lines: seq<string>, i: nat, expand: Expand)
    requires i < |lines|
    ensures LoadFirst(env, lines, i + 1, expand) ==
            LoadLine(LoadFirst(env, lines, i, expand), DropReturn(lines[i]), expand)
  {
    hide LoadLine;
    var all := DropReturns(lines[..i + 1]);
    assert all[..|all| - 1] == DropReturns(lines[..i]);
  }

  // ---------- rewriting ----------

  /** A line that assigns a variable is written anew, with the new value if there is one. */
  function Rewrite(line: string, vars: Env): string {
    match CutAtEquals(line)
    case NotFound => line
    case Found(key, value) =>
      TrimSpace(key) + "=" + if TrimSpace(key) in vars then vars[TrimSpace(key)] else TrimSpace(value)
  }

  function RewriteAll(lines: seq<string>, vars: Env): seq<string> {
    if |lines| == 0 then [] else RewriteAll(lines[..|lines| - 1], vars) + [Rewrite(lines[|lines| - 1], vars)]
  }

  /** The keys of the lines that have a '='. */
  function KeysOf(lines: seq<string>): set<string> {
    set line | line in lines && CutAtEquals(line).Found? :: TrimSpace(CutAtEquals(line).before)
  }

  function NewLines(keys: seq<string>, vars: Env): seq<string>
    requires forall k :: k in keys ==> k in vars
  {
    if |keys| == 0 then [] else NewLines(keys[..|keys| - 1], vars) + [keys[|keys| - 1] + "=" + vars[keys[|keys| - 1]]]
  }

  /** The rewritten file, with the given order of the keys it lacked. */
  function Updated(content: string, vars: Env, added: seq<string>): string
    requires forall k :: k in added ==> k in vars
  {
    Terminated(RewriteAll(Lines(TrimSpace(content)), vars) + NewLines(added, vars))
  }

  /** The keys without a line, each once, in any order. */
  ghost predicate Lacking(content: string, vars: Env, added: seq<string>) {
    NoRepeats(added) && forall k :: k in added <==> k in vars && k !in KeysOf(Lines(TrimSpace(content)))
  }

  /** A file that `update` may write: the lines for new keys may come in any order. */
  ghost predicate IsUpdate(content: string, vars: Env, file: string) {
    exists added :: Lacking(content, vars, added) && file == Updated(content, vars, added)
  }

  function KeyOf(line: string): set<string> {
    match CutAtEquals(line) case NotFound => {} case Found(key, value) => {TrimSpace(key)}
  }

  lemma KeysOfSnoc(lines: seq<string>, i: nat)
    requires i < |lines|
    ensures KeysOf(lines[..i + 1]) == KeysOf(lines[..i]) + KeyOf(lines[i])
  {
    assert lines[..i + 1] == lines[..i] + [lines[i]];
  }

  lemma RewriteAllSnoc(lines: seq<string>, vars: Env, i: nat)
    requires i < |lines|
    ensures Terminated(RewriteAll(lines[..i + 1], vars)) ==
            Terminated(RewriteAll(lines[..i], vars)) + Rewrite(lines[i], vars) + "\n"
  {
    assert lines[..i + 1][..i] == lines[..i];
    TerminatedSnoc(RewriteAll(lines[..i], vars), Rewrite(lines[i], vars));
  }

  /** The loop of `update` over the lines of the file. */
  method RewriteLines(lines: seq<string>, vars: Env) returns (file: string, updated: set<string>)
    ensures file == Terminated(RewriteAll(lines, vars)) && updated == KeysOf(lines)
  {
    file, updated := "", {};
    for i := 0 to |lines|
      invariant file == Terminated(RewriteAll(lines[..i], vars))
      invariant updated == KeysOf(lines[..i])
    {
      hide Terminated, KeysOf, CutAtEquals, TrimSpace;
      RewriteAllSnoc(lines, vars, i);
      KeysOfSnoc(lines, i);
      var cut := CutAtEquals(lines[i]);
      if cut.NotFound? {
        file := file + lines[i] + "\n";
        continue;
      }
      var key, value := TrimSpace(cut.before), TrimSpace(cut.after);
      if key in vars {
        value := vars[key];
      }
      assert key + "=" + value == Rewrite(lines[i], vars);
      file := file + (key + "=" + value) + "\n";
      updated := updated + {key};
    }
    assert lines[..|lines|] == lines;
  }

  lemma NewLinesSnoc(first: seq<string>, keys: seq<string>, vars: Env, key: string)
    requires key in vars && forall k :: k in keys ==> k in vars
    ensures Terminated(first + NewLines(keys + [key], vars)) ==
            Terminated(first + NewLines(keys, vars)) + (key + "=" + vars[key]) + "\n"
  {
    assert (keys + [key])[..|keys|] == keys;
    assert first + NewLines(keys + [key], vars) == (first + NewLines(keys, vars)) + [key + "=" + vars[key]];
    TerminatedSnoc(first + NewLines(keys, vars), key + "=" + vars[key]);
  }

  /** The lines for the keys that are not marked, each once, in any order. */
  ghost predicate NewKeys(vars: Env, updated: set<string>, added: seq<string>) {
    NoRepeats(added) && forall k :: k in added <==> k in vars && k !in updated
  }

  ghost predicate IsAppended(first: seq<string>, vars: Env, updated: set<string>, file: string) {
    exists added :: NewKeys(vars, updated, added) && file == Terminated(first + NewLines(added, vars))
  }

  /** The loop of `update` over the new values, in any order. */
  method AppendNew(start: string, vars: Env, updated: set<string>, ghost first: seq<string>) returns (file: string)
    requires start == Terminated(first)
    ensures IsAppended(first, vars, updated, file)
  {
    file := start;
    ghost var added: seq<string> := [];
    var left := vars.Keys;
    assert first + NewLines(added, vars) == first;
    while left != {}
      invariant left <= vars.Keys && NoRepeats(added)
      invariant forall k :: k in added <==> k in vars && k !in left && k !in updated
      invariant file == Terminated(first + NewLines(added, vars))
      decreases left
    {
      hide Terminated, NewLines;
      var key :| key in left;
      left := left - {key};
      if key in updated {
        continue;
      }
      NewLinesSnoc(first, added, vars, key);
      file := file + (key + "=" + vars[key]) + "\n";
      added := added + [key];
    }
    assert NewKeys(vars, updated, added);
  }

  /** `update`: what is written to the file. */
  method Update(content: string, vars: Env) returns (file: string)
    ensures IsUpdate(content, vars, file)
  {
    hide Terminated, TrimSpace, Lines;
    var lines := Lines(TrimSpace(content));
    var updated;
    file, updated := RewriteLines(lines, vars);
    file := AppendNew(file, vars, updated, RewriteAll(lines, vars));
    ghost var added :|
      NewKeys(vars, updated, added) && file == Terminated(RewriteAll(lines, vars) + NewLines(added, vars));
    assert Lacking(content, vars, added) && file == Updated(content, vars, added);
  }
}
