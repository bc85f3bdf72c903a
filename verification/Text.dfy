/** The string operations QuickFeed takes from Go's `strings` package.

    A string is the sequence of its bytes, one `char` per byte, so that lengths and slices mean
    what they mean in Go. Line splitting, joining, cutting and trimming are defined here once and
    related by the lemmas the other modules build on. */
module Text {

  // ---------- lines ----------

  /** `strings.Split(s, "\n")`: always at least one line. */
  function Lines(s: string): (lines: seq<string>)
    ensures |lines| >= 1
  {
    if s == "" then [""] else Push(s[0], Lines(s[1..]))
  }

  /** The lines of a text with `c` put in front of it. */
  function Push(c: char, lines: seq<string>): (r: seq<string>)
    requires |lines| >= 1
    ensures |r| >= 1
  {
    if c == '\n' then [""] + lines else [[c] + lines[0]] + lines[1..]
  }

  lemma PushConcat(c: char, a: seq<string>, b: seq<string>)
    requires |a| >= 1
    ensures Push(c, a + b) == Push(c, a) + b
  {
    assert (a + b)[1..] == a[1..] + b;
  }

  /** `strings.Join(lines, "\n")`. */
  function Join(lines: seq<string>): string {
    if |lines| == 0 then ""
    else if |lines| == 1 then lines[0]
    else lines[0] + ("\n" + Join(lines[1..]))
  }

  predicate NoNewline(s: string) { '\n' !in s }

  /** Splitting at a known newline splits the text into two independent halves. */
  lemma {:induction false} LinesOfConcat(a: string, b: string)
    ensures Lines(a + ("\n" + b)) == Lines(a) + Lines(b)
  {
    hide Push;
    var whole := a + ("\n" + b);
    if a == "" {
      assert whole[1..] == b;
      PushNewline(Lines(b));
    } else {
      LinesOfConcat(a[1..], b);
      assert whole[0] == a[0] && whole[1..] == a[1..] + ("\n" + b);
      PushConcat(a[0], Lines(a[1..]), Lines(b));
    }
  }

  lemma PushNewline(lines: seq<string>)
    requires |lines| >= 1
    ensures Push('\n', lines) == [""] + lines
  {
  }

  lemma {:induction false} LinesOfOneLine(s: string)
    requires NoNewline(s)
    ensures Lines(s) == [s]
  {
    if s != "" {
      LinesOfOneLine(s[1..]);
      assert [s[0]] + s[1..] == s;
    }
  }

  lemma {:induction false} LinesHaveNoNewline(s: string)
    ensures forall line :: line in Lines(s) ==> NoNewline(line)
  {
    if s != "" {
      LinesHaveNoNewline(s[1..]);
      assert Lines(s[1..])[0] in Lines(s[1..]);
    }
  }

  /** Joining what was split gives the text back, and splitting what was joined gives the lines
      back: splitting and joining at newlines are inverse to each other. */
  lemma {:induction false} JoinOfLines(s: string)
    ensures Join(Lines(s)) == s
  {
    if s != "" {
      JoinOfLines(s[1..]);
      var rest := Lines(s[1..]);
      if s[0] == '\n' {
        assert Lines(s)[1..] == rest;
        assert s == "" + ("\n" + s[1..]);
      } else {
        assert Lines(s)[1..] == rest[1..];
        assert s == [s[0]] + s[1..];
      }
    }
  }

  lemma {:induction false} LinesOfJoin(lines: seq<string>)
    requires |lines| > 0 && forall line :: line in lines ==> NoNewline(line)
    ensures Lines(Join(lines)) == lines
  {
    LinesOfOneLine(lines[0]);
    if |lines| > 1 {
      LinesOfJoin(lines[1..]);
      LinesOfConcat(lines[0], Join(lines[1..]));
      assert lines == [lines[0]] + lines[1..];
    }
  }

  /** `strings.LastIndex(s, "\n")`: -1 when there is no newline. */
  function LastNewline(s: string): (i: int)
    ensures -1 <= i < |s|
    ensures i >= 0 ==> s[i] == '\n'
    ensures forall k :: i < k < |s| ==> s[k] != '\n'
  {
    if s == "" then -1
    else if s[|s| - 1] == '\n' then |s| - 1
    else LastNewline(s[..|s| - 1])
  }

  // ---------- prefixes, substrings and cutting ----------

  predicate HasPrefix(s: string, prefix: string) { prefix <= s }

  predicate Contains(s: string, sub: string) {
    HasPrefix(s, sub) || (s != "" && Contains(s[1..], sub))
  }

  /** The text `sub` stands in `s` at position `i`. */
  predicate OccursAt(s: string, sub: string, i: nat) { i + |sub| <= |s| && s[i..i + |sub|] == sub }

  lemma {:induction false} ContainsExactlyWhen(s: string, sub: string)
    ensures Contains(s, sub) <==> exists i: nat :: OccursAt(s, sub, i)
  {
    if s != "" {
      ContainsExactlyWhen(s[1..], sub);
      assert OccursAt(s, sub, 0) <==> sub <= s;
      forall i: nat ensures OccursAt(s[1..], sub, i) <==> OccursAt(s, sub, i + 1) {
        if i + 1 + |sub| <= |s| {
          assert s[1..][i..i + |sub|] == s[i + 1..i + 1 + |sub|];
        }
      }
      if i: nat :| OccursAt(s, sub, i) {
        assert i > 0 ==> OccursAt(s[1..], sub, i - 1);
      }
    } else {
      assert OccursAt(s, sub, 0) <==> sub == "";
    }
  }

  datatype Cut = NotFound | Found(before: string, after: string)

  /** `strings.Cut(line, "=")`: split around the first '='. */
  function CutAtEquals(s: string): (c: Cut)
    ensures c.Found? ==> s == c.before + "=" + c.after && '=' !in c.before
    ensures c.NotFound? ==> '=' !in s
  {
    if s == "" then NotFound
    else if s[0] == '=' then Found("", s[1..])
    else match CutAtEquals(s[1..])
      case NotFound => NotFound
      case Found(before, after) => Found([s[0]] + before, after)
  }

  /** The first '=' is the only place a cut can happen. */
  lemma {:induction false} CutIsUnique(before: string, after: string)
    requires '=' !in before
    ensures CutAtEquals(before + "=" + after) == Found(before, after)
  {
    var s := before + "=" + after;
    if before == "" {
      assert s[1..] == after;
    } else {
      assert s[1..] == before[1..] + "=" + after;
      CutIsUnique(before[1..], after);
    }
  }

  // ---------- white space ----------

  /** The UTF-8 encodings of the characters `unicode.IsSpace` accepts. */
  predicate IsSpace(e: string) {
    || (|e| == 1 && e[0] in " \t\n\r\U{B}\U{C}")
    || (|e| == 2 && e[0] == '\U{C2}' && e[1] in "\U{85}\U{A0}")
    || (|e| == 3 && e[0] == '\U{E1}' && e[1] == '\U{9A}' && e[2] == '\U{80}')
    || (|e| == 3 && e[0] == '\U{E2}' && e[1] == '\U{80}' &&
        ('\U{80}' <= e[2] <= '\U{8A}' || e[2] in "\U{A8}\U{A9}\U{AF}"))
    || (|e| == 3 && e[0] == '\U{E2}' && e[1] == '\U{81}' && e[2] == '\U{9F}')
    || (|e| == 3 && e[0] == '\U{E3}' && e[1] == '\U{80}' && e[2] == '\U{80}')
  }

  /** The UTF-8 encoding of a code point of at most 16 bits. */
  function Utf8(c: nat): string
    requires c < 0x1_0000
  {
    if c < 0x80 then [c as char]
    else if c < 0x800 then [(0xC0 + c / 0x40) as char, (0x80 + c % 0x40) as char]
    else [(0xE0 + c / 0x1000) as char, (0x80 + c / 0x40 % 0x40) as char, (0x80 + c % 0x40) as char]
  }

  /** The code points with the property White_Space. */
  predicate IsWhite(c: nat) {
    || 9 <= c <= 13 || c == 0x20 || c == 0x85 || c == 0xA0 || c == 0x1680 || 0x2000 <= c <= 0x200A
    || c == 0x2028 || c == 0x2029 || c == 0x202F || c == 0x205F || c == 0x3000
  }

  lemma WhiteIsSpace(c: nat)
    requires IsWhite(c)
    ensures IsSpace(Utf8(c))
  {
    var e := Utf8(c);
    if 0x2000 <= c <= 0x200A {
      assert c / 0x1000 == 2 && c / 0x40 % 0x40 == 0 && c % 0x40 == c - 0x2000;
      assert e == ['\U{E2}', '\U{80}', (0x80 + (c - 0x2000)) as char];
    } else if c < 0x80 {
      assert e == [c as char];
    } else if c < 0x800 {
      assert e == ['\U{C2}', c as char];
    } else {
      assert e[0] == if c == 0x1680 then '\U{E1}' else if c == 0x3000 then '\U{E3}' else '\U{E2}';
    }
  }

  /** The code point that these bytes encode. */
  lemma SpaceIsWhite(e: string) returns (c: nat)
    requires IsSpace(e)
    ensures IsWhite(c) && e == Utf8(c)
  {
    if |e| == 1 {
      c := e[0] as int;
    } else if |e| == 2 {
      c := e[1] as int;
    } else if e[0] == '\U{E2}' {
      c := 0x2000 + (if e[1] == '\U{80}' then 0 else 0x40) + (e[2] as int - 0x80);
      assert c / 0x1000 == 2 && c % 0x40 == e[2] as int - 0x80;
    } else {
      c := if e[0] == '\U{E1}' then 0x1680 else 0x3000;
    }
  }

  /** The spaces are exactly the encodings of the characters with the property White_Space. */
  lemma IsSpaceExactlyWhen(e: string)
    ensures IsSpace(e) <==> exists c :: IsWhite(c) && e == Utf8(c)
  {
    if IsSpace(e) {
      var c := SpaceIsWhite(e);
    }
    hide IsSpace, Utf8;
    if c :| IsWhite(c) && e == Utf8(c) {
      WhiteIsSpace(c);
    }
  }

  /** The number of bytes of the space character that `s` starts with, zero if it starts with none. */
  function LeadingSpace(s: string): (w: nat)
    ensures w <= |s|
  {
    if |s| >= 1 && IsSpace(s[..1]) then 1
    else if |s| >= 2 && IsSpace(s[..2]) then 2
    else if |s| >= 3 && IsSpace(s[..3]) then 3
    else 0
  }

  function TrailingSpace(s: string): (w: nat)
    ensures w <= |s|
  {
    if |s| >= 1 && IsSpace(s[|s| - 1..]) then 1
    else if |s| >= 2 && IsSpace(s[|s| - 2..]) then 2
    else if |s| >= 3 && IsSpace(s[|s| - 3..]) then 3
    else 0
  }

  function TrimLeft(s: string): string
    decreases |s|
  {
    var w := LeadingSpace(s);
    if w == 0 then s else TrimLeft(s[w..])
  }

  function TrimRight(s: string): string
    decreases |s|
  {
    var w := TrailingSpace(s);
    if w == 0 then s else TrimRight(s[..|s| - w])
  }

  /** `strings.TrimSpace`. */
  function TrimSpace(s: string): string { TrimRight(TrimLeft(s)) }

  predicate Trimmed(s: string) { LeadingSpace(s) == 0 && TrailingSpace(s) == 0 }

  lemma LeadingSpaceOfPrefix(s: string, n: nat)
    requires n <= |s| && LeadingSpace(s) == 0
    ensures LeadingSpace(s[..n]) == 0
  {
    hide IsSpace;
    assert forall k :: 0 < k <= n ==> s[..n][..k] == s[..k];
  }

  lemma {:induction false} TrimLeftIsTrimmed(s: string)
    ensures LeadingSpace(TrimLeft(s)) == 0
    decreases |s|
  {
    hide IsSpace, LeadingSpace;
    if LeadingSpace(s) != 0 {
      TrimLeftIsTrimmed(s[LeadingSpace(s)..]);
    }
  }

  lemma {:induction false} TrimRightIsPrefix(s: string)
    ensures TrailingSpace(TrimRight(s)) == 0 && TrimRight(s) <= s
    decreases |s|
  {
    hide IsSpace, TrailingSpace;
    if TrailingSpace(s) != 0 {
      TrimRightIsPrefix(s[..|s| - TrailingSpace(s)]);
    }
  }

  /** Trimming yields a trimmed string, and leaves a trimmed string alone. */
  lemma TrimSpaceIsTrimmed(s: string)
    ensures Trimmed(TrimSpace(s))
    ensures Trimmed(s) ==> TrimSpace(s) == s
  {
    hide IsSpace, LeadingSpace, TrailingSpace;
    var l := TrimLeft(s);
    TrimLeftIsTrimmed(s);
    TrimRightIsPrefix(l);
    LeadingSpaceOfPrefix(l, |TrimRight(l)|);
    assert l[..|TrimRight(l)|] == TrimRight(l);
  }

  /** No encoding of a space goes on with a byte that starts a character. */
  predicate StartsCharacter(s: string) { s == "" || s[0] < '\U{80}' || s[0] >= '\U{C0}' }

  /** Text that follows a character does not change whether the character is a space. */
  lemma LeadingSpaceOfConcat(a: string, b: string)
    requires a != "" && StartsCharacter(b)
    ensures LeadingSpace(a + b) == LeadingSpace(a)
  {
    assert forall k :: 0 <= k <= |a| ==> (a + b)[..k] == a[..k];
    if |a| == 1 && b != "" {
      assert (a + b)[..2] == [a[0], b[0]];
    }
  }

  lemma SpaceOnItsOwn(e: string, a: string)
    requires IsSpace(e)
    ensures StartsCharacter(e) && LeadingSpace(e) == |e| && TrailingSpace(a + e) == |e|
  {
    var s := a + e;
    assert e[..|e|] == e && e[..1] == [e[0]] && s[|s| - |e|..] == e && s[|s| - 1..] == [e[|e| - 1]];
    if |e| == 3 {
      assert e[..2] == [e[0], e[1]] && s[|s| - 2..] == [e[1], e[2]];
    }
  }

  lemma SpaceInFront(e: string, a: string)
    requires IsSpace(e)
    ensures LeadingSpace(e + a) == |e|
  {
    var s := e + a;
    assert s[..|e|] == e && s[..1] == [e[0]];
    if |e| == 3 {
      assert s[..2] == [e[0], e[1]];
    }
  }

  /** A space at the start makes no difference to the trimmed text. */
  lemma TrimSpaceAtStart(e: string, s: string)
    requires IsSpace(e)
    ensures TrimSpace(e + s) == TrimSpace(s)
  {
    SpaceInFront(e, s);
    assert (e + s)[|e|..] == s;
  }

  /** Text that does not start with a space is not a space. */
  lemma NotOneSpace(s: string)
    requires s != "" && LeadingSpace(s) == 0
    ensures TrailingSpace(s) < |s|
  {
    assert s[|s| - |s|..] == s;
    if IsSpace(s) {
      SpaceOnItsOwn(s, "");
    }
  }

  lemma {:induction false} TrimLeftOfConcat(a: string, b: string)
    requires StartsCharacter(b)
    ensures TrimLeft(a + b) == if TrimLeft(a) == "" then TrimLeft(b) else TrimLeft(a) + b
    decreases |a|
  {
    hide IsSpace, LeadingSpace;
    if a == "" {
      assert a + b == b;
      assert TrimLeft(a) == "";
    } else {
      LeadingSpaceOfConcat(a, b);
      var w := LeadingSpace(a);
      if w > 0 {
        TrimLeftOfConcat(a[w..], b);
        assert (a + b)[w..] == a[w..] + b;
      }
    }
  }

  /** A space at the end makes no difference to the trimmed text. */
  lemma TrimSpaceAtEnd(s: string, e: string)
    requires IsSpace(e)
    ensures TrimSpace(s + e) == TrimSpace(s)
  {
    SpaceOnItsOwn(e, TrimLeft(s));
    TrimLeftOfConcat(s, e);
    hide IsSpace, LeadingSpace, TrailingSpace;
    assert e[|e|..] == "";
    assert (TrimLeft(s) + e)[..|TrimLeft(s)|] == TrimLeft(s);
  }

  /** Text that does not start with a space keeps its first byte. */
  lemma {:induction false} TrimRightKeepsFirst(s: string)
    requires s != "" && LeadingSpace(s) == 0
    ensures TrimRight(s) != "" && TrimRight(s)[0] == s[0]
    decreases |s|
  {
    hide IsSpace, LeadingSpace, TrailingSpace;
    var w := TrailingSpace(s);
    if w != 0 {
      NotOneSpace(s);
      LeadingSpaceOfPrefix(s, |s| - w);
      TrimRightKeepsFirst(s[..|s| - w]);
    }
  }

  /** Trimming only takes away. */
  lemma {:induction false} TrimLeftIsSuffix(s: string)
    ensures |TrimLeft(s)| <= |s| && TrimLeft(s) == s[|s| - |TrimLeft(s)|..]
    decreases |s|
  {
    hide IsSpace, LeadingSpace;
    if LeadingSpace(s) != 0 {
      TrimLeftIsSuffix(s[LeadingSpace(s)..]);
    }
  }

  lemma TrimSpaceTakesAway(s: string, c: char)
    ensures |TrimSpace(s)| <= |s|
    ensures c !in s ==> c !in TrimSpace(s)
    ensures |TrimSpace(s)| == |s| ==> TrimSpace(s) == s
  {
    hide IsSpace, LeadingSpace, TrailingSpace, TrimLeft, TrimRight;
    TrimLeftIsSuffix(s);
    TrimRightIsPrefix(TrimLeft(s));
  }

  /** What trimming takes away at the end does not reach into text that ends in a byte no space has. */
  lemma {:induction false} TrimRightKeepsPrefix(s: string, p: string)
    requires p != "" && p <= s && p[|p| - 1] == ':'
    ensures p <= TrimRight(s)
    decreases |s|
  {
    var w := TrailingSpace(s);
    if w != 0 {
      assert forall k :: |s| - w <= k < |s| ==> s[k] == s[|s| - w..][k - (|s| - w)];
      NoColonInSpace(s[|s| - w..]);
      hide IsSpace, TrailingSpace;
      TrimRightKeepsPrefix(s[..|s| - w], p);
    }
  }

  lemma NoColonInSpace(e: string)
    requires IsSpace(e)
    ensures ':' !in e
  {
  }

  // ---------- lines of a text with something in front or behind ----------

  lemma {:induction false} LinesWithPrefix(a: string, s: string)
    requires NoNewline(a)
    ensures Lines(a + s) == [a + Lines(s)[0]] + Lines(s)[1..]
  {
    if a == "" {
      assert a + s == s && "" + Lines(s)[0] == Lines(s)[0];
    } else {
      LinesWithPrefix(a[1..], s);
      assert (a + s)[0] == a[0] && (a + s)[1..] == a[1..] + s;
      hide Lines;
      assert [a[0]] + (a[1..] + Lines(s)[0]) == a + Lines(s)[0];
    }
  }

  function Suffixed(lines: seq<string>, a: string): seq<string>
    requires |lines| >= 1
  {
    lines[..|lines| - 1] + [lines[|lines| - 1] + a]
  }

  lemma PushSuffixed(c: char, lines: seq<string>, a: string)
    requires |lines| >= 1
    ensures Push(c, Suffixed(lines, a)) == Suffixed(Push(c, lines), a)
  {
    if |lines| == 1 && c != '\n' {
      assert [c] + (lines[0] + a) == ([c] + lines[0]) + a;
    }
  }

  lemma {:induction false} LinesWithSuffix(s: string, a: string)
    requires NoNewline(a)
    ensures Lines(s + a) == Suffixed(Lines(s), a)
  {
    if s == "" {
      assert s + a == a && "" + a == a;
      LinesOfOneLine(a);
    } else {
      LinesWithSuffix(s[1..], a);
      assert (s + a)[0] == s[0] && (s + a)[1..] == s[1..] + a;
      PushSuffixed(s[0], Lines(s[1..]), a);
      hide Push, Suffixed;
    }
  }

  /** The text of lines each ended by a newline. */
  function Terminated(lines: seq<string>): string {
    if |lines| == 0 then "" else lines[0] + ("\n" + Terminated(lines[1..]))
  }

  lemma {:induction false} LinesOfTerminated(lines: seq<string>)
    requires forall line :: line in lines ==> NoNewline(line)
    ensures Lines(Terminated(lines)) == lines + [""]
  {
    if |lines| > 0 {
      LinesOfTerminated(lines[1..]);
      LinesOfOneLine(lines[0]);
      LinesOfConcat(lines[0], Terminated(lines[1..]));
      assert lines + [""] == [lines[0]] + (lines[1..] + [""]);
    }
  }

  /** The step of a loop that prints lines. */
  lemma {:induction false} TerminatedSnoc(lines: seq<string>, line: string)
    ensures Terminated(lines + [line]) == Terminated(lines) + line + "\n"
  {
    if |lines| > 0 {
      TerminatedSnoc(lines[1..], line);
      assert (lines + [line])[1..] == lines[1..] + [line];
    }
  }
}
