/** Restoring operator values in an environment file that a package upgrade overwrote:
    a line parser, a trigger, and a line-by-line merge. */
module OperatorEnv {
  import opened Rows

  // ----- lines -----

  /** The characters str.splitlines breaks at. */
  predicate IsBreak(c: char) {
    c in {'\n', '\r', '\U{0B}', '\U{0C}', '\U{1C}', '\U{1D}', '\U{1E}', '\U{85}', '\U{2028}', '\U{2029}'}
  }

  predicate NoBreak(line: string) {
    forall i | 0 <= i < |line| :: !IsBreak(line[i])
  }

  predicate NoBreaks(lines: seq<string>) {
    forall i | 0 <= i < |lines| :: NoBreak(lines[i])
  }

  /** Where the first line ends. */
  function LineEnd(text: string): (n: nat)
    ensures n <= |text| && NoBreak(text[..n]) && (n < |text| ==> IsBreak(text[n]))
  {
    if text == "" || IsBreak(text[0]) then 0
    else
      assert forall i | 1 <= i <= |text| :: text[..i] == [text[0]] + text[1..][..i - 1];
      1 + LineEnd(text[1..])
  }

  /** A carriage return and a newline after it are one break. */
  function AfterBreak(text: string, n: nat): (rest: string)
    requires n < |text|
    ensures |rest| < |text|
  {
    if text[n] == '\r' && n + 1 < |text| && text[n + 1] == '\n' then text[n + 2..] else text[n + 1..]
  }

  /** str.splitlines. */
  function SplitLines(text: string): seq<string>
    decreases |text|
  {
    if text == "" then []
    else
      var n := LineEnd(text);
      if n == |text| then [text] else [text[..n]] + SplitLines(AfterBreak(text, n))
  }

  /** "\n".join. */
  function Join(lines: seq<string>): string {
    if lines == [] then ""
    else if |lines| == 1 then lines[0]
    else lines[0] + "\n" + Join(lines[1..])
  }

  function Suffix(text: string): string {
    if text != "" && text[|text| - 1] == '\n' then "\n" else ""
  }

  lemma {:induction false} SplitLinesHaveNoBreaks(text: string)
    ensures NoBreaks(SplitLines(text))
    decreases |text|
  {
    if text != "" {
      var n := LineEnd(text);
      if n < |text| {
        SplitLinesHaveNoBreaks(AfterBreak(text, n));
      } else {
        assert text[..n] == text;
      }
    }
  }

  lemma {:induction false} LineEndIs(line: string, rest: string)
    requires NoBreak(line) && (rest == "" || IsBreak(rest[0]))
    ensures LineEnd(line + rest) == |line|
  {
    if line == "" {
      assert line + rest == rest;
    } else {
      assert (line + rest)[1..] == line[1..] + rest;
      LineEndIs(line[1..], rest);
    }
  }

  lemma SplitFirst(line: string, rest: string)
    requires NoBreak(line)
    ensures SplitLines(line + "\n" + rest) == [line] + SplitLines(rest)
    ensures SplitLines(line) == if line == "" then [] else [line]
  {
    var text := line + "\n" + rest;
    assert text == line + ("\n" + rest);
    LineEndIs(line, "\n" + rest);
    assert text[..|line|] == line && AfterBreak(text, |line|) == rest;
    LineEndIs(line, "");
    assert line + "" == line;
  }

  function DropLastEmpty(lines: seq<string>): seq<string> {
    if lines != [] && lines[|lines| - 1] == "" then lines[..|lines| - 1] else lines
  }

  /** Splitting a join gives the lines back, but for a last line that is empty. */
  lemma {:induction false} SplitOfJoin(lines: seq<string>)
    requires NoBreaks(lines) && lines != []
    ensures SplitLines(Join(lines) + "\n") == lines
    ensures SplitLines(Join(lines)) == DropLastEmpty(lines)
  {
    if |lines| == 1 {
      SplitFirst(lines[0], "");
      assert lines[0] + "\n" + "" == Join(lines) + "\n";
      assert [lines[0]] == lines;
    } else {
      SplitOfJoin(lines[1..]);
      SplitTwice(lines[0], Join(lines[1..]));
      DropAfterFirst(lines);
    }
  }

  lemma NewlineMoves(first: string, rest: string)
    ensures first + "\n" + rest + "\n" == first + "\n" + (rest + "\n")
  {
  }

  lemma SplitTwice(first: string, rest: string)
    requires NoBreak(first)
    ensures SplitLines(first + "\n" + rest) == [first] + SplitLines(rest)
    ensures SplitLines(first + "\n" + rest + "\n") == [first] + SplitLines(rest + "\n")
  {
    SplitFirst(first, rest);
    SplitFirst(first, rest + "\n");
    NewlineMoves(first, rest);
  }

  lemma DropAfterFirst(lines: seq<string>)
    requires |lines| > 1
    ensures [lines[0]] + lines[1..] == lines
    ensures [lines[0]] + DropLastEmpty(lines[1..]) == DropLastEmpty(lines)
  {
    assert [lines[0]] + lines[1..][..|lines| - 2] == lines[..|lines| - 1];
  }

  lemma {:induction false} JoinEnds(lines: seq<string>)
    requires NoBreaks(lines) && lines != []
    ensures lines[|lines| - 1] != "" ==> Suffix(Join(lines)) == ""
    ensures lines[|lines| - 1] == "" && |lines| > 1 ==> Join(lines) == Join(lines[..|lines| - 1]) + "\n"
  {
    if |lines| > 1 {
      JoinEnds(lines[1..]);
      assert lines[1..][|lines| - 2] == lines[|lines| - 1];
      assert lines[1..][..|lines| - 2] == lines[..|lines| - 1][1..];
      if |lines| == 2 {
        assert Join(lines[1..]) == lines[1];
      }
    }
  }

  /** A text made by joining lines survives being split and joined again. */
  lemma RejoinIsIdentity(lines: seq<string>, end: string)
    requires NoBreaks(lines) && end in {"", "\n"} && (lines == [] ==> end == "")
    ensures var text := Join(lines) + end; Join(SplitLines(text)) + Suffix(text) == text
  {
    if end == "" {
      RejoinOpen(lines);
      assert Join(lines) + end == Join(lines);
    } else {
      SplitOfJoin(lines);
    }
  }

  lemma RejoinOpen(lines: seq<string>)
    requires NoBreaks(lines)
    ensures Join(SplitLines(Join(lines))) + Suffix(Join(lines)) == Join(lines)
  {
    if lines != [] {
      SplitOfJoin(lines);
      JoinEnds(lines);
      if |lines| == 1 && lines[0] == "" {
        assert DropLastEmpty(lines) == [];
      }
    }
  }

  // ----- whitespace -----

  /** The characters str.strip removes. */
  predicate IsSpace(c: char) {
    || c in {' ', '\t', '\n', '\r', '\U{0B}', '\U{0C}', '\U{1C}', '\U{1D}', '\U{1E}', '\U{1F}', '\U{85}', '\U{A0}',
             '\U{1680}', '\U{2028}', '\U{2029}', '\U{202F}', '\U{205F}', '\U{3000}'}
    || '\U{2000}' <= c <= '\U{200A}'
  }

  function StripLeft(s: string): string {
    if s != "" && IsSpace(s[0]) then StripLeft(s[1..]) else s
  }

  function StripRight(s: string): string {
    if s != "" && IsSpace(s[|s| - 1]) then StripRight(s[..|s| - 1]) else s
  }

  function Strip(s: string): string {
    StripRight(StripLeft(s))
  }

  lemma {:induction false} StripRightFacts(x: string, v: string)
    ensures x != "" && !IsSpace(x[|x| - 1]) ==> StripRight(x + v) == x + StripRight(v)
    ensures StripRight(StripRight(v)) == StripRight(v)
    ensures NoBreak(v) ==> NoBreak(StripRight(v))
    decreases |v|
  {
    if v == "" {
      assert x + v == x;
    } else if IsSpace(v[|v| - 1]) {
      assert (x + v)[..|x + v| - 1] == x + v[..|v| - 1];
      StripRightFacts(x, v[..|v| - 1]);
    }
  }

  lemma {:induction false} StripLeftNoBreak(s: string)
    requires NoBreak(s)
    ensures NoBreak(StripLeft(s))
  {
    if s != "" && IsSpace(s[0]) {
      StripLeftNoBreak(s[1..]);
    }
  }

  // ----- key lines -----

  predicate IsKeyChar(c: char) {
    'A' <= c <= 'Z' || '0' <= c <= '9' || c == '_'
  }

  predicate IsKey(k: string) {
    k != "" && forall i | 0 <= i < |k| :: IsKeyChar(k[i])
  }

  function KeyEnd(line: string): (n: nat)
    ensures n <= |line| && (forall i | 0 <= i < n :: IsKeyChar(line[i]))
    ensures n < |line| ==> !IsKeyChar(line[n])
  {
    if line == "" || !IsKeyChar(line[0]) then 0 else 1 + KeyEnd(line[1..])
  }

  /** KEY_RE.match on a line without breaks. */
  function Match(line: string): (m: Option<(string, string)>)
    ensures m.Some? ==> IsKey(m.value.0) && line == m.value.0 + "=" + m.value.1
  {
    var n := KeyEnd(line);
    if 0 < n < |line| && line[n] == '=' then Some((line[..n], line[n + 1..])) else None
  }

  lemma MatchOfKeyLine(k: string, v: string)
    requires IsKey(k)
    ensures Match(k + "=" + v) == Some((k, v))
  {
    var line := k + "=" + v;
    assert !IsKeyChar(line[|k|]);
    assert KeyEnd(line) == |k|;
    assert line[..|k|] == k && line[|k| + 1..] == v;
  }

  /** The pair a line contributes to the parsed file. */
  function Entry(line: string): Option<(string, string)> {
    Match(Strip(line))
  }

  /** A key line that starts in column one contributes its key, its value stripped on
      the right. */
  lemma EntryOfKeyLine(k: string, v: string)
    requires IsKey(k)
    ensures Entry(k + "=" + v) == Some((k, StripRight(v)))
  {
    var line := k + "=" + v;
    assert IsKeyChar(line[0]) && StripLeft(line) == line;
    StripRightFacts(k + "=", v);
    MatchOfKeyLine(k, StripRight(v));
  }

  predicate ColumnOne(line: string) {
    Match(line).Some?
  }

  /** Apart from those, only an indented key line contributes: one that starts with
      whitespace. */
  lemma EntryMatchesUnlessIndented(line: string)
    requires Entry(line).Some?
    ensures !ColumnOne(line) ==> IsSpace(line[0])
    ensures ColumnOne(line) ==> Match(line).value.0 == Entry(line).value.0
  {
    if !IsSpace(line[0]) {
      var (k, v) := Entry(line).value;
      StripRightIsPrefix(line);
      var rest := line[|Strip(line)|..];
      assert line == k + "=" + (v + rest);
      MatchOfKeyLine(k, v + rest);
    }
    if ColumnOne(line) {
      EntryOfKeyLine(Match(line).value.0, Match(line).value.1);
    }
  }

  lemma {:induction false} StripRightIsPrefix(s: string)
    ensures StripRight(s) <= s
  {
    if s != "" && IsSpace(s[|s| - 1]) {
      StripRightIsPrefix(s[..|s| - 1]);
    }
  }

  // ----- parse_env -----

  type Env = map<string, string>

  function ParseLines(lines: seq<string>): Env {
    if lines == [] then map[]
    else
      var before := ParseLines(lines[..|lines| - 1]);
      match Entry(lines[|lines| - 1])
      case None => before
      case Some((k, v)) => before[k := v]
  }

  function Parse(text: string): Env {
    ParseLines(SplitLines(text))
  }

  /** The last line that speaks for k. */
  function Speaker(lines: seq<string>, k: string): Option<string> {
    if lines == [] then None
    else if Entry(lines[|lines| - 1]).Some? && Entry(lines[|lines| - 1]).value.0 == k
    then Some(lines[|lines| - 1])
    else Speaker(lines[..|lines| - 1], k)
  }

  lemma {:induction false} SpeakerDecides(lines: seq<string>, k: string)
    ensures k in ParseLines(lines) <==> Speaker(lines, k).Some?
    ensures k in ParseLines(lines) ==> Entry(Speaker(lines, k).value) == Some((k, ParseLines(lines)[k]))
  {
    if lines != [] {
      SpeakerDecides(lines[..|lines| - 1], k);
    }
  }

  /** parse_env: the last line that speaks for a key decides its value. */
  method ParseEnv(text: string) returns (values: Env)
    ensures values == Parse(text)
    ensures forall k :: k in values <==> Speaker(SplitLines(text), k).Some?
    ensures forall k | k in values :: Entry(Speaker(SplitLines(text), k).value) == Some((k, values[k]))
  {
    var lines := SplitLines(text);
    values := map[];
    for i := 0 to |lines|
      invariant values == ParseLines(lines[..i])
    {
      assert lines[..i + 1][..i] == lines[..i];
      var entry := Match(Strip(lines[i]));
      if entry.None? {
        continue;
      }
      values := values[entry.value.0 := entry.value.1];
    }
    assert lines[..|lines|] == lines;
    forall k
      ensures k in values <==> Speaker(lines, k).Some?
      ensures k in values ==> Entry(Speaker(lines, k).value) == Some((k, values[k]))
    {
      SpeakerDecides(lines, k);
    }
  }

  /** Parsed values are keyed by keys, end in no whitespace and hold no line break. */
  predicate Parsed(env: Env) {
    forall k | k in env :: IsKey(k) && StripRight(env[k]) == env[k] && NoBreak(env[k])
  }

  lemma EntryIsParsed(line: string)
    requires NoBreak(line) && Entry(line).Some?
    ensures IsKey(Entry(line).value.0) && StripRight(Entry(line).value.1) == Entry(line).value.1
    ensures NoBreak(Entry(line).value.1)
  {
    var (k, v) := Entry(line).value;
    StripLeftNoBreak(line);
    StripRightFacts("=", StripLeft(line));
    StripRightFacts(k + "=", v);
    assert k + "=" + StripRight(v) == k + "=" + v;
    assert (k + "=" + v)[|k| + 1..] == v && (k + "=" + StripRight(v))[|k| + 1..] == StripRight(v);
    assert Strip(line)[|k| + 1..] == v;
  }

  lemma {:induction false} ParseGivesParsed(lines: seq<string>)
    requires NoBreaks(lines)
    ensures Parsed(ParseLines(lines))
  {
    if lines != [] {
      ParseGivesParsed(lines[..|lines| - 1]);
      if Entry(lines[|lines| - 1]).Some? {
        EntryIsParsed(lines[|lines| - 1]);
      }
    }
  }

  // ----- should_restore_operator_env -----

  const ENABLED := "PLANMGR_REGISTRATION_ENABLED"
  const HOST := "PLANMGR_ADVERTISED_HOST"
  const URL := "PLANMGR_REGISTRATION_URL"
  const SIGNAL_KEYS := [ENABLED, HOST, URL, "PLANMGR_PORT", "PLANMGR_EMBEDDING_URL"]
  const KEEP_CURRENT_KEYS := {"PLANMGR_IMAGE_VERSION"}

  function Value(env: Env, k: string): string {
    if k in env then env[k] else ""
  }

  function Lower(c: char): char {
    if 'A' <= c <= 'Z' then (c as int + 32) as char else c
  }

  /** text.lower() == "true". */
  predicate SaysTrue(text: string) {
    |text| == 4 && Lower(text[0]) == 't' && Lower(text[1]) == 'r' && Lower(text[2]) == 'u' && Lower(text[3]) == 'e'
  }

  predicate ShouldRestore(current: Env, previous: Env) {
    && previous != map[]
    && Value(current, ENABLED) == "false" && Value(current, HOST) == "" && Value(current, URL) == ""
    && (SaysTrue(Value(previous, ENABLED))
        || exists i | 0 <= i < |SIGNAL_KEYS| ::
             Value(previous, SIGNAL_KEYS[i]) != "" && Value(previous, SIGNAL_KEYS[i]) != Value(current, SIGNAL_KEYS[i]))
  }

  /** The key is missing or has no value. */
  predicate Blank(env: Env, k: string) {
    k in env ==> env[k] == ""
  }

  /** The key has a value that the other file does not give it. */
  predicate Differs(previous: Env, current: Env, k: string) {
    k in previous && previous[k] != "" && (k in current ==> current[k] != previous[k])
  }

  lemma SignalsIff(current: Env, previous: Env)
    ensures (exists i | 0 <= i < |SIGNAL_KEYS| ::
               Value(previous, SIGNAL_KEYS[i]) != ""
               && Value(previous, SIGNAL_KEYS[i]) != Value(current, SIGNAL_KEYS[i]))
       <==> Differs(previous, current, SIGNAL_KEYS[0]) || Differs(previous, current, SIGNAL_KEYS[1])
            || Differs(previous, current, SIGNAL_KEYS[2]) || Differs(previous, current, SIGNAL_KEYS[3])
            || Differs(previous, current, SIGNAL_KEYS[4])
  {
    assert |SIGNAL_KEYS| == 5;
    forall i | 0 <= i < |SIGNAL_KEYS|
      ensures Differs(previous, current, SIGNAL_KEYS[i])
         <==> Value(previous, SIGNAL_KEYS[i]) != "" && Value(previous, SIGNAL_KEYS[i]) != Value(current, SIGNAL_KEYS[i])
    {
    }
  }

  /** When the merge restores: registration is off and host and URL are blank now, and
      before registration was on or one of five keys had another value. */
  lemma ShouldRestoreIff(current: Env, previous: Env)
    ensures ShouldRestore(current, previous)
       <==> "PLANMGR_REGISTRATION_ENABLED" in current && current["PLANMGR_REGISTRATION_ENABLED"] == "false"
            && Blank(current, "PLANMGR_ADVERTISED_HOST") && Blank(current, "PLANMGR_REGISTRATION_URL")
            && (("PLANMGR_REGISTRATION_ENABLED" in previous
                 && var said := previous["PLANMGR_REGISTRATION_ENABLED"];
                    && |said| == 4 && said[0] in {'t', 'T'} && said[1] in {'r', 'R'} && said[2] in {'u', 'U'}
                    && said[3] in {'e', 'E'})
                || Differs(previous, current, "PLANMGR_REGISTRATION_ENABLED")
                || Differs(previous, current, "PLANMGR_ADVERTISED_HOST")
                || Differs(previous, current, "PLANMGR_REGISTRATION_URL")
                || Differs(previous, current, "PLANMGR_PORT")
                || Differs(previous, current, "PLANMGR_EMBEDDING_URL"))
  {
    SignalsIff(current, previous);
  }

  // ----- merge_operator_env_text -----

  /** The value of this key is taken from the previous file. */
  predicate Restores(k: string, previous: Env) {
    k !in KEEP_CURRENT_KEYS && k in previous
  }

  function MergeLine(line: string, previous: Env): string {
    match Match(line)
    case None => line
    case Some((k, v)) => if Restores(k, previous) then k + "=" + previous[k] else line
  }

  function MergeLines(lines: seq<string>, previous: Env): seq<string> {
    seq(|lines|, i requires 0 <= i < |lines| => MergeLine(lines[i], previous))
  }

  function Merge(currentText: string, previousText: string): string {
    if !ShouldRestore(Parse(currentText), Parse(previousText)) then currentText
    else Join(MergeLines(SplitLines(currentText), Parse(previousText))) + Suffix(currentText)
  }

  method MergeOperatorEnvText(currentText: string, previousText: string) returns (merged: string)
    ensures merged == Merge(currentText, previousText)
  {
    var current := ParseEnv(currentText);
    var previous := ParseEnv(previousText);
    if !ShouldRestore(current, previous) {
      return currentText;
    }
    var mergedLines := MergeEach(SplitLines(currentText), previous);
    return Join(mergedLines) + Suffix(currentText);
  }

  /** The loop of the merge. */
  method MergeEach(lines: seq<string>, previous: Env) returns (mergedLines: seq<string>)
    ensures mergedLines == MergeLines(lines, previous)
  {
    mergedLines := [];
    for i := 0 to |lines|
      invariant mergedLines == MergeLines(lines[..i], previous)
    {
      var entry := Match(lines[i]);
      if entry.None? {
        mergedLines := mergedLines + [lines[i]];
        continue;
      }
      var k := entry.value.0;
      if k in KEEP_CURRENT_KEYS || k !in previous {
        mergedLines := mergedLines + [lines[i]];
        continue;
      }
      mergedLines := mergedLines + [k + "=" + previous[k]];
    }
    assert lines[..|lines|] == lines;
  }

  // ----- one line -----

  /** What a merged line contributes, and that merging it again changes nothing. */
  lemma MergedLine(line: string, previous: Env)
    requires NoBreak(line) && Parsed(previous)
    ensures NoBreak(MergeLine(line, previous))
    ensures MergeLine(MergeLine(line, previous), previous) == MergeLine(line, previous)
    ensures Entry(MergeLine(line, previous))
         == match Entry(line)
            case None => None
            case Some((k, v)) => Some((k, if ColumnOne(line) && Restores(k, previous) then previous[k] else v))
  {
    if Match(line).Some? {
      var (k, v) := Match(line).value;
      EntryOfKeyLine(k, v);
      if Restores(k, previous) {
        RestoredLine(line, k, v, previous);
      }
    }
  }

  lemma RestoredLine(line: string, k: string, v: string, previous: Env)
    requires NoBreak(line) && line == k + "=" + v && IsKey(k) && Parsed(previous) && k in previous
    ensures NoBreak(k + "=" + previous[k])
    ensures Match(k + "=" + previous[k]) == Some((k, previous[k]))
    ensures Entry(k + "=" + previous[k]) == Some((k, previous[k]))
  {
    EntryOfKeyLine(k, previous[k]);
    MatchOfKeyLine(k, previous[k]);
    assert forall i | 0 <= i < |k| :: line[i] == k[i];
  }

  lemma MergedLines(lines: seq<string>, previous: Env)
    requires NoBreaks(lines) && Parsed(previous)
    ensures NoBreaks(MergeLines(lines, previous))
    ensures MergeLines(MergeLines(lines, previous), previous) == MergeLines(lines, previous)
  {
    forall i | 0 <= i < |lines|
      ensures NoBreak(MergeLine(lines[i], previous))
      ensures MergeLine(MergeLine(lines[i], previous), previous) == MergeLine(lines[i], previous)
    {
      MergedLine(lines[i], previous);
    }
  }

  // ----- the merge is idempotent -----

  lemma TextsAreParsed(currentText: string, previousText: string)
    ensures NoBreaks(SplitLines(currentText)) && Parsed(Parse(previousText))
  {
    SplitLinesHaveNoBreaks(currentText);
    SplitLinesHaveNoBreaks(previousText);
    ParseGivesParsed(SplitLines(previousText));
  }

  /** The lines of a merged text. Each stands where it stood; only an empty last line is
      lost when the current text does not end in a newline. */
  lemma LinesOfMerge(currentText: string, previousText: string)
    requires ShouldRestore(Parse(currentText), Parse(previousText))
    ensures var lines := MergeLines(SplitLines(currentText), Parse(previousText));
            SplitLines(Merge(currentText, previousText))
            == if Suffix(currentText) == "\n" then lines else DropLastEmpty(lines)
  {
    TextsAreParsed(currentText, previousText);
    var lines := MergeLines(SplitLines(currentText), Parse(previousText));
    MergedLines(SplitLines(currentText), Parse(previousText));
    assert ENABLED in ParseLines(SplitLines(currentText));
    SplitOfJoin(lines);
    assert Join(lines) + "" == Join(lines);
  }

  /** Merging twice is merging once, for all texts. */
  lemma MergeIsIdempotent(currentText: string, previousText: string)
    ensures Merge(Merge(currentText, previousText), previousText) == Merge(currentText, previousText)
  {
    var merged := Merge(currentText, previousText);
    var previous := Parse(previousText);
    if ShouldRestore(Parse(currentText), previous) && ShouldRestore(Parse(merged), previous) {
      TextsAreParsed(currentText, previousText);
      var lines := MergeLines(SplitLines(currentText), previous);
      MergedLines(SplitLines(currentText), previous);
      LinesOfMerge(currentText, previousText);
      var again := SplitLines(merged);
      assert forall i | 0 <= i < |again| :: again[i] == lines[i] && MergeLines(lines, previous)[i] == lines[i];
      assert MergeLines(again, previous) == again;
      assert lines == [] ==> currentText == "";
      RejoinIsIdentity(lines, Suffix(currentText));
    }
  }

  // ----- what the merged file says -----

  lemma {:induction false} SpeakerOfMerge(lines: seq<string>, previous: Env, k: string)
    requires NoBreaks(lines) && Parsed(previous)
    ensures Speaker(MergeLines(lines, previous), k)
         == match Speaker(lines, k) case None => None case Some(line) => Some(MergeLine(line, previous))
    ensures Speaker(lines, k).Some? ==> NoBreak(Speaker(lines, k).value)
  {
    if lines != [] {
      var n := |lines| - 1;
      assert MergeLines(lines, previous)[..n] == MergeLines(lines[..n], previous);
      SpeakerOfMerge(lines[..n], previous, k);
      MergedLine(lines[n], previous);
    }
  }

  /** Value by value, exactly: the merged file has the keys of the current one; a key
      takes the previous value if it is to be restored and the line that speaks for it
      starts in column one, and keeps its current value otherwise. */
  lemma MergedValues(currentText: string, previousText: string, k: string)
    requires ShouldRestore(Parse(currentText), Parse(previousText))
    ensures var (current, previous) := (Parse(currentText), Parse(previousText));
            var after := Parse(Merge(currentText, previousText));
            && (k in after <==> k in current)
            && (k in current ==>
                  && Speaker(SplitLines(currentText), k).Some?
                  && after[k] == if Restores(k, previous) && ColumnOne(Speaker(SplitLines(currentText), k).value)
                                 then previous[k] else current[k])
  {
    TextsAreParsed(currentText, previousText);
    LinesOfMerge(currentText, previousText);
    ValuesOfMergedLines(SplitLines(currentText), Parse(previousText), k);
  }

  lemma ValuesOfMergedLines(lines: seq<string>, previous: Env, k: string)
    requires NoBreaks(lines) && Parsed(previous)
    ensures var (current, after) := (ParseLines(lines), ParseLines(MergeLines(lines, previous)));
            && ParseLines(DropLastEmpty(MergeLines(lines, previous))) == after
            && (k in after <==> k in current)
            && (k in current ==>
                  && Speaker(lines, k).Some?
                  && after[k] == if Restores(k, previous) && ColumnOne(Speaker(lines, k).value)
                                 then previous[k] else current[k])
  {
    var merged := MergeLines(lines, previous);
    SpeakerDecides(lines, k);
    SpeakerOfMerge(lines, previous, k);
    SpeakerDecides(merged, k);
    if Speaker(lines, k).Some? {
      MergedLine(Speaker(lines, k).value, previous);
    }
  }

  /** What the merge is meant to give a key. */
  function Wanted(current: Env, previous: Env, k: string): string
    requires k in current
  {
    if Restores(k, previous) then previous[k] else current[k]
  }

  /** A key gets its wanted value if and only if the line that speaks for it starts in
      column one, or there is nothing to restore for it: parsing strips lines, merging
      does not, so an indented key keeps the overwritten value. */
  lemma WantedValueIff(currentText: string, previousText: string, k: string)
    requires ShouldRestore(Parse(currentText), Parse(previousText)) && k in Parse(currentText)
    ensures var (current, previous) := (Parse(currentText), Parse(previousText));
            var after := Parse(Merge(currentText, previousText));
            && Speaker(SplitLines(currentText), k).Some? && k in after
            && (after[k] == Wanted(current, previous, k)
                <==> ColumnOne(Speaker(SplitLines(currentText), k).value)
                     || !Restores(k, previous) || previous[k] == current[k])
  {
    MergedValues(currentText, previousText, k);
  }

  /** The version of the image is never restored, every other key the previous file has may
      be: what restoring means, key by key. */
  lemma RestoredKeys(currentText: string, previousText: string, k: string)
    requires ShouldRestore(Parse(currentText), Parse(previousText)) && k in Parse(currentText)
    ensures var (current, previous) := (Parse(currentText), Parse(previousText));
            var after := Parse(Merge(currentText, previousText));
            && Speaker(SplitLines(currentText), k).Some? && k in after
            && after[k] == if k != "PLANMGR_IMAGE_VERSION" && k in previous
                              && ColumnOne(Speaker(SplitLines(currentText), k).value)
                           then previous[k] else current[k]
  {
    MergedValues(currentText, previousText, k);
  }

  /** Lines that set no restored key keep their content and their position. */
  lemma OtherLinesStay(currentText: string, previousText: string, i: nat)
    requires ShouldRestore(Parse(currentText), Parse(previousText))
    requires i < |SplitLines(currentText)|
    requires var m := Match(SplitLines(currentText)[i]); m.None? || !Restores(m.value.0, Parse(previousText))
    ensures var after := SplitLines(Merge(currentText, previousText));
            if i < |after| then after[i] == SplitLines(currentText)[i]
            else i == |SplitLines(currentText)| - 1 && SplitLines(currentText)[i] == "" && Suffix(currentText) == ""
  {
    LinesOfMerge(currentText, previousText);
  }

  /** A key line, written out. */
  function KeyLine(k: string, v: string): string { k + "=" + v }

  predicate PlainValue(v: string) {
    NoBreak(v) && StripRight(v) == v
  }

  lemma IndentedLine(k: string, v: string, previous: Env)
    requires IsKey(k) && PlainValue(v)
    ensures NoBreak(" " + KeyLine(k, v)) && !ColumnOne(" " + KeyLine(k, v))
    ensures Entry(" " + KeyLine(k, v)) == Some((k, v))
    ensures MergeLine(" " + KeyLine(k, v), previous) == " " + KeyLine(k, v)
  {
    var line := " " + KeyLine(k, v);
    assert line[1..] == KeyLine(k, v);
    assert StripLeft(KeyLine(k, v)) == KeyLine(k, v);
    EntryOfKeyLine(k, v);
    assert KeyEnd(line) == 0;
  }

  lemma TwoLines(first: string, second: string)
    requires NoBreak(first) && NoBreak(second) && second != ""
    ensures SplitLines(first + "\n" + second) == [first, second]
  {
    SplitFirst(first, second);
    SplitFirst(second, "");
  }

  lemma ParseTwo(first: string, second: string, k: string, v: string, l: string, w: string)
    requires Entry(first) == Some((k, v)) && Entry(second) == Some((l, w))
    ensures ParseLines([first, second]) == map[k := v][l := w]
  {
    assert [first, second][..1] == [first] && [first][..0] == [];
    assert ParseLines([]) == map[];
    assert ParseLines([first]) == map[k := v];
  }

  /** A file with the key line e=f, then the key k indented. */
  function Indented(e: string, f: string, k: string, v: string): string {
    KeyLine(e, f) + "\n" + (" " + KeyLine(k, v))
  }

  function Flush(e: string, f: string, k: string, v: string): string {
    KeyLine(e, f) + "\n" + KeyLine(k, v)
  }

  lemma IndentedSays(e: string, f: string, k: string, v: string)
    requires IsKey(e) && PlainValue(f) && IsKey(k) && PlainValue(v) && k != e
    ensures Parse(Indented(e, f, k, v)) == map[e := f][k := v]
    ensures Speaker(SplitLines(Indented(e, f, k, v)), k).Some?
    ensures !ColumnOne(Speaker(SplitLines(Indented(e, f, k, v)), k).value)
  {
    var first, second := KeyLine(e, f), " " + KeyLine(k, v);
    IndentedLine(k, v, map[]);
    EntryOfKeyLine(e, f);
    KeyLineIsLine(e, f);
    TwoLines(first, second);
    ParseTwo(first, second, e, f, k, v);
  }

  lemma FlushSays(e: string, f: string, k: string, v: string)
    requires IsKey(e) && PlainValue(f) && IsKey(k) && PlainValue(v)
    ensures Parse(Flush(e, f, k, v)) == map[e := f][k := v]
  {
    EntryOfKeyLine(e, f);
    EntryOfKeyLine(k, v);
    KeyLineIsLine(e, f);
    KeyLineIsLine(k, v);
    TwoLines(KeyLine(e, f), KeyLine(k, v));
    ParseTwo(KeyLine(e, f), KeyLine(k, v), e, f, k, v);
  }

  lemma KeyLineIsLine(k: string, v: string)
    requires IsKey(k) && NoBreak(v)
    ensures NoBreak(KeyLine(k, v))
  {
  }

  lemma TriggerFires(e: string, f: string, t: string, k: string, v: string, w: string)
    requires e == ENABLED && f == "false" && t == "true" && k !in {ENABLED, HOST, URL}
    ensures ShouldRestore(map[e := f][k := v], map[e := t][k := w])
    ensures IsKey(e) && PlainValue(f) && PlainValue(t)
  {
    assert e in map[e := t][k := w];
    assert SaysTrue(t);
  }

  /** For any key that does not take part in the trigger: an overwritten file that
      indents it keeps the overwritten value, although the restore happens. */
  lemma IndentedKeyIsNotRestored(e: string, f: string, t: string, k: string, v: string, w: string)
    requires e == ENABLED && f == "false" && t == "true"
    requires IsKey(k) && k !in {ENABLED, HOST, URL} && k !in KEEP_CURRENT_KEYS
    requires PlainValue(v) && PlainValue(w) && v != w
    ensures var current, previous := Parse(Indented(e, f, k, v)), Parse(Flush(e, t, k, w));
            ShouldRestore(current, previous) && k in current && Wanted(current, previous, k) == w
    ensures var after := Parse(Merge(Indented(e, f, k, v), Flush(e, t, k, w))); k in after && after[k] == v
  {
    TriggerFires(e, f, t, k, v, w);
    IndentedSays(e, f, k, v);
    FlushSays(e, t, k, w);
    MergedValues(Indented(e, f, k, v), Flush(e, t, k, w), k);
  }
}
