/** Rendering an artifact and parsing the text again: what comes back, and exactly when it is what was rendered. */
module FrontmatterRoundTrip {
  import opened Options
  import opened Text
  import opened Frontmatter
  import opened TimeText
  import Digits

  // ---------------------------------------------------------------- one line

  predicate PlainKey(key: string) {
    key != "" && key != "links" && forall i :: 0 <= i < |key| ==> 'a' <= key[i] <= 'z' || key[i] == '_'
  }

  /** A word, a blank and a value: trimming the line keeps the word and what the value trims to. */
  lemma TrimPrefixed(lead: string, word: string, v: string)
    requires AllSpace(lead) && word != [] && !IsSpace(word[0]) && !IsSpace(word[|word| - 1])
    ensures var t := Trim(lead + word + " " + v); word <= t && Trim(t[|word|..]) == Trim(v)
  {
    hide Trim, IsSpace;
    var left, right := TrimParts(v);
    var core := Trim(v);
    TrimIsTrimmed(v);
    BlankIsSpace();
    if core == [] {
      assert lead + word + " " + v == lead + word + (" " + left + right);
      TrimUnique(lead, word, " " + left + right);
      TrimIsTrimmed([]);
      assert word[|word|..] == [];
    } else {
      var kept := word + (" " + left) + core;
      assert lead + word + " " + v == lead + kept + right;
      TrimUnique(lead, kept, right);
      assert kept[|word|..] == " " + left + core + [];
      TrimUnique(" " + left, core, []);
    }
  }

  lemma BlankIsSpace()
    ensures IsSpace(' ')
  {
  }

  lemma NotAmongFirst(s: string, ch: char, n: nat, j: nat)
    requires j < n <= |s| && ch !in s[..n]
    ensures s[j] != ch
  {
    assert s[..n][j] == s[j];
  }

  lemma ColonUnique(s: string, i: nat)
    requires i < |s| && s[i] == ':' && ':' !in s[..i]
    ensures ColonAt(s) == Some(i)
  {
    hide ColonAt;
    assert s[i] in s;
    var at: nat := ColonAt(s).value;
    if at < i {
      NotAmongFirst(s, ':', i, at);
    } else if i < at {
      NotAmongFirst(s, ':', at, i);
    }
  }

  lemma KeyChars(key: string)
    requires PlainKey(key)
    ensures key != "" && ':' !in key && key[0] != ' ' && key[0] != '-'
    ensures Trim(key) == key && !IsSpace(key[0]) && !IsSpace(':')
  {
    hide Trim;
    TrimIsTrimmed(key);
  }

  lemma ReadsPair(key: string, v: string)
    requires PlainKey(key)
    ensures var t := Trim(FieldLine(key, v)); key + ":" <= t && ParseYamlLine(t) == Some(Pair(key, Value(v)))
  {
    hide Trim, IsSpace, PlainKey, ColonAt, Unquote;
    KeyChars(key);
    var word := key + ":";
    assert FieldLine(key, v) == [] + word + " " + v;
    TrimPrefixed([], word, v);
    var t := Trim(FieldLine(key, v));
    assert t[|key|] == word[|key|] && t[..|key|] == key;
    ColonUnique(t, |key|);
  }

  /** A field line, wherever it stands, sets its field and leaves the links section. */
  lemma ReadsField(c: Calendar, st: State, key: string, v: string)
    requires PlainKey(key)
    ensures Step(c, st, FieldLine(key, v)) == State(SetField(c, st.meta, key, Value(v)), false, st.current)
  {
    hide Trim, PlainKey, ParseYamlLine, SetField, Value;
    ReadsPair(key, v);
    KeyChars(key);
    var line := FieldLine(key, v);
    var t := Trim(line);
    assert t[0] == (key + ":")[0] == key[0] && line[0] == key[0];
    assert t[|key|] == (key + ":")[|key|] && t[..|key|] == key;
    ColonUnique(t, |key|);
    LinksColon();
    KeyIsNotLinks(key);
  }

  lemma KeyIsNotLinks(key: string)
    requires PlainKey(key)
    ensures key != "links"
  {
  }

  lemma LinksColon()
    ensures ColonAt("links:") == Some(5) && "links:"[..5] == "links"
  {
    ColonUnique("links:", 5);
  }

  lemma ReadsRef(c: Calendar, st: State, ref: string)
    requires st.inLinks
    ensures Step(c, st, "  - ref: " + ref) == State(Flushed(st.meta, st.current), true, Some(Link(Trim(ref), "")))
  {
    hide Trim, Indent, Flushed;
    var word := "- ref:";
    assert "  - ref: " + ref == "  " + word + " " + ref;
    TrimPrefixed("  ", word, ref);
    var t := Trim("  - ref: " + ref);
    assert |word| == 6 && word <= t;
    assert t[..6] == word;
    assert t[..2] == word[..2] == "- ";
  }

  /** An indented line stays inside the links section. */
  lemma InLinks(c: Calendar, st: State, line: string)
    requires st.inLinks && line != "" && line[0] == ' ' && Trim(line) != ""
    ensures Step(c, st, line) == LinkStep(st, Trim(line), Indent(line))
  {
    hide Trim, LinkStep, FieldStep;
  }

  lemma RelationStep(st: State, trimmed: string, indent: nat)
    requires st.current.Some? && "type:" <= trimmed
    ensures LinkStep(st, trimmed, indent) == State(st.meta, true, Some(st.current.value.(relation := Trim(trimmed[5..]))))
  {
    hide Trim, Flushed;
    assert trimmed[0] == "type:"[0];
  }

  lemma ReadsRelation(c: Calendar, st: State, relation: string)
    requires st.inLinks && st.current.Some?
    ensures Step(c, st, "    type: " + relation)
            == State(st.meta, true, Some(st.current.value.(relation := Trim(relation))))
  {
    hide Trim, Step, LinkStep, Indent;
    var word := "type:";
    var line := "    type: " + relation;
    assert line == "    " + word + " " + relation;
    TrimPrefixed("    ", word, relation);
    assert |word| == 5;
    InLinks(c, st, line);
    RelationStep(st, Trim(line), Indent(line));
  }

  lemma ReadsLinks(c: Calendar, st: State)
    ensures Step(c, st, "links:") == State(st.meta, true, st.current) || st.inLinks
  {
    hide Trim, Indent, ParseYamlLine;
    TrimIsTrimmed("links:");
  }

  // ---------------------------------------------------------------- all lines

  lemma StepsAppend(c: Calendar, st: State, lines: seq<string>, line: string)
    ensures Steps(c, st, lines + [line]) == Step(c, Steps(c, st, lines), line)
  {
    assert (lines + [line])[..|lines|] == lines;
  }

  lemma ReadsNext(c: Calendar, st: State, lines: seq<string>, key: string, v: string)
    requires PlainKey(key)
    ensures var before := Steps(c, st, lines);
            Steps(c, st, lines + [FieldLine(key, v)]) == State(SetField(c, before.meta, key, Value(v)), false, before.current)
  {
    hide PlainKey, FieldLine, SetField, Value, Step;
    StepsAppend(c, st, lines, FieldLine(key, v));
    ReadsField(c, Steps(c, st, lines), key, v);
  }

  /** An optional line left out stands for a field that would not have changed. */
  lemma ReadsOptional(c: Calendar, st: State, lines: seq<string>, key: string, v: string)
    requires PlainKey(key)
    requires v == "" ==> SetField(c, Steps(c, st, lines).meta, key, Value(v)) == Steps(c, st, lines).meta
    requires !Steps(c, st, lines).inLinks
    ensures var before := Steps(c, st, lines);
            Steps(c, st, lines + OptionalLine(key, v)) == State(SetField(c, before.meta, key, Value(v)), false, before.current)
  {
    hide PlainKey, FieldLine, SetField, Value, Steps;
    if v == "" {
      assert lines + OptionalLine(key, v) == lines;
    } else {
      ReadsNext(c, st, lines, key, v);
    }
  }

  function ReadLinks(links: seq<Link>): (r: seq<Link>)
    ensures |r| == |links| && forall i :: 0 <= i < |links| ==> r[i] == Link(Trim(links[i].ref), Trim(links[i].relation))
  {
    seq(|links|, i requires 0 <= i < |links| => Link(Trim(links[i].ref), Trim(links[i].relation)))
  }

  function OnlyIf(valid: bool, value: string, otherwise: string): string {
    if valid then value else otherwise
  }

  /** The fields that come back when `m` is rendered and parsed. */
  function ReadHead(m: Meta): Meta {
    var kind, status, mode := Value(m.kind), Value(m.status), Value(m.mode);
    Meta(Value(m.id), OnlyIf(ValidKind(kind), kind, ""), m.version, OnlyIf(ValidStatus(status), status, ACTIVE), Value(m.title),
         Value(m.context), OnlyIf(ValidMode(mode), mode, ""), Value(m.validUntil), Reread(m.createdAt), Reread(m.updatedAt), [])
  }

  function ReadMeta(m: Meta): Meta {
    ReadHead(m).(links := ReadLinks(m.links))
  }

  // ---------------------------------------------------------------- whole numbers

  lemma AtoiReads(n: Int)
    ensures Atoi(IntText(n)) == Some(n)
  {
    hide Digits.Render, Digits.Read;
    var k: nat := if n < 0 then 0 - n else n;
    Digits.ReadRender(k);
    var s := Digits.Render(k);
    assert Digits.IsDigit(s[0]);
    if n < 0 {
      assert IntText(n)[1..] == s;
    }
  }

  lemma IntTextIsPlain(n: int)
    ensures Value(IntText(n)) == IntText(n) && '\n' !in IntText(n)
  {
    hide Trim, Digits.Render;
    var s := Digits.Render(if n < 0 then -n else n);
    assert Digits.IsDigit(s[|s| - 1]) && Digits.IsDigit(s[0]);
    TrimIsTrimmed(IntText(n));
  }

  lemma EmptyValue()
    ensures Value("") == ""
  {
    TrimIsTrimmed("");
  }

  // ---------------------------------------------------------------- the head

  lemma SetFields(c: Calendar, m: Meta, v: string)
    ensures SetField(c, m, "id", v) == m.(id := v)
    ensures SetField(c, m, "kind", v) == m.(kind := OnlyIf(ValidKind(v), v, m.kind))
    ensures SetField(c, m, "status", v) == m.(status := OnlyIf(ValidStatus(v), v, m.status))
    ensures SetField(c, m, "title", v) == m.(title := v)
    ensures SetField(c, m, "context", v) == m.(context := v)
    ensures SetField(c, m, "mode", v) == m.(mode := OnlyIf(ValidMode(v), v, m.mode))
    ensures SetField(c, m, "valid_until", v) == m.(validUntil := v)
    ensures SetField(c, m, "created_at", v) == m.(createdAt := TimeOr(c, v, m.createdAt))
    ensures SetField(c, m, "updated_at", v) == m.(updatedAt := TimeOr(c, v, m.updatedAt))
    ensures Atoi(v).Some? ==> SetField(c, m, "version", v) == m.(version := Atoi(v).value)
  {
    hide ValidKind, ValidStatus, ValidMode, Atoi;
    assert "kind"[0] == 'k' && "mode"[0] == 'm';
    assert "version"[0] == 'v' && "context"[0] == 'c';
    assert "created_at"[0] == 'c' && "updated_at"[0] == 'u';
  }

  lemma Keys()
    ensures PlainKey("id") && PlainKey("kind") && PlainKey("version") && PlainKey("status") && PlainKey("title")
    ensures PlainKey("context") && PlainKey("mode") && PlainKey("valid_until") && PlainKey("created_at") && PlainKey("updated_at")
  {
  }

  const START := State(NO_META, false, None)

  /** The fields written before the title. */
  function FirstLines(m: Meta): seq<string> {
    [] + [FieldLine("id", m.id)] + [FieldLine("kind", m.kind)]
    + [FieldLine("version", IntText(m.version))] + [FieldLine("status", m.status)]
  }

  /** The header read so far, once the status is read. */
  function ReadFirst(m: Meta): Meta {
    var kind, status := Value(m.kind), Value(m.status);
    NO_META.(id := Value(m.id), kind := OnlyIf(ValidKind(kind), kind, ""), version := m.version,
             status := OnlyIf(ValidStatus(status), status, ACTIVE))
  }

  lemma FirstReads(c: Calendar, m: Meta)
    ensures Steps(c, START, FirstLines(m)) == State(ReadFirst(m), false, None)
  {
    hide Steps, FieldLine, Value, Atoi, IntText, PlainKey, ValidKind, ValidStatus, SetField;
    Keys();
    var l0: seq<string> := [];
    StepsNone(c, START);
    var v1, l1 := Value(m.id), l0 + [FieldLine("id", m.id)];
    ReadsNext(c, START, l0, "id", m.id);
    var m1 := NO_META.(id := v1);
    SetFields(c, NO_META, v1);
    var v2, l2 := Value(m.kind), l1 + [FieldLine("kind", m.kind)];
    ReadsNext(c, START, l1, "kind", m.kind);
    SetFields(c, m1, v2);
    var m2 := m1.(kind := OnlyIf(ValidKind(v2), v2, ""));
    var l3 := l2 + [FieldLine("version", IntText(m.version))];
    ReadsNext(c, START, l2, "version", IntText(m.version));
    IntTextIsPlain(m.version);
    AtoiReads(m.version);
    SetFields(c, m2, IntText(m.version));
    var m3 := m2.(version := m.version);
    ReadsNext(c, START, l3, "status", m.status);
    SetFields(c, m3, Value(m.status));
  }

  /** The fields written after the title. */
  function LastLines(lines: seq<string>, m: Meta): seq<string> {
    lines + OptionalLine("context", m.context) + OptionalLine("mode", m.mode) + OptionalLine("valid_until", m.validUntil)
    + [FieldLine("created_at", Format(m.createdAt))] + [FieldLine("updated_at", Format(m.updatedAt))]
  }

  lemma LastReads(c: Calendar, m: Meta, lines: seq<string>, before: Meta)
    requires Steps(c, START, lines) == State(before, false, None)
    requires before.context == before.mode == before.validUntil == "" && before.createdAt == before.updatedAt == ZERO_TIME
    ensures Steps(c, START, LastLines(lines, m)) ==
              State(before.(context := Value(m.context), mode := OnlyIf(ValidMode(Value(m.mode)), Value(m.mode), ""),
                            validUntil := Value(m.validUntil), createdAt := Reread(m.createdAt), updatedAt := Reread(m.updatedAt)),
                    false, None)
  {
    hide Steps, FieldLine, OptionalLine, Value, TimeOr, PlainKey, ValidMode, SetField, Format, Reread;
    Keys();
    EmptyValue();
    NoMode();
    var v6, l6 := Value(m.context), lines + OptionalLine("context", m.context);
    SetFields(c, before, v6);
    ReadsOptional(c, START, lines, "context", m.context);
    var m6 := before.(context := v6);
    var v7, l7 := Value(m.mode), l6 + OptionalLine("mode", m.mode);
    SetFields(c, m6, v7);
    ReadsOptional(c, START, l6, "mode", m.mode);
    var m7 := m6.(mode := OnlyIf(ValidMode(v7), v7, ""));
    var v8, l8 := Value(m.validUntil), l7 + OptionalLine("valid_until", m.validUntil);
    SetFields(c, m7, v8);
    ReadsOptional(c, START, l7, "valid_until", m.validUntil);
    var m8 := m7.(validUntil := v8);
    var l9 := l8 + [FieldLine("created_at", Format(m.createdAt))];
    ReadsNext(c, START, l8, "created_at", Format(m.createdAt));
    SetFields(c, m8, Value(Format(m.createdAt)));
    TimeReads(c, m.createdAt);
    var m9 := m8.(createdAt := Reread(m.createdAt));
    ReadsNext(c, START, l9, "updated_at", Format(m.updatedAt));
    SetFields(c, m9, Value(Format(m.updatedAt)));
    TimeReads(c, m.updatedAt);
  }

  lemma HeadReads(c: Calendar, m: Meta)
    ensures Steps(c, START, HeadLines(m)) == State(ReadHead(m), false, None)
  {
    hide Steps, FieldLine, OptionalLine, Value, PlainKey, ValidKind, ValidStatus, ValidMode, SetField, Format, Reread;
    Keys();
    EmptyValue();
    FirstReads(c, m);
    var first := FirstLines(m);
    SetFields(c, ReadFirst(m), Value(m.title));
    ReadsOptional(c, START, first, "title", m.title);
    LastReads(c, m, first + OptionalLine("title", m.title), ReadFirst(m).(title := Value(m.title)));
  }

  lemma StepsNone(c: Calendar, st: State)
    ensures Steps(c, st, []) == st
  {
  }

  lemma NoMode()
    ensures !ValidMode("")
  {
  }

  // ---------------------------------------------------------------- the links

  /** The state after reading some links: all but the last are stored. */
  function AfterLinks(m: Meta, links: seq<Link>): State {
    if links == [] then State(m, true, None)
    else State(m.(links := ReadLinks(links[..|links| - 1])), true,
               Some(Link(Trim(links[|links| - 1].ref), Trim(links[|links| - 1].relation))))
  }

  lemma {:induction false} LinksRead(c: Calendar, m: Meta, lines: seq<string>, links: seq<Link>)
    requires m.links == [] && Steps(c, START, lines) == State(m, true, None)
    ensures Steps(c, START, lines + LinkLines(links)) == AfterLinks(m, links)
    decreases |links|
  {
    hide Steps, Step, Trim;
    if links == [] {
      assert lines + LinkLines(links) == lines;
    } else {
      var init, last := links[..|links| - 1], links[|links| - 1];
      LinksRead(c, m, lines, init);
      var before := lines + LinkLines(init);
      var ref, relation := "  - ref: " + last.ref, "    type: " + last.relation;
      assert lines + LinkLines(links) == before + [ref] + [relation];
      StepsAppend(c, START, before, ref);
      StepsAppend(c, START, before + [ref], relation);
      ReadsRef(c, AfterLinks(m, init), last.ref);
      ReadsRelation(c, Steps(c, START, before + [ref]), last.relation);
      FlushedLinks(m, init);
    }
  }

  lemma FlushedLinks(m: Meta, links: seq<Link>)
    requires m.links == []
    ensures Flushed(AfterLinks(m, links).meta, AfterLinks(m, links).current) == m.(links := ReadLinks(links))
  {
    hide Trim;
    if links != [] {
      assert ReadLinks(links) == ReadLinks(links[..|links| - 1]) + [ReadLinks(links)[|links| - 1]];
    }
  }

  lemma MetaReads(c: Calendar, m: Meta)
    ensures Finish(Steps(c, START, MetaLines(m))) ==
              if Value(m.id) == "" then Err("missing id")
              else if !ValidKind(Value(m.kind)) then Err("missing kind")
              else Ok(ReadMeta(m))
  {
    hide Steps, Step, Trim, Unquote, ValidStatus, ValidMode, HeadLines, LinkLines;
    HeadReads(c, m);
    var head, read := HeadLines(m), ReadHead(m);
    if m.links == [] {
      assert MetaLines(m) == head;
      assert ReadMeta(m) == read;
    } else {
      StepsAppend(c, START, head, "links:");
      ReadsLinks(c, State(read, false, None));
      LinksRead(c, read, head + ["links:"], m.links);
      assert MetaLines(m) == head + ["links:"] + LinkLines(m.links);
      FlushedLinks(read, m.links);
    }
  }

  // ---------------------------------------------------------------- lines and text

  /** A line of the block: no newline inside, and it does not look like the closing line. */
  predicate OpenLine(line: string) {
    '\n' !in line && line != "" && line[0] != '-'
  }

  ghost predicate OpenLines(lines: seq<string>) {
    forall line :: line in lines ==> OpenLine(line)
  }

  lemma {:induction false} LineLengthOf(line: string, rest: string)
    requires '\n' !in line
    ensures LineLength(line + "\n" + rest) == |line| + 1
  {
    var s := line + "\n" + rest;
    if line == "" {
      assert s[0] == '\n';
    } else {
      assert s[0] == line[0] && s[1..] == line[1..] + "\n" + rest;
      LineLengthOf(line[1..], rest);
    }
  }

  lemma UnlinesFirst(line: string, lines: seq<string>)
    ensures Unlines([line] + lines) == line + "\n" + Unlines(lines)
  {
    UnlinesAppend([line], lines);
    UnlinesOne(line);
  }

  lemma {:induction false} SplitOfUnlines(lines: seq<string>)
    requires OpenLines(lines)
    ensures SplitLines(Unlines(lines)) == lines + [""]
  {
    hide Unlines, LineLength;
    if lines == [] {
      NoLines();
    } else {
      var first, rest := lines[0], lines[1..];
      assert lines == [first] + rest && first in lines;
      UnlinesFirst(first, rest);
      LineLengthOf(first, Unlines(rest));
      var s := Unlines(lines);
      assert s[..|first|] == first && s[|first|] == '\n' && s[|first| + 1..] == Unlines(rest);
      SplitOfUnlines(rest);
    }
  }

  lemma OpenLineStaysOpen(line: string)
    requires OpenLine(line)
    ensures !Closes(line + "\n")
  {
    hide TrimRight;
    assert (line + "\n")[0] == line[0];
    var t := TrimRight(line + "\n", IsBreak);
    if |t| == 3 {
      assert t[0] == line[0];
    }
  }

  lemma ClosingCloses()
    ensures Closes("---\n")
  {
    var s := "---\n";
    assert s[..3] == "---" && s[3] == '\n';
  }

  predicate WholeLines(s: string) {
    s == "" || s[|s| - 1] == '\n'
  }

  lemma {:induction false} UnlinesAreWhole(lines: seq<string>)
    ensures WholeLines(Unlines(lines))
  {
  }

  lemma {:induction false} LineLengthAppend(s: string, rest: string)
    requires s != "" && WholeLines(s)
    ensures LineLength(s + rest) == LineLength(s)
  {
    if s[0] != '\n' {
      assert (s + rest)[1..] == s[1..] + rest;
      LineLengthAppend(s[1..], rest);
    }
  }

  lemma NothingCloses()
    ensures !Closes("") && CloseAt("") == None
  {
  }

  lemma CloseUnfolds(s: string)
    ensures var n := LineLength(s);
            CloseAt(s) == if Closes(s[..n]) then Some(0) else if n == |s| then None else Shifted(CloseAt(s[n..]), n)
  {
    hide Closes, LineLength;
  }

  lemma SlicesOfAppend(s: string, rest: string, n: nat)
    requires n <= |s|
    ensures (s + rest)[..n] == s[..n] && (s + rest)[n..] == s[n..] + rest
  {
  }

  lemma WholeRest(s: string, n: nat)
    requires WholeLines(s) && n <= |s|
    ensures WholeLines(s[n..]) && (n == |s| ==> s[n..] == "")
  {
  }

  /** Behind whole lines, the first closing line is among them or, if none of them closes, the first one after them. */
  lemma {:induction false} CloseAppend(s: string, rest: string)
    requires WholeLines(s)
    ensures CloseAt(s + rest) == if CloseAt(s).Some? then CloseAt(s) else Shifted(CloseAt(rest), |s|)
    decreases |s|
  {
    hide LineLength, Closes, CloseAt, WholeLines;
    NothingCloses();
    if s == "" {
      assert s + rest == rest;
    } else {
      var n := LineLength(s);
      LineLengthAppend(s, rest);
      SlicesOfAppend(s, rest, n);
      WholeRest(s, n);
      CloseUnfolds(s);
      CloseUnfolds(s + rest);
      if !Closes(s[..n]) {
        CloseAppend(s[n..], rest);
      }
    }
  }

  lemma {:induction false} OpenLinesHoldNoClose(lines: seq<string>)
    requires OpenLines(lines)
    ensures CloseAt(Unlines(lines)) == None
    decreases |lines|
  {
    hide Unlines, LineLength, Closes;
    if lines == [] {
      NoLines();
      NothingCloses();
    } else {
      var first, others := lines[0], lines[1..];
      assert lines == [first] + others && first in lines;
      UnlinesFirst(first, others);
      var s := Unlines(lines);
      LineLengthOf(first, Unlines(others));
      assert s[..|first| + 1] == first + "\n" && s[|first| + 1..] == Unlines(others);
      OpenLineStaysOpen(first);
      OpenLinesHoldNoClose(others);
    }
  }

  lemma Opening(rest: string)
    ensures var text := "---\n" + rest;
            TrimLeft(text, IsBreakOrBlank) == text && "---" <= text && AfterOpening(text[3..]) == rest
  {
    var text := "---\n" + rest;
    assert text[0] == '-' && text[..3] == "---";
    var line := text[3..];
    assert line == "\n" + rest && line[0] == '\n' && line[1..] == rest;
  }

  /** How a rendered text splits: at the closing line written, or at a line of the header that looks like one. */
  function PartsOf(front: string, body: string): Parts {
    var end := CloseAt(front);
    if end.None? then Parts(front, TrimLeft(body, IsBreak))
    else
      var after := front[end.value..];
      Parts(front[..end.value], TrimLeft(after[LineLength(after)..] + "---\n\n" + body, IsBreak))
  }

  lemma ClosesFirst(rest: string)
    ensures CloseAt("---\n" + rest) == Some(0) && LineLength("---\n" + rest) == 4
  {
    hide LineLength, Closes;
    var s := "---\n" + rest;
    assert s == "---" + "\n" + rest;
    LineLengthOf("---", rest);
    assert s[..4] == "---\n";
    ClosingCloses();
  }

  lemma {:induction false} ClosingLineIsThere(s: string)
    requires WholeLines(s)
    ensures CloseAt(s).Some? ==> CloseAt(s).value < |s| && WholeLines(s[CloseAt(s).value..])
    decreases |s|
  {
    hide LineLength, Closes;
    NothingCloses();
    if s != "" && CloseAt(s).Some? {
      var n := LineLength(s);
      if !Closes(s[..n]) {
        ClosingLineIsThere(s[n..]);
        assert s[n..][CloseAt(s[n..]).value..] == s[CloseAt(s).value..];
      } else {
        assert s[0..] == s;
      }
    }
  }

  lemma BehindWritten(front: string, body: string)
    ensures var rest := front + "---\n\n" + body;
            rest[..|front|] == front && rest[|front|..] == "---\n" + ("\n" + body)
            && ("---\n" + ("\n" + body))[4..] == "\n" + body
  {
  }

  lemma BehindFound(front: string, body: string, k: nat)
    requires WholeLines(front) && k < |front| && WholeLines(front[k..])
    ensures var rest, after := front + "---\n\n" + body, front[k..];
            rest[..k] == front[..k] && LineLength(rest[k..]) == LineLength(after)
            && rest[k..][LineLength(after)..] == after[LineLength(after)..] + "---\n\n" + body
  {
    hide LineLength, WholeLines;
    var tail := "---\n\n" + body;
    var after := front[k..];
    assert front + "---\n\n" + body == front + tail;
    SlicesOfAppend(front, tail, k);
    LineLengthAppend(after, tail);
    SlicesOfAppend(after, tail, LineLength(after));
    assert after[LineLength(after)..] + tail == after[LineLength(after)..] + "---\n\n" + body;
  }

  lemma OpeningIsWritten(front: string, body: string)
    ensures "---\n" + front + "---\n\n" + body == "---\n" + (front + "---\n\n" + body)
    ensures front + "---\n\n" + body == front + ("---\n" + ("\n" + body))
  {
  }

  /** Whatever the fields hold, this is how the text written for them splits. */
  lemma SplitOfText(front: string, body: string)
    requires WholeLines(front)
    ensures SplitFrontmatter("---\n" + front + "---\n\n" + body) == Ok(PartsOf(front, body))
  {
    hide CloseAt, LineLength, TrimLeft, AfterOpening, Closes, WholeLines;
    var rest := front + "---\n\n" + body;
    OpeningIsWritten(front, body);
    Opening(rest);
    ClosesFirst("\n" + body);
    CloseAppend(front, "---\n" + ("\n" + body));
    ClosingLineIsThere(front);
    if CloseAt(front).None? {
      BehindWritten(front, body);
      BreakIsTrimmed(body);
    } else {
      BehindFound(front, body, CloseAt(front).value);
    }
  }

  lemma BreakIsTrimmed(body: string)
    ensures TrimLeft("\n" + body, IsBreak) == TrimLeft(body, IsBreak)
  {
    assert ("\n" + body)[1..] == body;
  }

  /** A header of open lines splits off as it was written. */
  lemma SplitOfRender(lines: seq<string>, body: string)
    requires OpenLines(lines)
    ensures SplitFrontmatter("---\n" + Unlines(lines) + "---\n\n" + body) == Ok(Parts(Unlines(lines), TrimLeft(body, IsBreak)))
  {
    hide SplitFrontmatter, CloseAt, Unlines, OpenLine;
    UnlinesAreWhole(lines);
    OpenLinesHoldNoClose(lines);
    SplitOfText(Unlines(lines), body);
  }

  // ---------------------------------------------------------------- the theorem

  ghost predicate SingleLine(m: Meta) {
    && '\n' !in m.id && '\n' !in m.kind && '\n' !in m.status && '\n' !in m.title && '\n' !in m.context
    && '\n' !in m.mode && '\n' !in m.validUntil
    && forall l :: l in m.links ==> '\n' !in l.ref && '\n' !in l.relation
  }

  lemma FieldIsOpen(key: string, v: string)
    requires PlainKey(key) && '\n' !in v
    ensures OpenLine(FieldLine(key, v))
  {
    assert '\n' !in key;
  }

  lemma {:induction false} LinksAreOpen(links: seq<Link>)
    requires forall l :: l in links ==> '\n' !in l.ref && '\n' !in l.relation
    ensures OpenLines(LinkLines(links))
    decreases |links|
  {
    if links != [] {
      LinksAreOpen(links[..|links| - 1]);
      var last := links[|links| - 1];
      assert last in links;
    }
  }

  lemma OpenAppend(a: seq<string>, b: seq<string>)
    requires OpenLines(a) && OpenLines(b)
    ensures OpenLines(a + b)
  {
  }

  lemma HeadIsOpen(m: Meta)
    requires SingleLine(m)
    ensures OpenLines(HeadLines(m))
  {
    hide FieldLine, OpenLine, IntText, PlainKey, Format, Value;
    Keys();
    IntTextIsPlain(m.version);
    FieldIsOpen("id", m.id);
    FieldIsOpen("kind", m.kind);
    FieldIsOpen("version", IntText(m.version));
    FieldIsOpen("status", m.status);
    FieldIsOpen("title", m.title);
    FieldIsOpen("context", m.context);
    FieldIsOpen("mode", m.mode);
    FieldIsOpen("valid_until", m.validUntil);
    FormatIsPlain(m.createdAt);
    FormatIsPlain(m.updatedAt);
    FieldIsOpen("created_at", Format(m.createdAt));
    FieldIsOpen("updated_at", Format(m.updatedAt));
  }

  lemma MetaIsOpen(m: Meta)
    requires SingleLine(m)
    ensures OpenLines(MetaLines(m))
  {
    hide HeadLines, LinkLines;
    HeadIsOpen(m);
    if m.links != [] {
      LinksAreOpen(m.links);
      OpenAppend(["links:"], LinkLines(m.links));
    }
  }

  lemma BlankLastLine(c: Calendar, lines: seq<string>)
    ensures Steps(c, START, lines + [""]) == Steps(c, START, lines)
  {
    StepsAppend(c, START, lines, "");
    TrimIsTrimmed("");
  }

  /** What parsing a rendered artifact gives: its header lines are read as they stand in the text. */
  lemma ParseOfRender(c: Calendar, a: Artifact)
    ensures Parse(c, Render(a)) ==
              var parts := PartsOf(Unlines(MetaLines(a.meta)), Closed(a.body));
              match ParseFrontmatter(c, parts.front)
              case Err(e) => Err(e)
              case Ok(m) => Ok(Artifact(m, parts.body))
  {
    hide SplitFrontmatter, PartsOf, ParseFrontmatter, Unlines, MetaLines, Closed;
    UnlinesAreWhole(MetaLines(a.meta));
    SplitOfText(Unlines(MetaLines(a.meta)), Closed(a.body));
  }

  /** For an artifact without newlines in its fields that is field by field what was written, each cleaned. */
  lemma ParseOfSingleLines(c: Calendar, a: Artifact)
    requires SingleLine(a.meta)
    ensures Parse(c, Render(a)) ==
              if Value(a.meta.id) == "" then Err("missing id")
              else if !ValidKind(Value(a.meta.kind)) then Err("missing kind")
              else Ok(Artifact(ReadMeta(a.meta), TrimLeft(Closed(a.body), IsBreak)))
  {
    hide Steps, Value, ValidKind, MetaLines, SplitFrontmatter, SplitLines, Unlines, ReadMeta, Finish;
    var lines := MetaLines(a.meta);
    MetaIsOpen(a.meta);
    SplitOfRender(lines, Closed(a.body));
    SplitOfUnlines(lines);
    BlankLastLine(c, lines);
    MetaReads(c, a.meta);
  }

  predicate Plain(v: string) {
    Trim(v) == v && !Wrapped(v)
  }

  /** A value survives exactly if it is trimmed and not wrapped in a pair of quotes. */
  lemma ValueSurvivesIff(key: string, v: string)
    requires PlainKey(key)
    ensures ParseYamlLine(Trim(FieldLine(key, v))) == Some(Pair(key, v)) <==> Plain(v)
    ensures Value(v) == v <==> Plain(v)
  {
    hide Trim, PlainKey, ParseYamlLine;
    ReadsPair(key, v);
    TrimIsTrimmed(v);
  }

  /** A UTC time of a four-digit year, without a fraction. */
  predicate Survives(t: Time) {
    FourDigitYear(t) && t.offset == 0 && t.nanos == 0
  }

  /** Together with single-line fields, what a header must be like to come back unchanged; a caller can check it before
      rendering. */
  ghost predicate WellFormed(m: Meta) {
    && m.id != "" && Plain(m.id) && ValidKind(m.kind) && ValidStatus(m.status)
    && Plain(m.title) && Plain(m.context) && (m.mode == "" || ValidMode(m.mode)) && Plain(m.validUntil)
    && Survives(m.createdAt) && Survives(m.updatedAt)
    && forall l :: l in m.links ==> Trim(l.ref) == l.ref && Trim(l.relation) == l.relation
  }

  lemma WordsArePlain(v: string)
    requires ValidKind(v) || ValidStatus(v) || ValidMode(v)
    ensures Value(v) == v && v != ""
  {
    hide Trim, ValidKind, ValidStatus, ValidMode;
    WordEnds(v);
    TrimIsTrimmed(v);
  }

  lemma WordEnds(v: string)
    requires ValidKind(v) || ValidStatus(v) || ValidMode(v)
    ensures v != "" && IsLetter(v[0]) && IsLetter(v[|v| - 1])
  {
  }

  predicate IsLetter(ch: char) {
    'a' <= ch <= 'z' || 'A' <= ch <= 'Z'
  }

  lemma LinksSurviveIff(links: seq<Link>)
    ensures ReadLinks(links) == links <==> forall l :: l in links ==> Trim(l.ref) == l.ref && Trim(l.relation) == l.relation
  {
    hide Trim;
    if ReadLinks(links) == links {
      forall l | l in links ensures Trim(l.ref) == l.ref && Trim(l.relation) == l.relation {
        var i :| 0 <= i < |links| && links[i] == l;
        assert ReadLinks(links)[i] == links[i];
      }
    }
  }

  lemma StatusSurvivesIff(m: Meta)
    ensures OnlyIf(ValidStatus(Value(m.status)), Value(m.status), ACTIVE) == m.status <==> ValidStatus(m.status)
    ensures OnlyIf(ValidMode(Value(m.mode)), Value(m.mode), "") == m.mode <==> m.mode == "" || ValidMode(m.mode)
    ensures ValidKind(Value(m.kind)) && Value(m.kind) == m.kind <==> ValidKind(m.kind)
  {
    hide Value, ValidMode, ValidKind;
    EmptyValue();
    NoMode();
    if ValidStatus(m.status) {
      WordsArePlain(m.status);
    }
    if ValidMode(m.mode) {
      WordsArePlain(m.mode);
    }
    if ValidKind(m.kind) {
      WordsArePlain(m.kind);
    }
  }

  lemma SingleLineRoundTripIff(c: Calendar, a: Artifact)
    requires SingleLine(a.meta)
    ensures var r := Parse(c, Render(a)); r.Ok? && r.value.meta == a.meta <==> WellFormed(a.meta)
  {
    hide Parse, Render, Value, Trim, Wrapped, ValidKind, ValidStatus, ValidMode, ReadLinks, PlainKey, Reread;
    ParseOfSingleLines(c, a);
    var m := a.meta;
    Keys();
    ValueSurvivesIff("id", m.id);
    ValueSurvivesIff("id", m.title);
    ValueSurvivesIff("id", m.context);
    ValueSurvivesIff("id", m.validUntil);
    LinksSurviveIff(m.links);
    StatusSurvivesIff(m);
    TimeSurvivesIff(c, m.createdAt);
    TimeSurvivesIff(c, m.updatedAt);
  }

  // ---------------------------------------------------------------- fields with newlines

  lemma {:induction false} LineEndsOnce(s: string)
    ensures var n := LineLength(s); forall i :: 0 <= i < n - 1 ==> s[i] != '\n'
  {
    if s != [] && s[0] != '\n' {
      LineEndsOnce(s[1..]);
      assert forall i :: 0 < i < LineLength(s) - 1 ==> s[i] == s[1..][i - 1];
    }
  }

  lemma {:induction false} SplitLinesAreSingle(s: string)
    ensures forall line :: line in SplitLines(s) ==> '\n' !in line
    decreases |s|
  {
    hide LineLength;
    var n := LineLength(s);
    LineEndsOnce(s);
    if n == 0 || s[n - 1] != '\n' {
      assert n == |s|;
    } else {
      SplitLinesAreSingle(s[n..]);
    }
  }

  lemma {:induction false} TrimHoldsNoMore(s: string, ch: char)
    requires ch !in s
    ensures ch !in Trim(s)
    decreases |s|
  {
    hide IsSpace;
    if s != [] && IsSpace(s[0]) {
      TrimHoldsNoMore(s[1..], ch);
    } else if s != [] && IsSpace(s[|s| - 1]) {
      TrimHoldsNoMore(s[..|s| - 1], ch);
    }
  }

  lemma ValueHoldsNoMore(s: string, ch: char)
    requires ch !in s
    ensures ch !in Value(s)
  {
    hide Trim;
    TrimHoldsNoMore(s, ch);
  }

  ghost predicate SingleLink(l: Option<Link>) {
    l.Some? ==> '\n' !in l.value.ref && '\n' !in l.value.relation
  }

  ghost predicate SingleState(st: State) {
    SingleLine(st.meta) && SingleLink(st.current)
  }

  lemma SetFieldKeepsSingle(c: Calendar, m: Meta, key: string, value: string)
    requires SingleLine(m) && '\n' !in value
    ensures SingleLine(SetField(c, m, key, value))
  {
    hide ValidKind, ValidStatus, ValidMode, Atoi, TimeOr;
  }

  lemma LinkStepKeepsSingle(st: State, trimmed: string, indent: nat)
    requires SingleState(st) && '\n' !in trimmed
    ensures SingleState(LinkStep(st, trimmed, indent))
  {
    hide Trim;
    forall k | 0 <= k <= |trimmed| ensures '\n' !in Trim(trimmed[k..]) {
      TrimHoldsNoMore(trimmed[k..], '\n');
    }
  }

  lemma StepKeepsSingle(c: Calendar, st: State, line: string)
    requires SingleState(st) && '\n' !in line
    ensures SingleState(Step(c, st, line))
  {
    hide Trim, SetField, Unquote, ColonAt, LinkStep, Indent;
    var trimmed := Trim(line);
    TrimHoldsNoMore(line, '\n');
    LinkStepKeepsSingle(st, trimmed, Indent(line));
    var i := ColonAt(trimmed);
    if i.Some? {
      ValueHoldsNoMore(trimmed[i.value + 1..], '\n');
      SetFieldKeepsSingle(c, st.meta, Trim(trimmed[..i.value]), Value(trimmed[i.value + 1..]));
    }
  }

  lemma {:induction false} StepsKeepSingle(c: Calendar, lines: seq<string>)
    requires forall line :: line in lines ==> '\n' !in line
    ensures SingleState(Steps(c, START, lines))
    decreases |lines|
  {
    hide Step;
    if lines != [] {
      StepsKeepSingle(c, lines[..|lines| - 1]);
      assert lines[|lines| - 1] in lines;
      StepKeepsSingle(c, Steps(c, START, lines[..|lines| - 1]), lines[|lines| - 1]);
    }
  }

  /** Whatever the text, no parsed field holds a newline. */
  lemma ParsedIsSingle(c: Calendar, text: string)
    ensures var r := Parse(c, text); r.Ok? ==> SingleLine(r.value.meta)
  {
    hide Steps, SplitLines;
    var parts := SplitFrontmatter(text);
    if parts.Ok? {
      SplitLinesAreSingle(parts.value.front);
      StepsKeepSingle(c, SplitLines(parts.value.front));
    }
  }

  /** Parsing the rendered text returns the same header, links in order included, exactly when it is well formed and
      no field holds a newline. */
  lemma HeaderRoundTripIff(c: Calendar, a: Artifact)
    ensures var r := Parse(c, Render(a)); r.Ok? && r.value.meta == a.meta <==> WellFormed(a.meta) && SingleLine(a.meta)
  {
    hide Parse, Render, WellFormed;
    ParsedIsSingle(c, Render(a));
    if SingleLine(a.meta) {
      SingleLineRoundTripIff(c, a);
    }
  }

  // ---------------------------------------------------------------- a newline writes a field of its own

  /** The lines a title with a newline and a status behind it comes to. */
  function InjectedLines(m: Meta, title: string, status: string): seq<string> {
    LastLines(FirstLines(m) + [FieldLine("title", title)] + [FieldLine("status", status)], m)
    + if m.links == [] then [] else ["links:"] + LinkLines(m.links)
  }

  lemma InjectedHeadReads(c: Calendar, m: Meta, title: string, status: string)
    requires ValidStatus(status)
    ensures var lines := LastLines(FirstLines(m) + [FieldLine("title", title)] + [FieldLine("status", status)], m);
            Steps(c, START, lines) == State(ReadHead(m.(title := title, status := status)), false, None)
  {
    hide Steps, FieldLine, OptionalLine, Value, PlainKey, ValidKind, ValidStatus, ValidMode, SetField, Format, Reread;
    Keys();
    FirstReads(c, m);
    WordsArePlain(status);
    var first, read := FirstLines(m), ReadFirst(m);
    ReadsNext(c, START, first, "title", title);
    SetFields(c, read, Value(title));
    var second, titled := first + [FieldLine("title", title)], read.(title := Value(title));
    ReadsNext(c, START, second, "status", status);
    SetFields(c, titled, Value(status));
    LastReads(c, m, second + [FieldLine("status", status)], titled.(status := status));
  }

  /** The renderer writes the same text for the title with a newline as for two lines. */
  lemma InjectedText(m: Meta, title: string, status: string)
    ensures Unlines(MetaLines(m.(title := title + "\nstatus: " + status))) == Unlines(InjectedLines(m, title, status))
  {
    hide Unlines, FieldLine, OptionalLine, LinkLines, Format, IntText;
    var one := FieldLine("title", title + "\nstatus: " + status);
    var two := [FieldLine("title", title)] + [FieldLine("status", status)];
    var first := FirstLines(m);
    var last := LastLines([], m) + if m.links == [] then [] else ["links:"] + LinkLines(m.links);
    TitleLine(title, status);
    LastAfter(first + [one], m);
    LastAfter(first + two, m);
    OneTitleLine(title, status);
    assert MetaLines(m.(title := title + "\nstatus: " + status)) == first + [one] + last;
    assert first + [FieldLine("title", title)] + [FieldLine("status", status)] == first + two;
    assert InjectedLines(m, title, status) == first + two + last;
    UnlinesAppend(first + [one], last);
    UnlinesAppend(first, [one]);
    UnlinesAppend(first + two, last);
    UnlinesAppend(first, two);
  }

  lemma LastAfter(lines: seq<string>, m: Meta)
    ensures LastLines(lines, m) == lines + LastLines([], m)
  {
    hide FieldLine, OptionalLine, Format;
  }

  lemma OneTitleLine(title: string, status: string)
    ensures var t := title + "\nstatus: " + status; OptionalLine("title", t) == [FieldLine("title", t)]
  {
    hide FieldLine;
  }

  lemma TitleLine(title: string, status: string)
    ensures Unlines([FieldLine("title", title + "\nstatus: " + status)])
         == Unlines([FieldLine("title", title)] + [FieldLine("status", status)])
  {
    hide Unlines;
    var t, u := FieldLine("title", title), FieldLine("status", status);
    UnlinesOne(FieldLine("title", title + "\nstatus: " + status));
    UnlinesAppend([t], [u]);
    UnlinesOne(t);
    UnlinesOne(u);
    assert FieldLine("title", title + "\nstatus: " + status) == t + "\n" + u;
  }

  lemma InjectedIsOpen(m: Meta, title: string, status: string)
    requires SingleLine(m) && '\n' !in title && ValidStatus(status)
    ensures OpenLines(InjectedLines(m, title, status))
  {
    hide FieldLine, OptionalLine, Format, IntText, OpenLine, PlainKey, LinkLines, MetaLines;
    Keys();
    WordIsSingle(status);
    MetaIsOpen(m);
    FieldIsOpen("title", title);
    FieldIsOpen("status", status);
    OpenParts(m, title, status);
  }

  lemma WordIsSingle(v: string)
    requires ValidStatus(v)
    ensures '\n' !in v
  {
  }

  lemma OpenParts(m: Meta, title: string, status: string)
    requires OpenLines(MetaLines(m)) && OpenLine(FieldLine("title", title)) && OpenLine(FieldLine("status", status))
    ensures OpenLines(InjectedLines(m, title, status))
  {
    hide FieldLine, OptionalLine, Format, IntText, OpenLine, LinkLines;
    var links := if m.links == [] then [] else ["links:"] + LinkLines(m.links);
    var first := FirstLines(m);
    LastAfter(first + OptionalLine("title", m.title), m);
    LastAfter(first + [FieldLine("title", title)] + [FieldLine("status", status)], m);
    var kept := first + OptionalLine("title", m.title) + LastLines([], m) + links;
    assert MetaLines(m) == kept;
    forall line | line in first || line in LastLines([], m) || line in links ensures OpenLine(line) {
      assert line in kept;
    }
  }

  /** A title that ends in a newline and a status line changes the status of what is parsed. */
  lemma TitleRewritesStatus(c: Calendar, a: Artifact, status: string)
    requires WellFormed(a.meta) && SingleLine(a.meta) && ValidStatus(status)
    ensures var injected := a.(meta := a.meta.(title := a.meta.title + "\nstatus: " + status));
            var r := Parse(c, Render(injected));
            r.Ok? && r.value.meta == a.meta.(status := status)
  {
    hide Steps, Value, ValidKind, ValidStatus, MetaLines, SplitFrontmatter, SplitLines, Unlines, ReadMeta, InjectedLines, WellFormed;
    var m := a.meta;
    var lines := InjectedLines(m, m.title, status);
    InjectedText(m, m.title, status);
    InjectedIsOpen(m, m.title, status);
    SplitOfRender(lines, Closed(a.body));
    SplitOfUnlines(lines);
    BlankLastLine(c, lines);
    InjectedReads(c, m, m.title, status);
    WithStatusReads(c, a, status);
  }

  lemma InjectedReads(c: Calendar, m: Meta, title: string, status: string)
    requires ValidStatus(status)
    ensures Steps(c, START, InjectedLines(m, title, status)) == Steps(c, START, MetaLines(m.(title := title, status := status)))
  {
    hide Steps, FieldLine, OptionalLine, ValidStatus, HeadLines, LinkLines, LastLines, FirstLines, ReadHead;
    var read := m.(title := title, status := status);
    var head := LastLines(FirstLines(m) + [FieldLine("title", title)] + [FieldLine("status", status)], m);
    InjectedHeadReads(c, m, title, status);
    HeadReads(c, read);
    if m.links == [] {
      assert head + [] == head && HeadLines(read) + [] == HeadLines(read);
    } else {
      StepsFrom(c, head, HeadLines(read), ["links:"] + LinkLines(m.links));
    }
  }

  lemma {:induction false} StepsFrom(c: Calendar, a: seq<string>, b: seq<string>, rest: seq<string>)
    requires Steps(c, START, a) == Steps(c, START, b)
    ensures Steps(c, START, a + rest) == Steps(c, START, b + rest)
    decreases |rest|
  {
    hide Step;
    if rest == [] {
      assert a + rest == a && b + rest == b;
    } else {
      var init, last := rest[..|rest| - 1], rest[|rest| - 1];
      StepsFrom(c, a, b, init);
      StepsAppend(c, START, a + init, last);
      StepsAppend(c, START, b + init, last);
      assert a + rest == a + init + [last] && b + rest == b + init + [last];
    }
  }

  lemma WithStatusReads(c: Calendar, a: Artifact, status: string)
    requires WellFormed(a.meta) && SingleLine(a.meta) && ValidStatus(status)
    ensures Finish(Steps(c, START, MetaLines(a.meta.(status := status)))) == Ok(a.meta.(status := status))
  {
    hide Steps, Value, MetaLines, ReadMeta, Parse, Render, ValidStatus, ValidKind;
    var other := a.(meta := a.meta.(status := status));
    WordIsSingle(status);
    MetaReads(c, other.meta);
    ParseOfSingleLines(c, other);
    SingleLineRoundTripIff(c, other);
  }

  // ---------------------------------------------------------------- the body

  predicate StartsPlain(body: string) {
    body == "" || !IsBreak(body[0])
  }

  /** The body up to one final newline; an empty body stays empty. */
  function Settled(body: string): string {
    if body == "" then "" else Closed(body)
  }

  lemma BodySettles(body: string)
    ensures TrimLeft(Closed(body), IsBreak) == Settled(body) <==> StartsPlain(body)
    ensures Closed(Settled(body)) == Closed(body)
  {
    if body == "" {
      assert Closed(body) == "\n" && "\n"[1..] == "";
    } else {
      assert Closed(body)[0] == body[0];
    }
  }

  /** No line of the rendered header looks like the closing line. */
  predicate HeaderStaysOpen(m: Meta) {
    CloseAt(Unlines(MetaLines(m))).None?
  }

  lemma SingleLinesStayOpen(m: Meta)
    requires SingleLine(m)
    ensures HeaderStaysOpen(m)
  {
    hide MetaLines, Unlines, CloseAt;
    MetaIsOpen(m);
    OpenLinesHoldNoClose(MetaLines(m));
  }

  lemma {:induction false} TrimStopsAt(s: string, rest: string)
    requires rest != "" && !IsBreak(rest[0])
    ensures |TrimLeft(s + rest, IsBreak)| >= |rest|
    decreases |s|
  {
    if s != "" && IsBreak(s[0]) {
      assert (s + rest)[1..] == s[1..] + rest;
      TrimStopsAt(s[1..], rest);
    } else if s == "" {
      assert s + rest == rest;
    } else {
      assert (s + rest)[0] == s[0];
    }
  }

  lemma SettledIsShort(body: string)
    ensures |Settled(body)| <= |Closed(body)|
  {
  }

  /** For every artifact that parses, the body comes back up to a final newline exactly if it does not start with a
      line break and no line of the header looks like the closing line. */
  lemma BodyRoundTripIff(c: Calendar, a: Artifact)
    ensures var r := Parse(c, Render(a));
            r.Ok? ==> (r.value.body == Settled(a.body) <==> StartsPlain(a.body) && HeaderStaysOpen(a.meta))
  {
    hide Parse, Render, ParseFrontmatter, MetaLines, Unlines, Closed, Settled, LineLength, CloseAt, TrimLeft;
    ParseOfRender(c, a);
    BodySettles(a.body);
    SettledIsShort(a.body);
    var front := Unlines(MetaLines(a.meta));
    if CloseAt(front).Some? {
      var after := front[CloseAt(front).value..];
      var tail := "---\n\n" + Closed(a.body);
      assert after[LineLength(after)..] + "---\n\n" + Closed(a.body) == after[LineLength(after)..] + tail;
      TrimStopsAt(after[LineLength(after)..], tail);
    }
  }

  /** Parsing gives back the whole artifact, its body settled, exactly if the header is well formed and of single lines
      and the body does not start with a line break. */
  lemma RoundTripIff(c: Calendar, a: Artifact)
    ensures Parse(c, Render(a)) == Ok(Artifact(a.meta, Settled(a.body))) <==>
              WellFormed(a.meta) && SingleLine(a.meta) && StartsPlain(a.body)
  {
    hide Parse, Render, WellFormed, SingleLine, Closed, Settled, Value, ValidKind;
    HeaderRoundTripIff(c, a);
    if SingleLine(a.meta) {
      SingleLinesStayOpen(a.meta);
      BodyRoundTripIff(c, a);
    }
  }

  /** Parsing a rendered artifact and rendering the result gives the same text: a second save changes nothing. */
  lemma RenderTwice(c: Calendar, a: Artifact)
    requires SingleLine(a.meta) && WellFormed(a.meta) && StartsPlain(a.body)
    ensures var r := Parse(c, Render(a));
            r.Ok? && r.value == Artifact(a.meta, Settled(a.body)) && Render(r.value) == Render(a)
  {
    hide Parse, WellFormed, SingleLine, MetaLines, Unlines, Closed, Settled;
    RoundTripIff(c, a);
    BodySettles(a.body);
  }
}
