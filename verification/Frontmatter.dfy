/** The artifact file format: a frontmatter block of `key: value` lines with a links section, and a body. */
module Frontmatter {
  import opened Options
  import opened Text
  import Digits

  datatype Result<T> = Ok(value: T) | Err(message: string)

  // ---------------------------------------------------------------- times

  function DaysIn(year: int, month: int): int {
    if month == 2 then if year % 4 == 0 && (year % 100 != 0 || year % 400 == 0) then 29 else 28
    else if month == 4 || month == 6 || month == 9 || month == 11 then 30
    else 31
  }

  /** An instant as its zone's calendar and clock show it: `offset` is the zone's distance from UTC in seconds. */
  datatype CivilTime = CivilTime(year: int, month: nat, day: nat, hour: nat, minute: nat, second: nat, nanos: nat, offset: int)

  predicate IsTime(t: CivilTime) {
    && 1 <= t.month <= 12 && 1 <= t.day <= DaysIn(t.year, t.month)
    && t.hour < 24 && t.minute < 60 && t.second < 60 && t.nanos < 1000000000
  }

  const ZERO_TIME := CivilTime(1, 1, 1, 0, 0, 0, 0, 0)

  type Time = t: CivilTime | IsTime(t) witness ZERO_TIME

  /** Years are written with four digits or more, and a sign if they are negative. */
  function YearText(year: int): string {
    if year < 0 then "-" + Digits.Padded(-year, 4) else Digits.Padded(year, 4)
  }

  /** The layout writes date and time of the time's own zone, no fraction, and a literal Z. */
  function Format(t: Time): string {
    YearText(t.year) + "-" + Digits.Padded(t.month, 2) + "-" + Digits.Padded(t.day, 2)
    + "T" + Digits.Padded(t.hour, 2) + ":" + Digits.Padded(t.minute, 2) + ":" + Digits.Padded(t.second, 2) + "Z"
  }

  /** Both layouts that times are read by begin with a year of four digits. */
  predicate StartsWithYear(s: string) {
    |s| >= 5 && Digits.AllDigits(s[..4]) && s[4] == '-'
  }

  /** Date and time in UTC without a fraction. */
  predicate IsPlainTime(s: string) {
    && |s| == 20 && Digits.AllDigits(s[..4]) && Digits.AllDigits(s[5..7]) && Digits.AllDigits(s[8..10])
    && Digits.AllDigits(s[11..13]) && Digits.AllDigits(s[14..16]) && Digits.AllDigits(s[17..19])
    && s[4] == '-' && s[7] == '-' && s[10] == 'T' && s[13] == ':' && s[16] == ':' && s[19] == 'Z'
  }

  /** How any other form that begins with a year is read, such as one with a zone offset or a fraction. */
  datatype Calendar = Calendar(other: string -> Option<Time>)

  function ReadTime(c: Calendar, s: string): Option<Time> {
    if !StartsWithYear(s) then None
    else if !IsPlainTime(s) then c.other(s)
    else
      var t := CivilTime(Digits.Read(s[..4]), Digits.Read(s[5..7]), Digits.Read(s[8..10]),
                         Digits.Read(s[11..13]), Digits.Read(s[14..16]), Digits.Read(s[17..19]), 0, 0);
      if IsTime(t) then var time: Time := t; Some(time) else None
  }

  datatype Link = Link(ref: string, relation: string)

  /** Go's int is 64 bits wide. */
  type Int = n: int | -0x8000_0000_0000_0000 <= n < 0x8000_0000_0000_0000 witness 0

  datatype Meta = Meta(id: string, kind: string, version: Int, status: string, title: string, context: string,
                       mode: string, validUntil: string, createdAt: Time, updatedAt: Time, links: seq<Link>)

  datatype Artifact = Artifact(meta: Meta, body: string)

  predicate ValidKind(s: string) {
    || s == "Note" || s == "ProblemCard" || s == "SolutionPortfolio" || s == "DecisionRecord"
    || s == "WorkCommission" || s == "EvidencePack" || s == "RefreshReport"
  }

  const ACTIVE := "active"

  predicate ValidStatus(s: string) {
    s == ACTIVE || s == "addressed" || s == "superseded" || s == "deprecated" || s == "refresh_due"
  }

  predicate ValidMode(s: string) {
    s == "note" || s == "tactical" || s == "standard" || s == "deep"
  }

  // ---------------------------------------------------------------- whole numbers

  function IntText(n: int): string {
    if n < 0 then "-" + Digits.Render(-n) else Digits.Render(n)
  }

  predicate IsInt(n: int) {
    -0x8000_0000_0000_0000 <= n < 0x8000_0000_0000_0000
  }

  function Atoi(s: string): Option<Int> {
    var signed := s != [] && (s[0] == '-' || s[0] == '+');
    var digits := if signed then s[1..] else s;
    if digits == [] || !Digits.AllDigits(digits) then None
    else
      var n: int := if s[0] == '-' then 0 - Digits.Read(digits) else Digits.Read(digits);
      if IsInt(n) then var i: Int := n; Some(i) else None
  }

  // ---------------------------------------------------------------- rendering

  function FieldLine(key: string, value: string): string {
    key + ": " + value
  }

  function OptionalLine(key: string, value: string): seq<string> {
    if value == "" then [] else [FieldLine(key, value)]
  }

  function LinkLines(links: seq<Link>): seq<string> {
    if links == [] then []
    else
      LinkLines(links[..|links| - 1])
      + ["  - ref: " + links[|links| - 1].ref, "    type: " + links[|links| - 1].relation]
  }

  function HeadLines(m: Meta): seq<string> {
    [] + [FieldLine("id", m.id)] + [FieldLine("kind", m.kind)]
    + [FieldLine("version", IntText(m.version))] + [FieldLine("status", m.status)]
    + OptionalLine("title", m.title) + OptionalLine("context", m.context) + OptionalLine("mode", m.mode)
    + OptionalLine("valid_until", m.validUntil)
    + [FieldLine("created_at", Format(m.createdAt))] + [FieldLine("updated_at", Format(m.updatedAt))]
  }

  function MetaLines(m: Meta): seq<string> {
    HeadLines(m) + if m.links == [] then [] else ["links:"] + LinkLines(m.links)
  }

  function Unlines(lines: seq<string>): string {
    if lines == [] then "" else Unlines(lines[..|lines| - 1]) + lines[|lines| - 1] + "\n"
  }

  function Closed(body: string): string {
    if body != [] && body[|body| - 1] == '\n' then body else body + "\n"
  }

  function Render(a: Artifact): string {
    "---\n" + Unlines(MetaLines(a.meta)) + "---\n\n" + Closed(a.body)
  }

  lemma {:induction false} UnlinesAppend(a: seq<string>, b: seq<string>)
    ensures Unlines(a + b) == Unlines(a) + Unlines(b)
    decreases |b|
  {
    if b == [] {
      assert a + b == a;
    } else {
      UnlinesAppend(a, b[..|b| - 1]);
      assert (a + b)[..|a + b| - 1] == a + b[..|b| - 1];
    }
  }

  lemma UnlinesOne(line: string)
    ensures Unlines([line]) == line + "\n"
  {
    assert Unlines([line][..0]) == "";
  }

  lemma NoLines()
    ensures Unlines([]) == ""
  {
  }

  method RenderArtifactFile(a: Artifact) returns (text: string)
    ensures text == Render(a)
  {
    hide IntText, FieldLine, OptionalLine, Unlines, LinkLines;
    var m := a.meta;
    var sb := "";
    ghost var lines: seq<string> := [];
    NoLines();
    sb, lines := WriteField(sb, lines, "id", m.id);
    sb, lines := WriteField(sb, lines, "kind", m.kind);
    sb, lines := WriteField(sb, lines, "version", IntText(m.version));
    sb, lines := WriteField(sb, lines, "status", m.status);
    sb, lines := WriteOptional(sb, lines, "title", m.title);
    sb, lines := WriteOptional(sb, lines, "context", m.context);
    sb, lines := WriteOptional(sb, lines, "mode", m.mode);
    sb, lines := WriteOptional(sb, lines, "valid_until", m.validUntil);
    sb, lines := WriteField(sb, lines, "created_at", Format(m.createdAt));
    sb, lines := WriteField(sb, lines, "updated_at", Format(m.updatedAt));
    assert lines == HeadLines(m);
    sb := WriteLinks(sb, lines, m.links);
    text := "---\n" + sb + "---\n\n" + a.body;
    if a.body == [] || a.body[|a.body| - 1] != '\n' {
      text := text + "\n";
    }
  }

  method WriteField(before: string, ghost lines0: seq<string>, key: string, value: string)
    returns (sb: string, ghost lines: seq<string>)
    requires before == Unlines(lines0)
    ensures lines == lines0 + [FieldLine(key, value)] && sb == Unlines(lines)
  {
    sb, lines := before + FieldLine(key, value) + "\n", lines0 + [FieldLine(key, value)];
  }

  method WriteOptional(before: string, ghost lines0: seq<string>, key: string, value: string)
    returns (sb: string, ghost lines: seq<string>)
    requires before == Unlines(lines0)
    ensures lines == lines0 + OptionalLine(key, value) && sb == Unlines(lines)
  {
    sb, lines := before, lines0;
    if value != "" {
      sb, lines := WriteField(before, lines0, key, value);
    }
  }

  function LinkText(l: Link): string {
    "  - ref: " + l.ref + "\n" + "    type: " + l.relation + "\n"
  }

  lemma UnlinesLink(lines: seq<string>, links: seq<Link>, i: nat)
    requires i < |links|
    ensures Unlines(lines + LinkLines(links[..i + 1])) == Unlines(lines + LinkLines(links[..i])) + LinkText(links[i])
  {
    hide Unlines;
    var ref, relation := "  - ref: " + links[i].ref, "    type: " + links[i].relation;
    assert links[..i + 1][..i] == links[..i];
    assert lines + LinkLines(links[..i + 1]) == lines + LinkLines(links[..i]) + ([ref] + [relation]);
    UnlinesAppend(lines + LinkLines(links[..i]), [ref] + [relation]);
    UnlinesAppend([ref], [relation]);
    UnlinesOne(ref);
    UnlinesOne(relation);
  }

  method WriteLinks(before: string, ghost lines: seq<string>, links: seq<Link>) returns (sb: string)
    requires before == Unlines(lines)
    ensures sb == Unlines(lines + if links == [] then [] else ["links:"] + LinkLines(links))
  {
    hide Unlines, LinkLines;
    sb := before;
    if |links| > 0 {
      sb := sb + "links:\n";
      ghost var head := lines + ["links:"];
      UnlinesAppend(lines, ["links:"]);
      UnlinesOne("links:");
      NoLinks(head, links);
      for i := 0 to |links|
        invariant sb == Unlines(head + LinkLines(links[..i]))
      {
        UnlinesLink(head, links, i);
        sb := sb + LinkText(links[i]);
      }
      assert links[..|links|] == links;
      assert lines + (["links:"] + LinkLines(links)) == head + LinkLines(links);
    } else {
      assert lines + [] == lines;
    }
  }

  lemma NoLinks(head: seq<string>, links: seq<Link>)
    ensures head + LinkLines(links[..0]) == head
  {
    assert links[..0] == [];
  }

  // ---------------------------------------------------------------- splitting

  predicate IsBreak(ch: char) {
    ch == '\n' || ch == '\r'
  }

  predicate IsBreakOrBlank(ch: char) {
    ch == '\n' || ch == '\r' || ch == ' '
  }

  predicate IsBlankOrTab(ch: char) {
    ch == ' ' || ch == '\t'
  }

  /** How long the first line is, its newline included. */
  function LineLength(s: string): (n: nat)
    ensures n <= |s| && (s != [] ==> n > 0)
    ensures n < |s| ==> s[n - 1] == '\n'
  {
    if s == [] then 0 else if s[0] == '\n' then 1 else 1 + LineLength(s[1..])
  }

  predicate Closes(line: string) {
    TrimRight(line, IsBreak) == "---"
  }

  /** Where the first closing line starts. */
  function CloseAt(s: string): (r: Option<nat>)
    ensures r.Some? ==> r.value <= |s|
  {
    var n := LineLength(s);
    if Closes(s[..n]) then Some(0)
    else if n == |s| then None
    else
      var rest := CloseAt(s[n..]);
      if rest.None? then None else Some(n + rest.value)
  }

  function AfterOpening(s: string): string {
    var rest := TrimLeft(s, IsBlankOrTab);
    if rest != [] && rest[0] == '\n' then rest[1..]
    else if |rest| > 1 && rest[0] == '\r' && rest[1] == '\n' then rest[2..]
    else rest
  }

  datatype Parts = Parts(front: string, body: string)

  function SplitFrontmatter(text: string): Result<Parts> {
    var content := TrimLeft(text, IsBreakOrBlank);
    if !("---" <= content) then Err("no opening")
    else
      var rest := AfterOpening(content[3..]);
      var end := CloseAt(rest);
      if end.None? then Err("no closing")
      else
        var afterClose := rest[end.value..];
        Ok(Parts(rest[..end.value], TrimLeft(afterClose[LineLength(afterClose)..], IsBreak)))
  }

  function Shifted(r: Option<nat>, start: nat): Option<nat> {
    if r.None? then None else Some(start + r.value)
  }

  lemma CloseStep(s: string, offset: nat)
    requires offset <= |s|
    ensures var n := LineLength(s[offset..]);
            CloseAt(s[offset..]) ==
              if Closes(s[offset..offset + n]) then Some(0)
              else if offset + n == |s| then None
              else Shifted(CloseAt(s[offset + n..]), n)
  {
    hide Closes, LineLength;
    var n := LineLength(s[offset..]);
    assert s[offset..][n..] == s[offset + n..] && s[offset..][..n] == s[offset..offset + n];
  }

  /** Looks at one line after the other, keeping the offset it starts at. */
  method FindClose(s: string) returns (end: Option<nat>)
    ensures end == CloseAt(s)
  {
    hide Closes, CloseAt, LineLength;
    var offset := 0;
    assert s[0..] == s;
    while true
      invariant offset <= |s|
      invariant CloseAt(s) == Shifted(CloseAt(s[offset..]), offset)
      decreases |s| - offset
    {
      CloseStep(s, offset);
      var n := LineLength(s[offset..]);
      if Closes(s[offset..offset + n]) {
        return Some(offset);
      }
      if offset + n == |s| {
        return None;
      }
      offset := offset + n;
    }
  }

  method SplitFrontmatterText(text: string) returns (r: Result<Parts>)
    ensures r == SplitFrontmatter(text)
  {
    hide CloseAt, LineLength;
    var content := TrimLeft(text, IsBreakOrBlank);
    if !("---" <= content) {
      return Err("no opening");
    }
    var rest := TrimLeft(content[3..], IsBlankOrTab);
    if |rest| > 0 && rest[0] == '\n' {
      rest := rest[1..];
    } else if |rest| > 1 && rest[0] == '\r' && rest[1] == '\n' {
      rest := rest[2..];
    }
    var end := FindClose(rest);
    if end.None? {
      return Err("no closing");
    }
    var afterClose := rest[end.value..];
    r := Ok(Parts(rest[..end.value], TrimLeft(afterClose[LineLength(afterClose)..], IsBreak)));
  }

  // ---------------------------------------------------------------- parsing

  function Quoted(v: string, q: char): bool {
    |v| >= 2 && v[0] == q && v[|v| - 1] == q
  }

  predicate Wrapped(v: string) {
    Quoted(v, '"') || Quoted(v, '\'')
  }

  function Unquote(v: string): string {
    if Wrapped(v) then v[1..|v| - 1] else v
  }

  /** What a rendered value reads back as. */
  function Value(v: string): string {
    Unquote(Trim(v))
  }

  function ColonAt(s: string): (r: Option<nat>)
    ensures r.Some? ==> r.value < |s| && s[r.value] == ':' && ':' !in s[..r.value]
    ensures r.None? ==> ':' !in s
  {
    if s == [] then None
    else if s[0] == ':' then Some(0)
    else
      var rest := ColonAt(s[1..]);
      assert s == [s[0]] + s[1..];
      if rest.None? then None
      else
        assert s[..1 + rest.value] == [s[0]] + s[1..][..rest.value];
        Some(1 + rest.value)
  }

  datatype Pair = Pair(key: string, value: string)

  function ParseYamlLine(line: string): Option<Pair> {
    var i := ColonAt(line);
    if i.None? then None else Some(Pair(Trim(line[..i.value]), Value(line[i.value + 1..])))
  }

  function TimeOr(c: Calendar, value: string, otherwise: Time): Time {
    var t := ReadTime(c, value);
    if t.Some? then t.value else otherwise
  }

  function SetField(c: Calendar, m: Meta, key: string, value: string): Meta {
    if key == "id" then m.(id := value)
    else if key == "kind" then if ValidKind(value) then m.(kind := value) else m
    else if key == "version" then var v := Atoi(value); if v.Some? then m.(version := v.value) else m
    else if key == "status" then if ValidStatus(value) then m.(status := value) else m
    else if key == "context" then m.(context := value)
    else if key == "mode" then if ValidMode(value) then m.(mode := value) else m
    else if key == "title" then m.(title := value)
    else if key == "valid_until" then m.(validUntil := value)
    else if key == "created_at" then m.(createdAt := TimeOr(c, value, m.createdAt))
    else if key == "updated_at" then m.(updatedAt := TimeOr(c, value, m.updatedAt))
    else m
  }

  datatype State = State(meta: Meta, inLinks: bool, current: Option<Link>)

  const NO_META := Meta("", "", 1, ACTIVE, "", "", "", "", ZERO_TIME, ZERO_TIME, [])

  function Indent(line: string): nat {
    |line| - |TrimLeft(line, ch => ch == ' ')|
  }

  function Flushed(m: Meta, current: Option<Link>): Meta {
    if current.Some? then m.(links := m.links + [current.value]) else m
  }

  function LinkStep(st: State, trimmed: string, indent: nat): State {
    if "- ref:" <= trimmed then State(Flushed(st.meta, st.current), true, Some(Link(Trim(trimmed[6..]), "")))
    else if "ref:" <= trimmed && indent > 2 then
      State(st.meta, true, Some(Link(Trim(trimmed[4..]), if st.current.Some? then st.current.value.relation else "")))
    else if "type:" <= trimmed && st.current.Some? then
      State(st.meta, true, Some(st.current.value.(relation := Trim(trimmed[5..]))))
    else st
  }

  function FieldStep(c: Calendar, st: State, trimmed: string): State {
    if trimmed == "links:" then st.(inLinks := true)
    else
      var pair := ParseYamlLine(trimmed);
      if pair.None? then st else st.(meta := SetField(c, st.meta, pair.value.key, pair.value.value))
  }

  /** What one line of the frontmatter does. */
  function Step(c: Calendar, st: State, line: string): State {
    var trimmed := Trim(line);
    if trimmed == "" then st
    else
      var leaves := Indent(line) == 0 && trimmed != "links:" && !("- " <= trimmed);
      var inLinks := st.inLinks && !leaves;
      if inLinks then LinkStep(st, trimmed, Indent(line)) else FieldStep(c, st.(inLinks := false), trimmed)
  }

  function Steps(c: Calendar, st: State, lines: seq<string>): State {
    if lines == [] then st else Step(c, Steps(c, st, lines[..|lines| - 1]), lines[|lines| - 1])
  }

  function SplitLines(s: string): (lines: seq<string>)
    ensures lines != []
  {
    var n := LineLength(s);
    if n == 0 || s[n - 1] != '\n' then [s]
    else [s[..n - 1]] + SplitLines(s[n..])
  }

  function Finish(st: State): Result<Meta> {
    var m := if st.inLinks then Flushed(st.meta, st.current) else st.meta;
    if m.id == "" then Err("missing id") else if m.kind == "" then Err("missing kind") else Ok(m)
  }

  function ParseFrontmatter(c: Calendar, front: string): Result<Meta> {
    Finish(Steps(c, State(NO_META, false, None), SplitLines(front)))
  }

  function Parse(c: Calendar, text: string): Result<Artifact> {
    match SplitFrontmatter(text)
    case Err(e) => Err(e)
    case Ok(parts) =>
      match ParseFrontmatter(c, parts.front)
      case Err(e) => Err(e)
      case Ok(m) => Ok(Artifact(m, parts.body))
  }

  /** Reads the lines one after the other, inside or outside the links section. */
  method ParseFrontmatterLines(c: Calendar, front: string) returns (r: Result<Meta>)
    ensures r == ParseFrontmatter(c, front)
  {
    hide SplitLines, Trim, SetField, ParseYamlLine, Indent;
    var lines := SplitLines(front);
    var meta := NO_META;
    var inLinks := false;
    var currentLink: Option<Link> := None;
    for i := 0 to |lines|
      invariant State(meta, inLinks, currentLink) == Steps(c, State(NO_META, false, None), lines[..i])
    {
      assert lines[..i + 1][..i] == lines[..i];
      var trimmed := Trim(lines[i]);
      if trimmed != "" {
        var indent := Indent(lines[i]);
        if indent == 0 && trimmed != "links:" && !("- " <= trimmed) {
          inLinks := false;
        }
        if inLinks {
          if "- ref:" <= trimmed {
            if currentLink.Some? {
              meta := meta.(links := meta.links + [currentLink.value]);
            }
            currentLink := Some(Link(Trim(trimmed[6..]), ""));
          } else if "ref:" <= trimmed && indent > 2 {
            if currentLink.None? {
              currentLink := Some(Link("", ""));
            }
            currentLink := Some(currentLink.value.(ref := Trim(trimmed[4..])));
          } else if "type:" <= trimmed {
            if currentLink.Some? {
              currentLink := Some(currentLink.value.(relation := Trim(trimmed[5..])));
            }
          }
        } else if trimmed == "links:" {
          inLinks := true;
        } else {
          var pair := ParseYamlLine(trimmed);
          if pair.Some? {
            meta := SetField(c, meta, pair.value.key, pair.value.value);
          }
        }
      }
    }
    assert lines[..|lines|] == lines;
    if inLinks && currentLink.Some? {
      meta := meta.(links := meta.links + [currentLink.value]);
    }
    r := if meta.id == "" then Err("missing id") else if meta.kind == "" then Err("missing kind") else Ok(meta);
  }

  method ParseFile(c: Calendar, text: string) returns (r: Result<Artifact>)
    ensures r == Parse(c, text)
  {
    hide SplitFrontmatter, ParseFrontmatter;
    var parts := SplitFrontmatterText(text);
    if parts.Err? {
      return Err(parts.message);
    }
    var meta := ParseFrontmatterLines(c, parts.value.front);
    r := match meta
      case Err(e) => Err(e)
      case Ok(m) => Ok(Artifact(m, parts.value.body));
  }
}
