/** The artifact file in words: what is written, what a short header means, which dates there are. */
module FileText {
  import opened Options
  import opened Text
  import opened Frontmatter
  import opened TimeText
  import opened FrontmatterRoundTrip
  import Digits

  // ---------------------------------------------------------------- what is written

  /** A line left out if there is nothing to say. */
  function Optional(key: string, value: string): string {
    if value == "" then "" else key + value + "\n"
  }

  function LinksText(links: seq<Link>): string {
    if links == [] then ""
    else
      var last := links[|links| - 1];
      LinksText(links[..|links| - 1]) + "  - ref: " + last.ref + "\n" + "    type: " + last.relation + "\n"
  }

  function HeaderText(m: Meta): string {
    "id: " + m.id + "\n" + "kind: " + m.kind + "\n" + "version: " + IntText(m.version) + "\n" + "status: " + m.status + "\n"
    + Optional("title: ", m.title) + Optional("context: ", m.context) + Optional("mode: ", m.mode)
    + Optional("valid_until: ", m.validUntil)
    + "created_at: " + Format(m.createdAt) + "\n" + "updated_at: " + Format(m.updatedAt) + "\n"
    + if m.links == [] then "" else "links:\n" + LinksText(m.links)
  }

  lemma {:induction false} LinesOfLinks(links: seq<Link>)
    ensures Unlines(LinkLines(links)) == LinksText(links)
    decreases |links|
  {
    hide Unlines;
    NoLines();
    if links != [] {
      var init, last := links[..|links| - 1], links[|links| - 1];
      LinesOfLinks(init);
      var ref, relation := "  - ref: " + last.ref, "    type: " + last.relation;
      assert LinkLines(links) == LinkLines(init) + ([ref] + [relation]);
      UnlinesAppend(LinkLines(init), [ref] + [relation]);
      UnlinesAppend([ref], [relation]);
      UnlinesOne(ref);
      UnlinesOne(relation);
    }
  }

  lemma LineAdds(lines: seq<string>, key: string, value: string)
    ensures Unlines(lines + [FieldLine(key, value)]) == Unlines(lines) + (key + ": ") + value + "\n"
  {
    hide Unlines;
    UnlinesAppend(lines, [FieldLine(key, value)]);
    UnlinesOne(FieldLine(key, value));
  }

  lemma OptionalAdds(lines: seq<string>, key: string, value: string)
    ensures Unlines(lines + OptionalLine(key, value)) == Unlines(lines) + Optional(key + ": ", value)
  {
    hide Unlines, FieldLine;
    if value == "" {
      assert lines + [] == lines;
    } else {
      LineAdds(lines, key, value);
    }
  }

  lemma FirstText(m: Meta)
    ensures Unlines(FirstLines(m)) ==
              "id: " + m.id + "\n" + "kind: " + m.kind + "\n" + "version: " + IntText(m.version) + "\n" + "status: " + m.status + "\n"
  {
    hide Unlines, FieldLine, IntText;
    NoLines();
    var l0: seq<string> := [];
    LineAdds(l0, "id", m.id);
    LineAdds(l0 + [FieldLine("id", m.id)], "kind", m.kind);
    LineAdds(l0 + [FieldLine("id", m.id)] + [FieldLine("kind", m.kind)], "version", IntText(m.version));
    LineAdds(l0 + [FieldLine("id", m.id)] + [FieldLine("kind", m.kind)] + [FieldLine("version", IntText(m.version))],
             "status", m.status);
  }

  lemma HeadText(m: Meta)
    ensures Unlines(HeadLines(m)) ==
              Unlines(FirstLines(m))
              + Optional("title: ", m.title) + Optional("context: ", m.context) + Optional("mode: ", m.mode)
              + Optional("valid_until: ", m.validUntil)
              + "created_at: " + Format(m.createdAt) + "\n" + "updated_at: " + Format(m.updatedAt) + "\n"
  {
    hide Unlines, FieldLine, IntText, OptionalLine, Optional, Format;
    var l0 := FirstLines(m);
    var l1 := l0 + OptionalLine("title", m.title);
    var l2 := l1 + OptionalLine("context", m.context);
    var l3 := l2 + OptionalLine("mode", m.mode);
    var l4 := l3 + OptionalLine("valid_until", m.validUntil);
    var l5 := l4 + [FieldLine("created_at", Format(m.createdAt))];
    OptionalAdds(l0, "title", m.title);
    OptionalAdds(l1, "context", m.context);
    OptionalAdds(l2, "mode", m.mode);
    OptionalAdds(l3, "valid_until", m.validUntil);
    LineAdds(l4, "created_at", Format(m.createdAt));
    LineAdds(l5, "updated_at", Format(m.updatedAt));
    assert "title" + ": " == "title: " && "context" + ": " == "context: " && "mode" + ": " == "mode: ";
    assert "valid_until" + ": " == "valid_until: " && "created_at" + ": " == "created_at: " && "updated_at" + ": " == "updated_at: ";
    assert HeadLines(m) == l5 + [FieldLine("updated_at", Format(m.updatedAt))];
  }

  /** The whole text of an artifact file. */
  lemma RenderedText(a: Artifact)
    ensures var closed := if a.body != "" && a.body[|a.body| - 1] == '\n' then a.body else a.body + "\n";
            Render(a) == "---\n" + HeaderText(a.meta) + "---\n\n" + closed
  {
    hide Unlines, IntText, Optional, Format, HeadLines, FirstLines;
    var m := a.meta;
    FirstText(m);
    HeadText(m);
    LinesOfLinks(m.links);
    UnlinesAppend(HeadLines(m), if m.links == [] then [] else ["links:"] + LinkLines(m.links));
    UnlinesAppend(["links:"], LinkLines(m.links));
    UnlinesOne("links:");
    NoLines();
  }

  // ---------------------------------------------------------------- what comes back

  /** No white space at the ends, and no quotes of one kind around it. */
  predicate Bare(v: string) {
    Trim(v) == v && !(|v| >= 2 && v[0] == v[|v| - 1] && v[0] in {'"', '\''})
  }

  predicate IsKind(kind: string) {
    kind in {"Note", "ProblemCard", "SolutionPortfolio", "DecisionRecord", "WorkCommission", "EvidencePack", "RefreshReport"}
  }

  /** A header that comes back unchanged, in words. */
  lemma WellFormedInWords(m: Meta)
    ensures WellFormed(m) <==>
              && m.id != "" && Bare(m.id) && Bare(m.title) && Bare(m.context) && Bare(m.validUntil)
              && IsKind(m.kind) && m.status in {"active", "addressed", "superseded", "deprecated", "refresh_due"}
              && m.mode in {"", "note", "tactical", "standard", "deep"}
              && 0 <= m.createdAt.year <= 9999 && m.createdAt.offset == 0 && m.createdAt.nanos == 0
              && 0 <= m.updatedAt.year <= 9999 && m.updatedAt.offset == 0 && m.updatedAt.nanos == 0
              && forall l :: l in m.links ==> Trim(l.ref) == l.ref && Trim(l.relation) == l.relation
  {
    hide Trim;
  }

  /** A value in quotes of either kind reads as what is between them, blanks included. */
  lemma QuotedReads(v: string)
    ensures Value("\"" + v + "\"") == v && Value("'" + v + "'") == v
    ensures Value(" \"" + v + "\"\t") == v
  {
    hide Trim;
    var s, t := "\"" + v + "\"", "'" + v + "'";
    TrimIsTrimmed(s);
    TrimIsTrimmed(t);
    TrimUnique(" ", s, "\t");
    assert " \"" + v + "\"\t" == " " + s + "\t";
    assert s[1..|s| - 1] == v && t[1..|t| - 1] == v;
  }

  function ShortLines(id: string, kind: string): seq<string> {
    [] + [FieldLine("id", id)] + [FieldLine("kind", kind)]
  }

  /** What is held when an identifier and a kind alone were read. */
  function ShortMeta(id: string, kind: string): Meta {
    var none := CivilTime(1, 1, 1, 0, 0, 0, 0, 0);
    Meta(id, kind, 1, "active", "", "", "", "", none, none, [])
  }

  lemma ShortSteps(c: Calendar, id: string, kind: string)
    requires Bare(id) && IsKind(kind)
    ensures Steps(c, START, ShortLines(id, kind)) == State(ShortMeta(id, kind), false, None)
  {
    hide FieldLine, SetField, Value, PlainKey, ValidKind, Bare, IsKind;
    var l1 := [] + [FieldLine("id", id)];
    assert Steps(c, START, []) == START;
    Keys();
    ReadsNext(c, START, [], "id", id);
    ReadsNext(c, START, l1, "kind", kind);
    BareReads(id);
    KindReads(kind);
    SetFields(c, NO_META, id);
    SetFields(c, NO_META.(id := id), kind);
  }

  lemma ShortText(id: string, kind: string)
    ensures Unlines(ShortLines(id, kind)) == "id: " + id + "\n" + "kind: " + kind + "\n"
  {
    hide Unlines, FieldLine;
    NoLines();
    LineAdds([], "id", id);
    LineAdds([] + [FieldLine("id", id)], "kind", kind);
  }

  lemma ShortFront(c: Calendar, id: string, kind: string)
    requires '\n' !in id && id != "" && Bare(id) && IsKind(kind)
    ensures ParseFrontmatter(c, Unlines(ShortLines(id, kind))) == Ok(ShortMeta(id, kind))
  {
    hide Unlines, SplitLines, Steps, ShortLines, Value, ValidKind, Bare;
    KindReads(kind);
    ShortLinesAreOpen(id, kind);
    SplitOfUnlines(ShortLines(id, kind));
    BlankLastLine(c, ShortLines(id, kind));
    ShortSteps(c, id, kind);
  }

  /** A header of an identifier and a kind alone: version 1, active, no times, no links, and the rest empty. */
  lemma ShortHeader(c: Calendar, id: string, kind: string, body: string)
    requires '\n' !in id && id != "" && Bare(id) && IsKind(kind) && body != "" && body[0] !in {'\n', '\r'}
    ensures var none := CivilTime(1, 1, 1, 0, 0, 0, 0, 0);
            Parse(c, "---\n" + ("id: " + id + "\n" + "kind: " + kind + "\n") + "---\n\n" + body)
            == Ok(Artifact(Meta(id, kind, 1, "active", "", "", "", "", none, none, []), body))
  {
    hide SplitFrontmatter, ParseFrontmatter, Unlines, ShortLines, Value, ValidKind, Bare, IsKind, OpenLines;
    KindReads(kind);
    ShortText(id, kind);
    ShortLinesAreOpen(id, kind);
    SplitOfRender(ShortLines(id, kind), body);
    ShortFront(c, id, kind);
  }

  lemma ShortLinesAreOpen(id: string, kind: string)
    requires '\n' !in id && '\n' !in kind
    ensures OpenLines(ShortLines(id, kind))
  {
    hide OpenLine, FieldLine;
    Keys();
    FieldIsOpen("id", id);
    FieldIsOpen("kind", kind);
  }

  lemma BareReads(v: string)
    requires Bare(v)
    ensures Value(v) == v
  {
    hide Trim;
  }

  lemma KindReads(kind: string)
    requires IsKind(kind)
    ensures Value(kind) == kind && ValidKind(kind) && '\n' !in kind
  {
    hide Value;
    WordsArePlain(kind);
  }

  // ---------------------------------------------------------------- files written by hand

  lemma {:induction false} TrimLeftStops(lead: string, s: string, cut: char -> bool)
    requires (forall i :: 0 <= i < |lead| ==> cut(lead[i])) && (s == "" || !cut(s[0]))
    ensures TrimLeft(lead + s, cut) == s
    decreases |lead|
  {
    if lead == "" {
      assert lead + s == s;
    } else {
      assert (lead + s)[0] == lead[0] && (lead + s)[1..] == lead[1..] + s;
      TrimLeftStops(lead[1..], s, cut);
    }
  }

  lemma OpeningIsLoose(blanks: string, newline: string, rest: string)
    requires (forall i :: 0 <= i < |blanks| ==> blanks[i] in {' ', '\t'}) && newline in {"\n", "\r\n"}
    ensures AfterOpening(blanks + (newline + rest)) == rest
  {
    var s := newline + rest;
    assert s[0] == newline[0] && (newline == "\r\n" ==> s[1] == '\n');
    TrimLeftStops(blanks, s, IsBlankOrTab);
  }

  /** Line breaks and blanks before the opening line, blanks and tabs behind its dashes, and a carriage return at its end
      make no difference. */
  lemma LooseOpening(lead: string, blanks: string, newline: string, rest: string)
    requires forall i :: 0 <= i < |lead| ==> lead[i] in {'\n', '\r', ' '}
    requires (forall i :: 0 <= i < |blanks| ==> blanks[i] in {' ', '\t'}) && newline in {"\n", "\r\n"}
    ensures SplitFrontmatter(lead + ("---" + (blanks + (newline + rest)))) == SplitFrontmatter("---\n" + rest)
  {
    hide CloseAt, LineLength, AfterOpening, TrimLeft;
    var opening := "---" + (blanks + (newline + rest));
    assert opening[0] == '-' && opening[3..] == blanks + (newline + rest);
    TrimLeftStops(lead, opening, IsBreakOrBlank);
    OpeningIsLoose(blanks, newline, rest);
    Opening(rest);
  }

  /** The lines of a header whose last field stands behind the links. */
  function FieldLast(m: Meta, title: string): seq<string> {
    HeadLines(m) + ["links:"] + LinkLines(m.links) + [FieldLine("title", title)]
  }

  lemma FieldLastReads(c: Calendar, m: Meta, title: string)
    requires m.links != []
    ensures Finish(Steps(c, START, FieldLast(m, title))) ==
              if Value(m.id) == "" then Err("missing id")
              else if !ValidKind(Value(m.kind)) then Err("missing kind")
              else Ok(ReadHead(m).(title := Value(title), links := ReadLinks(m.links[..|m.links| - 1])))
  {
    hide Steps, Step, Trim, Unquote, ValidStatus, ValidMode, HeadLines, LinkLines, PlainKey, SetField;
    HeadReads(c, m);
    var head, read := HeadLines(m), ReadHead(m);
    StepsAppend(c, START, head, "links:");
    ReadsLinks(c, State(read, false, None));
    LinksRead(c, read, head + ["links:"], m.links);
    Keys();
    var before := head + ["links:"] + LinkLines(m.links);
    ReadsNext(c, START, before, "title", title);
    SetFields(c, AfterLinks(read, m.links).meta, Value(title));
  }

  /** A field behind the links costs the header its last link. */
  lemma FieldBehindLinksLosesOne(c: Calendar, a: Artifact, title: string)
    requires SingleLine(a.meta) && WellFormed(a.meta) && a.meta.links != [] && '\n' !in title && Bare(title)
    ensures Parse(c, "---\n" + Unlines(FieldLast(a.meta, title)) + "---\n\n" + a.body)
            == Ok(Artifact(a.meta.(title := title, links := a.meta.links[..|a.meta.links| - 1]), TrimLeft(a.body, IsBreak)))
  {
    hide SplitFrontmatter, SplitLines, Steps, Unlines, FieldLast, WellFormed, SingleLine, OpenLines, Value, ValidKind, Finish, Bare;
    var m := a.meta;
    var lines := FieldLast(m, title);
    FieldLastIsOpen(m, title);
    SplitOfRender(lines, a.body);
    SplitOfUnlines(lines);
    BlankLastLine(c, lines);
    FieldLastReads(c, m, title);
    BareReads(title);
    WellFormedIsRead(m);
  }

  lemma FieldLastIsOpen(m: Meta, title: string)
    requires SingleLine(m) && '\n' !in title
    ensures OpenLines(FieldLast(m, title))
  {
    hide OpenLine, FieldLine, HeadLines, LinkLines, PlainKey;
    HeadIsOpen(m);
    LinksAreOpen(m.links);
    Keys();
    FieldIsOpen("title", title);
    assert OpenLine("links:") by { LinksIsOpen(); }
  }

  lemma LinksIsOpen()
    ensures OpenLine("links:")
  {
  }

  lemma WellFormedIsRead(m: Meta)
    requires WellFormed(m)
    ensures Value(m.id) == m.id && m.id != "" && ValidKind(Value(m.kind)) && ReadMeta(m) == m && ReadHead(m) == m.(links := [])
    ensures m.links != [] ==> ReadLinks(m.links[..|m.links| - 1]) == m.links[..|m.links| - 1]
  {
    hide Trim, Wrapped, ValidKind, ValidStatus, ValidMode, Unquote;
    Keys();
    ValueSurvivesIff("id", m.id);
    ValueSurvivesIff("id", m.title);
    ValueSurvivesIff("id", m.context);
    ValueSurvivesIff("id", m.validUntil);
    LinksSurviveIff(m.links);
    StatusSurvivesIff(m);
    if m.links != [] {
      LinksSurviveIff(m.links[..|m.links| - 1]);
    }
  }

  lemma {:induction false} IndentOf(n: nat, rest: string)
    requires rest != "" && rest[0] != ' '
    ensures Indent(seq(n, _ => ' ') + rest) == n
  {
    var blanks := seq(n, _ => ' ');
    TrimLeftStops(blanks, rest, ch => ch == ' ');
  }

  /** A reference on an indented line of its own belongs to the link begun before it, if it is indented by more than two. */
  lemma IndentedRef(c: Calendar, m: Meta, current: Option<Link>, n: nat, ref: string)
    requires n >= 1
    ensures Step(c, State(m, true, current), seq(n, _ => ' ') + ("ref: " + ref)) ==
              State(m, true, if n <= 2 then current
                             else Some(Link(Trim(ref), if current.Some? then current.value.relation else "")))
  {
    hide Trim, Indent;
    var blanks := seq(n, _ => ' ');
    var line := blanks + ("ref: " + ref);
    BlankIsSpace();
    assert line == blanks + "ref:" + " " + ref;
    TrimPrefixed(blanks, "ref:", ref);
    assert ("ref: " + ref)[0] == 'r';
    IndentOf(n, "ref: " + ref);
    InLinks(c, State(m, true, current), line);
    RefStep(State(m, true, current), Trim(line), n);
  }

  lemma RefStep(st: State, trimmed: string, indent: nat)
    requires "ref:" <= trimmed
    ensures LinkStep(st, trimmed, indent) ==
              if indent > 2 then
                State(st.meta, true, Some(Link(Trim(trimmed[4..]), if st.current.Some? then st.current.value.relation else "")))
              else st
  {
    hide Trim, Flushed;
    assert trimmed[0] == "ref:"[0];
  }

  // ---------------------------------------------------------------- numbers and dates

  /** A version may carry a sign; what is no number leaves the version as it was. */
  lemma SignedNumbers(n: Int)
    requires n >= 0
    ensures Atoi(Digits.Render(n)) == Some(n) && Atoi("+" + Digits.Render(n)) == Some(n) && Atoi("-" + Digits.Render(n)) == Some(-n)
    ensures Atoi("") == None && Atoi("+") == None && Atoi("1.0") == None
  {
    hide Digits.Render, Digits.Read;
    var s := Digits.Render(n);
    Digits.ReadRender(n);
    assert Digits.IsDigit(s[0]);
    assert ("+" + s)[1..] == s && ("-" + s)[1..] == s;
    assert "1.0"[1] == '.';
  }

  /** The Gregorian calendar. */
  predicate IsDate(year: nat, month: nat, day: nat) {
    day >= 1
    && if month in {1, 3, 5, 7, 8, 10, 12} then day <= 31
       else if month in {4, 6, 9, 11} then day <= 30
       else month == 2 && day <= if year % 400 == 0 || (year % 4 == 0 && year % 100 != 0) then 29 else 28
  }

  function Stamp(year: nat, month: nat, day: nat, hour: nat, minute: nat, second: nat): string {
    Digits.Padded(year, 4) + "-" + Digits.Padded(month, 2) + "-" + Digits.Padded(day, 2)
    + "T" + Digits.Padded(hour, 2) + ":" + Digits.Padded(minute, 2) + ":" + Digits.Padded(second, 2) + "Z"
  }

  /** A stamp reads as the time it says, if there is such a time. */
  lemma StampReads(c: Calendar, year: nat, month: nat, day: nat, hour: nat, minute: nat, second: nat)
    requires year < 10000 && month < 100 && day < 100 && hour < 100 && minute < 100 && second < 100
    ensures var time := ReadTime(c, Stamp(year, month, day, hour, minute, second));
            if IsDate(year, month, day) && hour <= 23 && minute <= 59 && second <= 59
            then time == Some(CivilTime(year, month, day, hour, minute, second, 0, 0))
            else time == None
  {
    hide Digits.Padded, Digits.Read;
    FourDigits(year);
    TwoDigits(month);
    TwoDigits(day);
    TwoDigits(hour);
    TwoDigits(minute);
    TwoDigits(second);
    Slices(Digits.Padded(year, 4), Digits.Padded(month, 2), Digits.Padded(day, 2),
           Digits.Padded(hour, 2), Digits.Padded(minute, 2), Digits.Padded(second, 2));
  }

  /** A time of a four-digit year is written as the stamp of its own clock. */
  lemma StampIsWritten(t: Time)
    requires 0 <= t.year <= 9999
    ensures Format(t) == Stamp(t.year, t.month, t.day, t.hour, t.minute, t.second)
  {
  }
}
