/** Format preservation, the design goal stated at the head of
    src/keyfile.rs: parsing a text and rendering the result gives the text
    back, and rendering a key file and parsing the text gives the key file
    back. Both directions hold under conditions, which are spelled out here:
    the parser drops key-value lines before the first header, and
    `str::lines` forgets carriage returns and a missing final line feed. */
module RoundTrip {
  import opened Wrappers
  import opened CharClass
  import opened OrderedMap
  import opened TextLines
  import opened BasicTypes
  import opened Types
  import opened Matchers
  import opened KeyFiles
  import opened Parser

  // ================= parse, then render =================

  /** The text a parse state stands for: finished groups, the open group,
      then the pending decor. */
  function RenderState(st: ParseState): string {
    RenderGroups(st.groups)
    + (match st.current case Some(g) => RenderGroup(g) case None => "")
    + Unlines(st.decor)
  }

  function OpenName(st: ParseState): Option<string> {
    match st.current case Some(g) => Some(g.name) case None => None
  }

  /** The open group's name is not yet among the finished groups. */
  predicate Fresh(st: ParseState) {
    st.current.Some? ==> st.current.value.name !in Keys(st.groups)
  }

  /** The lines lose nothing when parsed from a state that has a group open
      or not, as `inGroup` says: no key-value line comes before the first
      header. */
  predicate Faithful(lines: seq<string>, inGroup: bool)
    decreases |lines|
  {
    if |lines| == 0 then true
    else match Classify(lines[0])
      case Decoration => Faithful(lines[1..], inGroup)
      case Header(_) => Faithful(lines[1..], true)
      case Pair(_) => inGroup && Faithful(lines[1..], inGroup)
      case Invalid => true
  }

  /** The finished groups and the open one, in order. */
  function Closed(st: ParseState): Entries<string, Group> {
    match st.current case Some(g) => st.groups + [(g.name, g)] case None => st.groups
  }

  lemma RenderSingleGroup(g: Group)
    ensures RenderGroups([(g.name, g)]) == RenderGroup(g)
  {
    assert [(g.name, g)][1..] == [];
  }

  /** Closing a fresh group appends it. */
  lemma CloseAppends(st: ParseState)
    requires Fresh(st)
    ensures Close(st) == Closed(st)
    ensures RenderGroups(Close(st)) + Unlines(st.decor) == RenderState(st)
  {
    if st.current.Some? {
      var g := st.current.value;
      RenderGroupsConcat(st.groups, [(g.name, g)]);
      RenderSingleGroup(g);
    }
  }

  lemma DecorRenders(st: ParseState, line: string)
    ensures RenderState(st.(decor := st.decor + [line])) == RenderState(st) + (line + "\n")
  {
    UnlinesConcat(st.decor, [line]);
    UnlinesSingle(line);
  }

  /** A header's name is new to the closed groups when it is new to the
      finished ones and is not the open group's name. */
  lemma NotClosed(st: ParseState, h: string)
    requires h !in Keys(st.groups) && OpenName(st) != Some(h)
    ensures h !in Keys(Closed(st))
  {
    if st.current.Some? {
      var g := st.current.value;
      KeysConcat(st.groups, [(g.name, g)]);
    }
  }

  /** The group a header opens renders as the pending decor and the header. */
  lemma OpenedGroupRenders(decor: seq<string>, h: string)
    ensures RenderGroup(GroupFromEntries(GroupName(h), [], Decor(decor))) == Unlines(decor) + GroupHeader(h) + "\n"
  {
    var g := GroupFromEntries(GroupName(h), [], Decor(decor));
    assert RenderEntries(g.entries) == "";
  }

  lemma AppendHeaderText(a: string, u: string, l: string)
    ensures a + (u + l + "\n") + Unlines([]) == (a + u) + (l + "\n")
  {
    assert Unlines([]) == "";
  }

  lemma OpenGroupRenders(st: ParseState, h: string, lineno: nat)
    requires Fresh(st)
    requires OpenGroup(st, h, lineno).Ok?
    ensures var st' := OpenGroup(st, h, lineno).value;
      && Fresh(st') && OpenName(st') == Some(h)
      && RenderState(st') == RenderState(st) + (GroupHeader(h) + "\n")
  {
    var g' := GroupFromEntries(GroupName(h), [], Decor(st.decor));
    var st' := OpenGroup(st, h, lineno).value;
    assert st' == ParseState(Some(g'), Close(st), []);
    CloseAppends(st);
    NotClosed(st, h);
    OpenedGroupRenders(st.decor, h);
    AppendHeaderText(RenderGroups(Close(st)), Unlines(st.decor), GroupHeader(h));
  }

  lemma AddPairRenders(st: ParseState, m: KvMatch, lineno: nat)
    requires Fresh(st) && st.current.Some?
    requires AddPair(st, m, lineno).Ok?
    ensures var st' := AddPair(st, m, lineno).value;
      && Fresh(st') && OpenName(st') == OpenName(st)
      && RenderState(st') == RenderState(st) + (Reassemble(m) + "\n")
  {
    var g := st.current.value;
    var kv := EntryOf(m, st.decor);
    GroupInsertAppendRender(g, kv);
    assert RenderEntry(kv) == Unlines(st.decor) + Reassemble(m);
    AppendEntryText(RenderGroups(st.groups), RenderGroup(g), Unlines(st.decor), Reassemble(m));
  }

  lemma AppendEntryText(a: string, b: string, u: string, l: string)
    ensures a + (b + ((u + l) + "\n")) + Unlines([]) == (a + b + u) + (l + "\n")
  {
    assert Unlines([]) == "";
  }

  lemma StepRenders(st: ParseState, line: string, lineno: nat)
    requires Fresh(st) && Step(st, Line(line, Classify(line)), lineno).Ok?
    requires Classify(line).Pair? ==> st.current.Some?
    ensures var st' := Step(st, Line(line, Classify(line)), lineno).value;
      && Fresh(st')
      && RenderState(st') == RenderState(st) + (line + "\n")
      && OpenName(st') == (if Classify(line).Header? then Some(Classify(line).name) else OpenName(st))
  {
    match Classify(line)
    case Decoration => DecorRenders(st, line);
    case Header(h) => OpenGroupRenders(st, h, lineno);
    case Pair(m) => AddPairRenders(st, m, lineno);
    case Invalid =>
  }

  /** What a faithful first line promises about the step it takes. */
  lemma FaithfulStep(lines: seq<string>, inGroup: bool)
    requires |lines| > 0 && Faithful(lines, inGroup) && !Classify(lines[0]).Invalid?
    ensures Classify(lines[0]).Pair? ==> inGroup
    ensures Faithful(lines[1..], Classify(lines[0]).Header? || inGroup)
  {
  }

  lemma {:induction false} RunRenders(st: ParseState, lines: seq<string>, lineno: nat)
    requires Fresh(st) && Faithful(lines, st.current.Some?)
    requires Run(st, ClassifyLines(lines), lineno).Ok?
    ensures Fresh(Run(st, ClassifyLines(lines), lineno).value)
    ensures RenderState(Run(st, ClassifyLines(lines), lineno).value) == RenderState(st) + Unlines(lines)
    decreases |lines|
  {
    if |lines| == 0 {
      assert RenderState(st) + Unlines(lines) == RenderState(st);
    } else {
      var ls := ClassifyLines(lines);
      var line := lines[0];
      ClassifyLinesCons(lines);
      RunStep(st, ls, lineno);
      FaithfulStep(lines, st.current.Some?);
      StepRenders(st, line, lineno);
      var st' := Step(st, Line(line, Classify(line)), lineno).value;
      RunRenders(st', lines[1..], lineno + 1);
      assert Unlines(lines) == line + "\n" + Unlines(lines[1..]);
      Reassociate(RenderState(st), line + "\n", Unlines(lines[1..]),
                  RenderState(st'), RenderState(Run(st', ClassifyLines(lines[1..]), lineno + 1).value));
    }
  }

  lemma Reassociate(a: string, b: string, c: string, ab: string, abc: string)
    requires ab == a + b && abc == ab + c
    ensures abc == a + (b + c)
  {
  }

  lemma PeelFirst<T>(a: seq<T>, b: seq<T>)
    requires |b| > 0
    ensures (a + [b[0]]) + b[1..] == a + b
  {
    assert b == [b[0]] + b[1..];
  }

  lemma ParseUnfold(s: string)
    requires Parse(s).Ok?
    ensures Run(Initial, ClassifyLines(Lines(s)), 0).Ok?
    ensures var st := Run(Initial, ClassifyLines(Lines(s)), 0).value;
      Parse(s).value == KeyFile(Close(st), st.decor)
  {
  }

  /** Parsing a text and rendering the result gives the text back, for a
      text without carriage returns that is empty or ends in a line feed and
      whose lines the parser reproduces faithfully. */
  lemma ParseThenRender(s: string)
    requires Parse(s).Ok?
    requires '\r' !in s && (|s| == 0 || s[|s| - 1] == '\n')
    requires Faithful(Lines(s), false)
    ensures RenderKeyFile(Parse(s).value) == s
  {
    ParseUnfold(s);
    RenderRun(Lines(s));
    UnlinesLines(s);
  }

  /** The groups and decor the loop leaves over faithful lines from the
      start render back to those lines. */
  lemma RenderRun(lines: seq<string>)
    requires Faithful(lines, false)
    requires Run(Initial, ClassifyLines(lines), 0).Ok?
    ensures var st := Run(Initial, ClassifyLines(lines), 0).value;
      RenderGroups(Close(st)) + Unlines(st.decor) == Unlines(lines)
  {
    var st := Run(Initial, ClassifyLines(lines), 0).value;
    assert Fresh(st) && RenderState(st) == Unlines(lines) by {
      assert RenderState(Initial) == "";
      RunRenders(Initial, lines, 0);
      assert "" + Unlines(lines) == Unlines(lines);
    }
    CloseAppends(st);
  }


  // ================= render, then parse =================

  /** A carriage return at the end of a decor line or a value would be taken
      for part of a line ending. */
  predicate NoTrailingCR(s: string) {
    |s| == 0 || s[|s| - 1] != '\r'
  }

  predicate PlainBlock(ls: seq<string>) {
    forall i :: 0 <= i < |ls| ==> NoTrailingCR(ls[i])
  }

  predicate PlainEntry(kv: KeyValuePair) {
    PlainBlock(kv.decor) && NoTrailingCR(kv.value)
  }

  predicate PlainGroup(g: Group) {
    PlainBlock(g.decor) && forall i :: 0 <= i < |g.entries| ==> PlainEntry(g.entries[i].1)
  }

  predicate Plain(kf: KeyFile) {
    PlainBlock(kf.decor) && forall i :: 0 <= i < |kf.groups| ==> PlainGroup(kf.groups[i].1)
  }

  /** The lines `Display` writes. */
  function EntryLines(kv: KeyValuePair): seq<string> {
    kv.decor + [Reassemble(MatchOf(kv))]
  }

  function EntriesLines(es: Entries<EntryKey, KeyValuePair>): seq<string>
  {
    if |es| == 0 then [] else EntryLines(es[0].1) + EntriesLines(es[1..])
  }

  function GroupLines(g: Group): seq<string> {
    g.decor + [GroupHeader(g.name)] + EntriesLines(g.entries)
  }

  function GroupsLines(gs: Entries<string, Group>): seq<string>
  {
    if |gs| == 0 then [] else GroupLines(gs[0].1) + GroupsLines(gs[1..])
  }

  function KeyFileLines(kf: KeyFile): seq<string> {
    GroupsLines(kf.groups) + kf.decor
  }

  lemma {:induction false} EntriesLinesRender(es: Entries<EntryKey, KeyValuePair>)
    ensures Unlines(EntriesLines(es)) == RenderEntries(es)
  {
    if |es| > 0 {
      var kv := es[0].1;
      UnlinesConcat(EntryLines(kv), EntriesLines(es[1..]));
      UnlinesConcat(kv.decor, [Reassemble(MatchOf(kv))]);
      UnlinesSingle(Reassemble(MatchOf(kv)));
      EntriesLinesRender(es[1..]);
    }
  }

  lemma GroupLinesRender(g: Group)
    ensures Unlines(GroupLines(g)) == RenderGroup(g)
  {
    UnlinesConcat(g.decor + [GroupHeader(g.name)], EntriesLines(g.entries));
    UnlinesConcat(g.decor, [GroupHeader(g.name)]);
    UnlinesSingle(GroupHeader(g.name));
    EntriesLinesRender(g.entries);
  }

  lemma {:induction false} GroupsLinesRender(gs: Entries<string, Group>)
    ensures Unlines(GroupsLines(gs)) == RenderGroups(gs)
  {
    if |gs| > 0 {
      UnlinesConcat(GroupLines(gs[0].1), GroupsLines(gs[1..]));
      GroupLinesRender(gs[0].1);
      GroupsLinesRender(gs[1..]);
    }
  }

  /** The rendering is the key file's lines, each ended by a line feed. */
  lemma KeyFileLinesRender(kf: KeyFile)
    ensures Unlines(KeyFileLines(kf)) == RenderKeyFile(kf)
  {
    UnlinesConcat(GroupsLines(kf.groups), kf.decor);
    GroupsLinesRender(kf.groups);
  }

  // ---- every rendered line comes back from `str::lines` unchanged ----

  predicate AllPlain(ls: seq<string>) {
    forall i :: 0 <= i < |ls| ==> IsPlainLine(ls[i])
  }

  lemma AllPlainConcat(a: seq<string>, b: seq<string>)
    requires AllPlain(a) && AllPlain(b)
    ensures AllPlain(a + b)
  {
    assert forall i :: 0 <= i < |a + b| ==> (a + b)[i] == if i < |a| then a[i] else b[i - |a|];
  }

  lemma PlainDecor(ls: seq<string>)
    requires IsDecorBlock(ls) && PlainBlock(ls)
    ensures AllPlain(ls)
  {
  }

  lemma IsLineConcat(a: string, b: string)
    requires IsLine(a) && IsLine(b)
    ensures IsLine(a + b)
  {
    assert forall i :: 0 <= i < |a + b| ==> (a + b)[i] == if i < |a| then a[i] else b[i - |a|];
  }

  lemma AlphaIsLine(s: string)
    requires All(s, IsAsciiAlpha)
    ensures IsLine(s)
  {
    assert forall i :: 0 <= i < |s| ==> IsAsciiAlpha(s[i]) && s[i] != '\n';
  }

  lemma PartIsLine(sep: char, part: Option<string>)
    requires sep != '\n' && (part.Some? ==> IsAlphaWord(part.value))
    ensures IsLine(Part(sep, part))
  {
    if part.Some? {
      AlphaIsLine(part.value);
      IsLineConcat([sep], part.value);
    }
  }

  lemma LocaleSuffixIsLine(locale: Option<Locale>)
    requires locale.Some? ==> IsParsedLocale(locale.value)
    ensures IsLine(LocaleSuffix(locale))
  {
    if locale.Some? {
      var l := locale.value;
      AlphaIsLine(l.lang);
      PartIsLine('_', l.country);
      PartIsLine('@', l.modifier);
      RenderLocaleAsBody(l);
      IsLineConcat(l.lang, Part('_', l.country));
      IsLineConcat(l.lang + Part('_', l.country), Part('@', l.modifier));
      IsLineConcat("[", RenderLocale(l));
      IsLineConcat("[" + RenderLocale(l), "]");
    }
  }

  lemma EntryLineIsPlain(m: KvMatch)
    requires IsWellFormedMatch(m) && NoTrailingCR(m.value)
    ensures IsPlainLine(Reassemble(m))
  {
    var suffix := LocaleSuffix(m.locale);
    assert IsLine(m.key) by {
      assert forall i :: 0 <= i < |m.key| ==> IsAlnumOrDash(m.key[i]) && m.key[i] != '\n';
    }
    assert IsLine(m.wsl) by {
      assert forall i :: 0 <= i < |m.wsl| ==> IsBlank(m.wsl[i]) && m.wsl[i] != '\n';
    }
    assert IsLine(m.wsr) by {
      assert forall i :: 0 <= i < |m.wsr| ==> IsBlank(m.wsr[i]) && m.wsr[i] != '\n';
    }
    LocaleSuffixIsLine(m.locale);
    var a := m.key + suffix + m.wsl + "=";
    IsLineConcat(m.key, suffix);
    IsLineConcat(m.key + suffix, m.wsl);
    IsLineConcat(m.key + suffix + m.wsl, "=");
    IsLineConcat(a, m.wsr);
    IsLineConcat(a + m.wsr, m.value);
    var line := Reassemble(m);
    assert line == a + m.wsr + m.value;
    if |m.value| > 0 {
      assert line[|line| - 1] == m.value[|m.value| - 1];
    } else if |m.wsr| > 0 {
      assert line[|line| - 1] == m.wsr[|m.wsr| - 1];
    } else {
      assert line[|line| - 1] == '=';
    }
  }

  lemma HeaderLineIsPlain(name: string)
    requires IsLine(name)
    ensures IsPlainLine(GroupHeader(name))
  {
    IsLineConcat("[", name);
    IsLineConcat("[" + name, "]");
  }

  lemma {:induction false} EntriesLinesPlain(es: Entries<EntryKey, KeyValuePair>)
    requires forall i :: 0 <= i < |es| ==> WellFormedEntry(es[i].1) && PlainEntry(es[i].1)
    ensures AllPlain(EntriesLines(es))
  {
    if |es| > 0 {
      var kv := es[0].1;
      PlainDecor(kv.decor);
      EntryLineIsPlain(MatchOf(kv));
      AllPlainConcat(kv.decor, [Reassemble(MatchOf(kv))]);
      EntriesLinesPlain(es[1..]);
      AllPlainConcat(EntryLines(kv), EntriesLines(es[1..]));
    }
  }

  lemma GroupLinesPlain(g: Group)
    requires WellFormedGroup(g) && PlainGroup(g)
    ensures AllPlain(GroupLines(g))
  {
    PlainDecor(g.decor);
    HeaderLineIsPlain(g.name);
    AllPlainConcat(g.decor, [GroupHeader(g.name)]);
    EntriesLinesPlain(g.entries);
    AllPlainConcat(g.decor + [GroupHeader(g.name)], EntriesLines(g.entries));
  }

  lemma {:induction false} GroupsLinesPlain(gs: Entries<string, Group>)
    requires forall i :: 0 <= i < |gs| ==> WellFormedGroup(gs[i].1) && PlainGroup(gs[i].1)
    ensures AllPlain(GroupsLines(gs))
  {
    if |gs| > 0 {
      GroupLinesPlain(gs[0].1);
      GroupsLinesPlain(gs[1..]);
      AllPlainConcat(GroupLines(gs[0].1), GroupsLines(gs[1..]));
    }
  }

  /** `str::lines` splits a rendering into exactly the lines it was made of. */
  lemma RenderedLines(kf: KeyFile)
    requires WellFormed(kf) && Plain(kf)
    ensures Lines(RenderKeyFile(kf)) == KeyFileLines(kf)
  {
    GroupsLinesPlain(kf.groups);
    PlainDecor(kf.decor);
    AllPlainConcat(GroupsLines(kf.groups), kf.decor);
    KeyFileLinesRender(kf);
    LinesUnlines(KeyFileLines(kf));
  }

  // ---- every rendered line is read as what it was made from ----

  lemma ClassifyHeaderLine(name: string)
    requires |name| > 0
    ensures Classify(GroupHeader(name)) == Header(name)
  {
    HeaderRoundTrip(name);
  }

  lemma ClassifyEntryLine(m: KvMatch)
    requires IsWellFormedMatch(m)
    ensures Classify(Reassemble(m)) == Pair(m)
  {
    EntryLineStart(m);
    StartsLikeKey(Reassemble(m));
    ParseAsKeyValuePairComplete(m);
    ClassifiedAsPair(Reassemble(m), m);
  }

  /** A pair's line starts with the first character of its key. */
  lemma EntryLineStart(m: KvMatch)
    requires IsWellFormedMatch(m)
    ensures |Reassemble(m)| > 0 && IsAlnumOrDash(Reassemble(m)[0])
  {
    var tail := LocaleSuffix(m.locale) + m.wsl + "=" + m.wsr + m.value;
    assert Reassemble(m) == m.key + tail;
    assert (m.key + tail)[0] == m.key[0];
  }

  /** A line that starts with a key character is neither decor nor a header. */
  lemma StartsLikeKey(line: string)
    requires |line| > 0 && IsAlnumOrDash(line[0])
    ensures !IsDecorLine(line) && ParseAsHeader(line).None?
  {
  }

  /** What each kind of line looks like: decor is empty or starts with `#`;
      a header is bracketed; a pair is exactly a line some well-formed match
      reassembles to; every other line is invalid. */
  lemma ClassifyCases(line: string, m: KvMatch)
    ensures Classify(line) == Decoration <==> |line| == 0 || line[0] == '#'
    ensures Classify(line).Header? <==> |line| >= 3 && line[0] == '[' && line[|line| - 1] == ']'
    ensures Classify(line).Header? ==> line == GroupHeader(Classify(line).name)
    ensures Classify(line) == Pair(m) <==> IsWellFormedMatch(m) && Reassemble(m) == line
    ensures Classify(line) == Invalid <==>
      !IsDecorLine(line) && ParseAsHeader(line).None? && ParseAsKeyValuePair(line).None?
  {
    ParseAsKeyValuePairExact(line, m);
    if IsWellFormedMatch(m) && Reassemble(m) == line {
      ClassifyEntryLine(m);
    }
  }

  // ---- how the parser reads the rendered lines ----

  /** Decor lines as the parser reads them. */
  function DecorItems(ds: seq<string>): (r: seq<Line>)
    ensures |r| == |ds|
    decreases |ds|
  {
    if |ds| == 0 then [] else [Line(ds[0], Decoration)] + DecorItems(ds[1..])
  }

  function EntryItems(kv: KeyValuePair): seq<Line> {
    DecorItems(kv.decor) + [Line(Reassemble(MatchOf(kv)), Pair(MatchOf(kv)))]
  }

  function EntriesItems(es: Entries<EntryKey, KeyValuePair>): seq<Line>
  {
    if |es| == 0 then [] else EntryItems(es[0].1) + EntriesItems(es[1..])
  }

  function GroupItems(g: Group): seq<Line> {
    DecorItems(g.decor) + [Line(GroupHeader(g.name), Header(g.name))] + EntriesItems(g.entries)
  }

  function GroupsItems(gs: Entries<string, Group>): seq<Line>
  {
    if |gs| == 0 then [] else GroupItems(gs[0].1) + GroupsItems(gs[1..])
  }

  function KeyFileItems(kf: KeyFile): seq<Line> {
    GroupsItems(kf.groups) + DecorItems(kf.decor)
  }

  lemma {:induction false} ClassifyDecor(ds: seq<string>)
    requires IsDecorBlock(ds)
    ensures ClassifyLines(ds) == DecorItems(ds)
    decreases |ds|
  {
    if |ds| > 0 {
      assert IsDecorLine(ds[0]);
      ClassifyDecor(ds[1..]);
    }
  }

  lemma ClassifySingle(line: string)
    ensures ClassifyLines([line]) == [Line(line, Classify(line))]
  {
    assert [line][1..] == [];
  }

  lemma ClassifyEntry(kv: KeyValuePair)
    requires WellFormedEntry(kv)
    ensures ClassifyLines(EntryLines(kv)) == EntryItems(kv)
  {
    var line := Reassemble(MatchOf(kv));
    ClassifyLinesConcat(kv.decor, [line]);
    ClassifyDecor(kv.decor);
    ClassifySingle(line);
    ClassifyEntryLine(MatchOf(kv));
  }

  lemma {:induction false} ClassifyEntries(es: Entries<EntryKey, KeyValuePair>)
    requires forall i :: 0 <= i < |es| ==> WellFormedEntry(es[i].1)
    ensures ClassifyLines(EntriesLines(es)) == EntriesItems(es)
    decreases |es|
  {
    if |es| > 0 {
      ClassifyLinesConcat(EntryLines(es[0].1), EntriesLines(es[1..]));
      ClassifyEntry(es[0].1);
      ClassifyEntries(es[1..]);
    }
  }

  lemma ClassifyGroup(g: Group)
    requires WellFormedGroup(g)
    ensures ClassifyLines(GroupLines(g)) == GroupItems(g)
  {
    var header := GroupHeader(g.name);
    ClassifyLinesConcat(g.decor + [header], EntriesLines(g.entries));
    ClassifyLinesConcat(g.decor, [header]);
    ClassifyDecor(g.decor);
    ClassifySingle(header);
    ClassifyHeaderLine(g.name);
    ClassifyEntries(g.entries);
  }

  lemma {:induction false} ClassifyGroups(gs: Entries<string, Group>)
    requires forall i :: 0 <= i < |gs| ==> WellFormedGroup(gs[i].1)
    ensures ClassifyLines(GroupsLines(gs)) == GroupsItems(gs)
    decreases |gs|
  {
    if |gs| > 0 {
      ClassifyLinesConcat(GroupLines(gs[0].1), GroupsLines(gs[1..]));
      ClassifyGroup(gs[0].1);
      ClassifyGroups(gs[1..]);
    }
  }

  /** The parser reads every line of a rendered key file as what it was
      made from. */
  lemma ClassifyKeyFile(kf: KeyFile)
    requires WellFormed(kf)
    ensures ClassifyLines(KeyFileLines(kf)) == KeyFileItems(kf)
  {
    ClassifyLinesConcat(GroupsLines(kf.groups), kf.decor);
    ClassifyGroups(kf.groups);
    ClassifyDecor(kf.decor);
  }

  // ---- running the loop over rendered lines ----

  /** The loop over two runs of lines is the loop over the first followed by
      the loop over the second, which starts at line `at`. */
  lemma {:induction false} RunSeq(st: ParseState, a: seq<Line>, b: seq<Line>, lineno: nat, at: nat, st1: ParseState, st2: ParseState)
    requires at == lineno + |a|
    requires Run(st, a, lineno) == Ok(st1)
    requires Run(st1, b, at) == Ok(st2)
    ensures Run(st, a + b, lineno) == Ok(st2)
    decreases |a|
  {
    if |a| == 0 {
      assert a + b == b;
    } else {
      var mid := RunSeqHead(st, a, b, lineno);
      RunSeq(mid, a[1..], b, lineno + 1, at, st1, st2);
    }
  }

  /** The first line of a run that succeeds steps to a state `mid`, from
      which the rest of it, alone or followed by `b`, is run. */
  lemma RunSeqHead(st: ParseState, a: seq<Line>, b: seq<Line>, lineno: nat) returns (mid: ParseState)
    requires |a| > 0 && Run(st, a, lineno).Ok?
    ensures Run(mid, a[1..], lineno + 1) == Run(st, a, lineno)
    ensures Run(st, a + b, lineno) == Run(mid, a[1..] + b, lineno + 1)
  {
    RunStep(st, a, lineno);
    mid := Step(st, a[0], lineno).value;
    var ab := a + b;
    assert ab[0] == a[0] && ab[1..] == a[1..] + b;
    RunHead(st, ab, lineno);
  }

  lemma RunSingle(st: ParseState, l: Line, lineno: nat, st1: ParseState)
    requires Step(st, l, lineno) == Ok(st1)
    ensures Run(st, [l], lineno) == Ok(st1)
  {
    RunHead(st, [l], lineno);
    assert [l][1..] == [];
  }

  /** Decor lines only pile up. */
  lemma {:induction false} RunDecor(st: ParseState, ds: seq<string>, lineno: nat)
    ensures Run(st, DecorItems(ds), lineno) == Ok(st.(decor := st.decor + ds))
    decreases |ds|
  {
    if |ds| == 0 {
      assert st.decor + ds == st.decor;
    } else {
      var ls := DecorItems(ds);
      assert ls[0] == Line(ds[0], Decoration) && ls[1..] == DecorItems(ds[1..]);
      RunHead(st, ls, lineno);
      var st' := st.(decor := st.decor + [ds[0]]);
      RunDecor(st', ds[1..], lineno + 1);
      assert st.decor + [ds[0]] + ds[1..] == st.decor + ds;
    }
  }

  /** The state once a pair is appended to the open group. */
  function Appended(st: ParseState, kv: KeyValuePair): ParseState
    requires st.current.Some?
  {
    ParseState(Some(st.current.value.(entries := st.current.value.entries + [(KeyOf(kv), kv)])), st.groups, [])
  }

  /** A pair's decor and its line append the pair to the open group when
      its key is new there. */
  lemma RunEntry(st: ParseState, kv: KeyValuePair, lineno: nat)
    requires st.current.Some? && st.decor == []
    requires KeyOf(kv) !in Keys(st.current.value.entries)
    ensures Run(st, EntryItems(kv), lineno) == Ok(Appended(st, kv))
  {
    var m := MatchOf(kv);
    var st1 := st.(decor := kv.decor);
    RunDecor(st, kv.decor, lineno);
    assert st.decor + kv.decor == kv.decor;
    assert EntryOf(m, kv.decor) == kv;
    var n1 := lineno + |DecorItems(kv.decor)|;
    RunSingle(st1, Line(Reassemble(m), Pair(m)), n1, Appended(st, kv));
    RunSeq(st, DecorItems(kv.decor), [Line(Reassemble(m), Pair(m))], lineno, n1, st1, Appended(st, kv));
  }

  /** A pair's lines, then lines that take the appended state on to `target`. */
  lemma RunEntryThen(st: ParseState, kv: KeyValuePair, b: seq<Line>, lineno: nat, target: ParseState)
    requires st.current.Some? && st.decor == []
    requires KeyOf(kv) !in Keys(st.current.value.entries)
    requires Run(Appended(st, kv), b, lineno + |EntryItems(kv)|) == Ok(target)
    ensures Run(st, EntryItems(kv) + b, lineno) == Ok(target)
  {
    RunEntry(st, kv, lineno);
    RunSeq(st, EntryItems(kv), b, lineno, lineno + |EntryItems(kv)|, Appended(st, kv), target);
  }

  /** In a valid map extended by `es`, the first key of `es` is new. */
  lemma FirstKeyIsNew(es0: Entries<EntryKey, KeyValuePair>, es: Entries<EntryKey, KeyValuePair>)
    requires |es| > 0 && ValidEntries(es0 + es)
    ensures es[0] == (KeyOf(es[0].1), es[0].1)
    ensures KeyOf(es[0].1) !in Keys(es0)
    ensures ValidEntries((es0 + [es[0]]) + es[1..])
  {
    var all := es0 + es;
    assert all[|es0|] == es[0];
    forall j | 0 <= j < |es0| ensures es0[j].0 != KeyOf(es[0].1) {
      assert all[j] == es0[j];
    }
    PeelFirst(es0, es);
  }

  /** The state once pairs are appended to the open group. */
  function Filled(st: ParseState, es: Entries<EntryKey, KeyValuePair>): ParseState
    requires st.current.Some?
  {
    st.(current := Some(st.current.value.(entries := st.current.value.entries + es)))
  }

  /** Appending the first pair, then the rest, is appending them all. */
  lemma FilledPeel(st: ParseState, es: Entries<EntryKey, KeyValuePair>)
    requires st.current.Some? && st.decor == []
    requires |es| > 0 && es[0] == (KeyOf(es[0].1), es[0].1)
    ensures Filled(Appended(st, es[0].1), es[1..]) == Filled(st, es)
  {
    PeelFirst(st.current.value.entries, es);
  }

  lemma {:induction false} RunEntries(st: ParseState, es: Entries<EntryKey, KeyValuePair>, lineno: nat, target: ParseState)
    requires st.current.Some? && st.decor == []
    requires ValidEntries(st.current.value.entries + es)
    requires target == Filled(st, es)
    ensures Run(st, EntriesItems(es), lineno) == Ok(target)
    decreases |es|
  {
    var cur := st.current.value;
    if |es| == 0 {
      assert cur.entries + es == cur.entries;
    } else {
      var kv := es[0].1;
      FirstKeyIsNew(cur.entries, es);
      FilledPeel(st, es);
      RunEntries(Appended(st, kv), es[1..], lineno + |EntryItems(kv)|, target);
      RunEntryThen(st, kv, EntriesItems(es[1..]), lineno, target);
    }
  }

  /** A header line whose name is new closes the open group and opens an
      empty one carrying the pending decor. */
  lemma RunHeader(st: ParseState, name: string, lineno: nat)
    requires Fresh(st) && name !in Keys(Closed(st))
    ensures Run(st, [Line(GroupHeader(name), Header(name))], lineno)
         == Ok(ParseState(Some(Group(name, [], st.decor)), Closed(st), []))
  {
    CloseAppends(st);
    assert name !in Keys(st.groups) by {
      assert forall j :: 0 <= j < |st.groups| ==> Closed(st)[j] == st.groups[j];
    }
    assert !OpenNameIs(st, name) by {
      if st.current.Some? {
        assert Closed(st)[|st.groups|].0 == st.current.value.name;
      }
    }
    RunSingle(st, Line(GroupHeader(name), Header(name)), lineno,
              ParseState(Some(Group(name, [], st.decor)), Closed(st), []));
  }

  /** Decor changes neither freshness nor the groups closing would yield. */
  lemma FreshKeepsClosed(st: ParseState, ds: seq<string>)
    requires Fresh(st)
    ensures Fresh(st.(decor := ds)) && Closed(st.(decor := ds)) == Closed(st)
  {
  }

  /** The lines of a group whose name is new open it, fill it, and leave it
      open. */
  lemma RunGroup(st: ParseState, g: Group, lineno: nat)
    requires st.decor == [] && Fresh(st)
    requires g.name !in Keys(Closed(st))
    requires ValidGroup(g)
    ensures Run(st, GroupItems(g), lineno) == Ok(ParseState(Some(g), Closed(st), []))
  {
    var dh := DecorItems(g.decor) + [Line(GroupHeader(g.name), Header(g.name))];
    var st2 := ParseState(Some(Group(g.name, [], g.decor)), Closed(st), []);
    var st3 := ParseState(Some(g), Closed(st), []);
    RunGroupHead(st, g, lineno);
    RunGroupEntries(st2, g, lineno + |dh|);
    RunSeq(st, dh, EntriesItems(g.entries), lineno, lineno + |dh|, st2, st3);
  }

  /** A group's pair lines fill the empty group the header opened. */
  lemma RunGroupEntries(st: ParseState, g: Group, lineno: nat)
    requires st.current == Some(Group(g.name, [], g.decor)) && st.decor == []
    requires ValidGroup(g)
    ensures Run(st, EntriesItems(g.entries), lineno) == Ok(st.(current := Some(g)))
  {
    assert st.current.value.entries + g.entries == g.entries;
    assert Filled(st, g.entries) == st.(current := Some(g));
    RunEntries(st, g.entries, lineno, st.(current := Some(g)));
  }

  /** A group's decor and header lines open it, empty, with that decor. */
  lemma RunGroupHead(st: ParseState, g: Group, lineno: nat)
    requires st.decor == [] && Fresh(st)
    requires g.name !in Keys(Closed(st))
    ensures Run(st, DecorItems(g.decor) + [Line(GroupHeader(g.name), Header(g.name))], lineno)
         == Ok(ParseState(Some(Group(g.name, [], g.decor)), Closed(st), []))
  {
    var d := DecorItems(g.decor);
    var h := [Line(GroupHeader(g.name), Header(g.name))];
    var st1 := st.(decor := g.decor);
    var st2 := ParseState(Some(Group(g.name, [], g.decor)), Closed(st), []);
    assert Run(st, d, lineno) == Ok(st1) by {
      RunDecor(st, g.decor, lineno);
      assert st.decor + g.decor == g.decor;
    }
    assert Run(st1, h, lineno + |d|) == Ok(st2) by {
      FreshKeepsClosed(st, g.decor);
      RunHeader(st1, g.name, lineno + |d|);
    }
    RunSeq(st, d, h, lineno, lineno + |d|, st1, st2);
  }

  /** The state after the lines of `gs`: each group in turn is opened and
      the one before it closed. */
  function Finish(st: ParseState, gs: Entries<string, Group>): ParseState
    decreases |gs|
  {
    if |gs| == 0 then st else Finish(ParseState(Some(gs[0].1), Closed(st), []), gs[1..])
  }

  /** The state after a group's lines. */
  lemma OpenNext(st: ParseState, gs: Entries<string, Group>)
    requires |gs| > 0 && gs[0] == (gs[0].1.name, gs[0].1) && gs[0].1.name !in Keys(Closed(st))
    ensures var st1 := ParseState(Some(gs[0].1), Closed(st), []);
      Fresh(st1) && Closed(st1) == Closed(st) + [gs[0]]
  {
  }

  /** In a valid group map extended by `gs`, the first name of `gs` is new. */
  lemma FirstGroupIsNew(gs0: Entries<string, Group>, gs: Entries<string, Group>)
    requires |gs| > 0 && ValidGroups(gs0 + gs)
    ensures gs[0] == (gs[0].1.name, gs[0].1)
    ensures gs[0].1.name !in Keys(gs0)
    ensures ValidGroup(gs[0].1)
    ensures ValidGroups((gs0 + [gs[0]]) + gs[1..])
  {
    var all := gs0 + gs;
    assert all[|gs0|] == gs[0];
    forall j | 0 <= j < |gs0| ensures gs0[j].0 != gs[0].1.name {
      assert all[j] == gs0[j];
    }
    PeelFirst(gs0, gs);
  }

  /** After the lines of groups with new names, nothing is pending and the
      groups closing would yield are the earlier ones followed by these. */
  lemma {:induction false} FinishCloses(st: ParseState, gs: Entries<string, Group>)
    requires st.decor == [] && Fresh(st)
    requires ValidGroups(Closed(st) + gs)
    ensures Finish(st, gs).decor == [] && Fresh(Finish(st, gs))
    ensures Closed(Finish(st, gs)) == Closed(st) + gs
    decreases |gs|
  {
    if |gs| == 0 {
      assert Closed(st) + gs == Closed(st);
    } else {
      FirstGroupIsNew(Closed(st), gs);
      OpenNext(st, gs);
      FinishCloses(ParseState(Some(gs[0].1), Closed(st), []), gs[1..]);
    }
  }

  lemma {:induction false} RunGroups(st: ParseState, gs: Entries<string, Group>, lineno: nat)
    requires st.decor == [] && Fresh(st)
    requires ValidGroups(Closed(st) + gs)
    ensures Run(st, GroupsItems(gs), lineno) == Ok(Finish(st, gs))
    decreases |gs|
  {
    if |gs| == 0 {
    } else {
      var g := gs[0].1;
      FirstGroupIsNew(Closed(st), gs);
      RunGroup(st, g, lineno);
      OpenNext(st, gs);
      var st1 := ParseState(Some(g), Closed(st), []);
      RunGroups(st1, gs[1..], lineno + |GroupItems(g)|);
      RunSeq(st, GroupItems(g), GroupsItems(gs[1..]), lineno, lineno + |GroupItems(g)|, st1, Finish(st, gs));
    }
  }

  /** From the initial state, the lines of valid groups leave nothing
      pending. */
  lemma RunGroupsInitially(gs: Entries<string, Group>)
    requires ValidGroups(gs)
    ensures Run(Initial, GroupsItems(gs), 0) == Ok(Finish(Initial, gs))
    ensures Finish(Initial, gs).decor == []
  {
    assert Closed(Initial) + gs == gs;
    RunGroups(Initial, gs, 0);
    FinishCloses(Initial, gs);
  }

  /** The loop over the lines of a key file with valid maps goes through
      its groups and then piles up its trailing decor. */
  lemma RunKeyFile(kf: KeyFile)
    requires ValidGroups(kf.groups)
    ensures Run(Initial, KeyFileItems(kf), 0) == Ok(Finish(Initial, kf.groups).(decor := kf.decor))
  {
    var gi := GroupsItems(kf.groups);
    var st := Finish(Initial, kf.groups);
    var st2 := st.(decor := kf.decor);
    assert Run(Initial, gi, 0) == Ok(st) && st.decor == [] by {
      RunGroupsInitially(kf.groups);
    }
    assert Run(st, DecorItems(kf.decor), |gi|) == Ok(st2) by {
      RunDecor(st, kf.decor, |gi|);
      assert st.decor + kf.decor == kf.decor;
    }
    RunSeq(Initial, gi, DecorItems(kf.decor), 0, |gi|, st, st2);
  }

  /** That final state closes to the key file's groups. */
  lemma FinishKeyFile(kf: KeyFile)
    requires ValidGroups(kf.groups)
    ensures Close(Finish(Initial, kf.groups).(decor := kf.decor)) == kf.groups
  {
    assert Closed(Initial) + kf.groups == kf.groups;
    FinishCloses(Initial, kf.groups);
    var st := Finish(Initial, kf.groups);
    FreshKeepsClosed(st, kf.decor);
    CloseAppends(st.(decor := kf.decor));
  }

  /** Rendering a well-formed key file whose decor lines and values do not
      end in a carriage return, then parsing the text, gives the key file
      back. */
  lemma RenderThenParse(kf: KeyFile)
    requires WellFormed(kf) && Plain(kf)
    ensures Parse(RenderKeyFile(kf)) == Ok(kf)
  {
    RenderedLines(kf);
    ClassifyKeyFile(kf);
    RunKeyFile(kf);
    FinishKeyFile(kf);
  }

}
