/** `KeyFile::parse` (src/keyfile.rs): a left fold over the lines of the
    text. Each line is decor, a group header, a key-value pair or an error,
    tried in that order. Decor lines are held back and attached to the next
    header or pair; pairs are added to the group opened by the latest header;
    a group is moved to the finished groups when the next header or the end
    of the text closes it. */
module Parser {
  import opened Wrappers
  import opened OrderedMap
  import opened TextLines
  import opened BasicTypes
  import opened Types
  import opened Matchers
  import opened KeyFiles

  /** `KeyFileError`; line numbers count from zero, as `enumerate` does. */
  datatype KeyFileError =
    | InvalidLine(line: string, lineno: nat)
    | DuplicateGroup(name: string, lineno: nat)
    | DuplicateKey(key: string, lineno: nat)

  /** The interpretation `parse` gives a line. */
  datatype LineKind = Decoration | Header(name: string) | Pair(m: KvMatch) | Invalid

  /** Empty and `#` lines are decor before anything else is tried; then a
      header; then a key-value pair. */
  function Classify(line: string): LineKind
  {
    if IsDecorLine(line) then Decoration
    else match ParseAsHeader(line)
      case Some(h) => Header(h)
      case None =>
        match ParseAsKeyValuePair(line)
        case Some(m) => Pair(m)
        case None => Invalid
  }

  /** The loop state of `parse`: the open group, the finished groups and the
      decor lines not yet attached to anything. */
  datatype ParseState = ParseState(current: Option<Group>, groups: Entries<string, Group>, decor: seq<string>)

  const Initial: ParseState := ParseState(None, [], [])

  /** The pair `parse` builds from a match and the pending decor. */
  function EntryOf(m: KvMatch, decor: seq<string>): KeyValuePair {
    KeyValuePair(m.key, m.locale, m.value, m.wsl, m.wsr, decor)
  }

  /** The captures a pair was built from. */
  function MatchOf(kv: KeyValuePair): KvMatch {
    KvMatch(kv.key, kv.locale, kv.value, kv.wsl, kv.wsr)
  }

  /** The key as a duplicate-key error names it: `key[locale]` or `key`. */
  function KeyText(m: KvMatch): string {
    m.key + LocaleSuffix(m.locale)
  }

  /** The finished groups once the open group, if any, is stored. */
  function Close(st: ParseState): Entries<string, Group> {
    match st.current
    case None => st.groups
    case Some(g) => Insert(st.groups, g.name, g).0
  }

  /** A line of the text with the interpretation `Classify` gives it. */
  datatype Line = Line(text: string, kind: LineKind)

  /** A line carries the interpretation the parser gives its text. */
  predicate Honest(l: Line) {
    l.kind == Classify(l.text)
  }

  /** Every line with its interpretation, in order. `Classify` looks at one
      line and nothing else, so classifying all lines before the loop is the
      same as classifying each at its turn, as `parse` does. */
  function ClassifyLines(ls: seq<string>): (r: seq<Line>)
    ensures |r| == |ls|
    decreases |ls|
  {
    if |ls| == 0 then [] else [Line(ls[0], Classify(ls[0]))] + ClassifyLines(ls[1..])
  }

  lemma {:induction false} ClassifiedAt(ls: seq<string>, i: nat)
    requires i < |ls|
    ensures ClassifyLines(ls)[i] == Line(ls[i], Classify(ls[i]))
    ensures Honest(ClassifyLines(ls)[i])
    decreases |ls|
  {
    if i > 0 {
      ClassifiedAt(ls[1..], i - 1);
      assert ls[1..][i - 1] == ls[i];
    }
  }

  lemma ClassifyLinesCons(ls: seq<string>)
    requires |ls| > 0
    ensures ClassifyLines(ls)[0] == Line(ls[0], Classify(ls[0]))
    ensures ClassifyLines(ls)[1..] == ClassifyLines(ls[1..])
  {
  }

  /** Classifying two runs of lines is classifying each. */
  lemma {:induction false} ClassifyLinesConcat(a: seq<string>, b: seq<string>)
    ensures ClassifyLines(a + b) == ClassifyLines(a) + ClassifyLines(b)
    decreases |a|
  {
    if |a| == 0 {
      assert a + b == b;
    } else {
      assert (a + b)[0] == a[0];
      assert (a + b)[1..] == a[1..] + b;
      ClassifyLinesConcat(a[1..], b);
    }
  }

  /** One iteration of the loop in `parse`. A failing iteration names its
      own line. */
  function Step(st: ParseState, l: Line, lineno: nat): (r: Result<ParseState, KeyFileError>)
    ensures r.Err? ==> LineOf(r.error) == lineno && Explains(r.error, l)
  {
    match l.kind
    case Decoration => Ok(st.(decor := st.decor + [l.text]))
    case Header(h) => OpenGroup(st, h, lineno)
    case Pair(m) => AddPair(st, m, lineno)
    case Invalid => Err(InvalidLine(l.text, lineno))
  }

  /** A header name is taken when a finished group or the open group has it. */
  predicate Taken(st: ParseState, h: string) {
    h in Keys(st.groups) || OpenNameIs(st, h)
  }

  predicate OpenNameIs(st: ParseState, h: string) {
    st.current.Some? && st.current.value.name == h
  }

  /** A header: a taken name is an error; otherwise the open group is closed
      and a new one opened with the pending decor. This is the corrected
      check; `OpenGroupAsWritten` is the one the program performs. */
  function OpenGroup(st: ParseState, h: string, lineno: nat): (r: Result<ParseState, KeyFileError>)
    ensures r.Err? <==> h in Keys(st.groups) || OpenNameIs(st, h)
    ensures r.Err? ==> r.error == DuplicateGroup(h, lineno)
    ensures r.Ok? ==> r.value.groups == Close(st) && r.value.decor == [] && r.value.current == Some(Group(h, [], st.decor))
  {
    if Taken(st, h) then Err(DuplicateGroup(h, lineno))
    else Ok(ParseState(Some(GroupFromEntries(GroupName(h), [], Decor(st.decor))), Close(st), []))
  }

  /** The header branch as the program writes it: only the finished groups
      are consulted, so the open group's own name gets through. */
  function OpenGroupAsWritten(st: ParseState, h: string, lineno: nat): (r: Result<ParseState, KeyFileError>)
    ensures r.Err? <==> h in Keys(st.groups)
    ensures r.Err? ==> r.error == DuplicateGroup(h, lineno)
    ensures r.Ok? ==> r.value.groups == Close(st) && r.value.decor == [] && r.value.current == Some(Group(h, [], st.decor))
  {
    if h in Keys(st.groups) then Err(DuplicateGroup(h, lineno))
    else Ok(ParseState(Some(GroupFromEntries(GroupName(h), [], Decor(st.decor))), Close(st), []))
  }

  /** A key-value pair: dropped, with the decor kept pending, when no group
      is open; otherwise added to the open group with the pending decor, and a
      compound key the group already holds is an error. */
  function AddPair(st: ParseState, m: KvMatch, lineno: nat): Result<ParseState, KeyFileError>
  {
    match st.current
    case None => Ok(st)
    case Some(g) =>
      var (g', prev) := GroupInsert(g, EntryOf(m, st.decor));
      if prev.Some? then Err(DuplicateKey(KeyText(m), lineno))
      else Ok(ParseState(Some(g'), st.groups, []))
  }

  function LineOf(e: KeyFileError): nat {
    match e
    case InvalidLine(_, n) => n
    case DuplicateGroup(_, n) => n
    case DuplicateKey(_, n) => n
  }

  /** What an error says about the classified line it names. */
  predicate Explains(e: KeyFileError, l: Line) {
    match e
    case InvalidLine(t, _) => t == l.text && l.kind.Invalid?
    case DuplicateGroup(n, _) => l.kind == Header(n)
    case DuplicateKey(k, _) => l.kind.Pair? && KeyText(l.kind.m) == k
  }

  /** What an error says about the line of text it names. */
  predicate Blames(e: KeyFileError, line: string) {
    Explains(e, Line(line, Classify(line)))
  }

  /** The loop over the remaining lines, numbered from `lineno`. */
  function Run(st: ParseState, ls: seq<Line>, lineno: nat): Result<ParseState, KeyFileError>
    decreases |ls|
  {
    if |ls| == 0 then Ok(st)
    else
      match Step(st, ls[0], lineno)
      case Err(e) => Err(e)
      case Ok(st') => Run(st', ls[1..], lineno + 1)
  }

  /** The first turn of the loop either fails, and the loop with it, or hands
      its state to the rest. */
  lemma RunHead(st: ParseState, ls: seq<Line>, lineno: nat)
    requires |ls| > 0
    ensures Step(st, ls[0], lineno).Err? ==> Run(st, ls, lineno) == Step(st, ls[0], lineno)
    ensures Step(st, ls[0], lineno).Ok? ==>
      Run(st, ls, lineno) == Run(Step(st, ls[0], lineno).value, ls[1..], lineno + 1)
  {
  }

  /** The error names a line among `ls`, numbered from `lineno`, and that
      line caused it. */
  predicate NamesCause(e: KeyFileError, ls: seq<Line>, lineno: nat) {
    lineno <= LineOf(e) < lineno + |ls| && Explains(e, ls[LineOf(e) - lineno])
  }

  /** A failing loop names a line among the remaining ones, and that line
      caused it. */
  lemma {:induction false} RunExplains(st: ParseState, ls: seq<Line>, lineno: nat, e: KeyFileError)
    requires Run(st, ls, lineno) == Err(e)
    ensures NamesCause(e, ls, lineno)
    decreases |ls|
  {
    var mid := FailingRunHead(st, ls, lineno, e);
    if mid.Some? {
      RunExplains(mid.value, ls[1..], lineno + 1, e);
      ShiftExplains(e, ls, lineno);
    }
  }

  /** A failing loop either fails on its first line, which explains the
      error, or hands a state `mid` to the rest of the lines, which fail
      the same way. */
  lemma FailingRunHead(st: ParseState, ls: seq<Line>, lineno: nat, e: KeyFileError) returns (mid: Option<ParseState>)
    requires Run(st, ls, lineno) == Err(e)
    ensures |ls| > 0
    ensures mid.None? ==> NamesCause(e, ls, lineno)
    ensures mid.Some? ==> Run(mid.value, ls[1..], lineno + 1) == Err(e)
  {
    RunHead(st, ls, lineno);
    var s := Step(st, ls[0], lineno);
    mid := if s.Ok? then Some(s.value) else None;
  }

  /** A line named among the lines after the first, numbered from the next
      line, is the same line numbered from the first. */
  lemma ShiftExplains(e: KeyFileError, ls: seq<Line>, lineno: nat)
    requires |ls| > 0 && NamesCause(e, ls[1..], lineno + 1)
    ensures NamesCause(e, ls, lineno)
  {
    assert ls[1..][LineOf(e) - (lineno + 1)] == ls[LineOf(e) - lineno];
  }

  /** `KeyFile::parse`. An error names a line of the text whose content
      explains it. */
  function Parse(s: string): (r: Result<KeyFile, KeyFileError>)
    ensures r.Err? ==> LineOf(r.error) < |Lines(s)| && Blames(r.error, Lines(s)[LineOf(r.error)])
  {
    var ls := ClassifyLines(Lines(s));
    match Run(Initial, ls, 0)
    case Err(e) =>
      RunExplains(Initial, ls, 0, e);
      ClassifiedAt(Lines(s), LineOf(e));
      Err(e)
    case Ok(st) => Ok(KeyFile(Close(st), st.decor))
  }

  // ================= the shape of a parsed key file =================

  /** Lines that can stand as decor. */
  predicate IsDecorBlock(ls: seq<string>) {
    forall i :: 0 <= i < |ls| ==> IsDecorLine(ls[i]) && IsLine(ls[i])
  }

  predicate WellFormedEntry(kv: KeyValuePair) {
    IsWellFormedMatch(MatchOf(kv)) && IsDecorBlock(kv.decor)
  }

  predicate WellFormedGroup(g: Group) {
    && ValidGroup(g)
    && |g.name| > 0 && IsLine(g.name)
    && IsDecorBlock(g.decor)
    && forall i :: 0 <= i < |g.entries| ==> WellFormedEntry(g.entries[i].1)
  }

  predicate WellFormedGroups(gs: Entries<string, Group>) {
    ValidGroups(gs) && forall i :: 0 <= i < |gs| ==> WellFormedGroup(gs[i].1)
  }

  /** What every parsed key file looks like: valid maps, group names that
      fit in a header line, pairs that the key-value pattern matches, and
      decor made only of empty and comment lines. */
  predicate WellFormed(kf: KeyFile) {
    WellFormedGroups(kf.groups) && IsDecorBlock(kf.decor)
  }

  predicate WellFormedState(st: ParseState) {
    && WellFormedGroups(st.groups)
    && (st.current.Some? ==> WellFormedGroup(st.current.value))
    && IsDecorBlock(st.decor)
  }

  lemma InsertKeepsWellFormed(gs: Entries<string, Group>, g: Group)
    requires WellFormedGroups(gs) && WellFormedGroup(g)
    ensures WellFormedGroups(Insert(gs, g.name, g).0)
  {
    InsertKeepsValid(gs, g);
    var gs' := Insert(gs, g.name, g).0;
    if g.name in Keys(gs) {
      var i := IndexOf(gs, g.name).value;
      assert forall j :: 0 <= j < |gs'| ==> gs'[j] == (if j == i then (g.name, g) else gs[j]);
    } else {
      assert forall j :: 0 <= j < |gs'| ==> gs'[j] == (if j == |gs| then (g.name, g) else gs[j]);
    }
  }

  lemma CloseKeepsWellFormed(st: ParseState)
    requires WellFormedState(st)
    ensures WellFormedGroups(Close(st))
  {
    if st.current.Some? {
      InsertKeepsWellFormed(st.groups, st.current.value);
    }
  }

  /** A header's name is a line when the header is. */
  lemma HeaderNameIsLine(line: string, h: string)
    requires IsLine(line) && line == GroupHeader(h)
    ensures IsLine(h)
  {
    assert forall i :: 0 <= i < |h| ==> h[i] == line[i + 1];
  }

  lemma AddPairKeepsWellFormed(st: ParseState, m: KvMatch, lineno: nat)
    requires WellFormedState(st) && IsWellFormedMatch(m)
    requires AddPair(st, m, lineno).Ok?
    ensures WellFormedState(AddPair(st, m, lineno).value)
  {
    if st.current.Some? {
      var g := st.current.value;
      var kv := EntryOf(m, st.decor);
      var g' := GroupInsert(g, kv).0;
      assert WellFormedEntry(kv) by {
        assert MatchOf(kv) == m;
      }
      AppendedEntryKeepsWellFormed(g, g', kv);
    }
  }

  /** A well-formed group with a well-formed pair appended under a new key
      stays well formed. */
  lemma AppendedEntryKeepsWellFormed(g: Group, g': Group, kv: KeyValuePair)
    requires WellFormedGroup(g) && WellFormedEntry(kv) && ValidGroup(g')
    requires g'.name == g.name && g'.decor == g.decor
    requires g'.entries == g.entries + [(KeyOf(kv), kv)]
    ensures WellFormedGroup(g')
  {
    assert forall i :: 0 <= i < |g'.entries| ==> g'.entries[i].1 == (if i < |g.entries| then g.entries[i].1 else kv);
  }

  lemma StepKeepsWellFormed(st: ParseState, l: Line, lineno: nat)
    requires WellFormedState(st) && IsLine(l.text) && Honest(l)
    requires Step(st, l, lineno).Ok?
    ensures WellFormedState(Step(st, l, lineno).value)
  {
    match l.kind
    case Decoration =>
      DecorKeepsWellFormed(st, l.text);
    case Header(h) =>
      assert Step(st, l, lineno) == OpenGroup(st, h, lineno);
      HeaderKeepsWellFormed(st, l.text, h, lineno);
    case Pair(m) =>
      assert Step(st, l, lineno) == AddPair(st, m, lineno);
      PairIsWellFormed(l.text, m);
      AddPairKeepsWellFormed(st, m, lineno);
    case Invalid =>
  }

  lemma DecorKeepsWellFormed(st: ParseState, text: string)
    requires WellFormedState(st) && IsLine(text) && Classify(text) == Decoration
    ensures WellFormedState(st.(decor := st.decor + [text]))
  {
    assert IsDecorLine(text);
    var d := st.decor + [text];
    assert forall i :: 0 <= i < |d| ==> d[i] == (if i < |st.decor| then st.decor[i] else text);
  }

  lemma HeaderKeepsWellFormed(st: ParseState, text: string, h: string, lineno: nat)
    requires WellFormedState(st) && IsLine(text) && Classify(text) == Header(h)
    requires OpenGroup(st, h, lineno).Ok?
    ensures WellFormedState(OpenGroup(st, h, lineno).value)
  {
    assert ParseAsHeader(text) == Some(h);
    HeaderNameIsLine(text, h);
    CloseKeepsWellFormed(st);
  }

  /** A pair line's match is well formed. */
  lemma PairIsWellFormed(text: string, m: KvMatch)
    requires Classify(text) == Pair(m)
    ensures IsWellFormedMatch(m)
  {
    assert ParseAsKeyValuePair(text) == Some(m);
  }

  lemma {:induction false} RunKeepsWellFormed(st: ParseState, ls: seq<Line>, lineno: nat)
    requires WellFormedState(st)
    requires forall i :: 0 <= i < |ls| ==> IsLine(ls[i].text) && Honest(ls[i])
    requires Run(st, ls, lineno).Ok?
    ensures WellFormedState(Run(st, ls, lineno).value)
    decreases |ls|
  {
    if |ls| > 0 {
      RunStep(st, ls, lineno);
      StepKeepsWellFormed(st, ls[0], lineno);
      var st' := Step(st, ls[0], lineno).value;
      assert forall i :: 0 <= i < |ls| - 1 ==> ls[1..][i] == ls[i + 1];
      RunKeepsWellFormed(st', ls[1..], lineno + 1);
    }
  }

  /** Everything `parse` returns is well formed. */
  lemma ParseIsWellFormed(s: string)
    requires Parse(s).Ok?
    ensures WellFormed(Parse(s).value)
    ensures ValidKeyFile(Parse(s).value)
  {
    var ls := ClassifyLines(Lines(s));
    forall i | 0 <= i < |ls| ensures IsLine(ls[i].text) && Honest(ls[i]) {
      ClassifiedAt(Lines(s), i);
    }
    RunKeepsWellFormed(Initial, ls, 0);
    CloseKeepsWellFormed(Run(Initial, ls, 0).value);
  }

  // ================= errors =================

  /** A line that is neither decor, nor a header, nor a key-value pair makes
      the whole loop fail, at that line or at an earlier error. */
  lemma {:induction false} InvalidLineIsFatal(st: ParseState, ls: seq<Line>, lineno: nat, k: nat)
    requires k < |ls| && ls[k].kind.Invalid?
    ensures Run(st, ls, lineno).Err?
    ensures LineOf(Run(st, ls, lineno).error) <= lineno + k
    decreases |ls|
  {
    var s := Step(st, ls[0], lineno);
    RunHead(st, ls, lineno);
    if k > 0 && s.Ok? {
      assert ls[1..][k - 1] == ls[k];
      InvalidLineIsFatal(s.value, ls[1..], lineno + 1, k - 1);
    }
  }

  /** A turn of the loop that does not fail hands its state to the rest. */
  lemma RunStep(st: ParseState, ls: seq<Line>, lineno: nat)
    requires |ls| > 0 && Run(st, ls, lineno).Ok?
    ensures Step(st, ls[0], lineno).Ok?
    ensures Run(st, ls, lineno) == Run(Step(st, ls[0], lineno).value, ls[1..], lineno + 1)
  {
  }

  /** A line of text that the parser cannot read makes `parse` fail, at that
      line or an earlier one. */
  lemma InvalidLineRejectsText(s: string, k: nat)
    requires k < |Lines(s)| && Classify(Lines(s)[k]).Invalid?
    ensures Parse(s).Err? && LineOf(Parse(s).error) <= k
  {
    ClassifiedAt(Lines(s), k);
    InvalidLineIsFatal(Initial, ClassifyLines(Lines(s)), 0, k);
  }

  // ================= what each kind of line does =================

  /** Decor lines are held back, in order, and nothing else changes. */
  lemma DecorIsHeldBack(st: ParseState, l: Line, lineno: nat)
    requires l.kind.Decoration?
    ensures Step(st, l, lineno) == Ok(ParseState(st.current, st.groups, st.decor + [l.text]))
  {
  }

  /** A header fails exactly when its name is taken; otherwise it closes the
      open group and opens an empty one that takes the pending decor. */
  lemma HeaderTakesDecor(st: ParseState, l: Line, lineno: nat)
    requires l.kind.Header?
    ensures Step(st, l, lineno).Err? <==> l.kind.name in Keys(st.groups) || OpenNameIs(st, l.kind.name)
    ensures Step(st, l, lineno).Err? ==> Step(st, l, lineno).error == DuplicateGroup(l.kind.name, lineno)
    ensures Step(st, l, lineno).Ok? ==>
      Step(st, l, lineno).value == ParseState(Some(Group(l.kind.name, [], st.decor)), Close(st), [])
  {
  }

  /** A pair line with no open group is dropped, and the pending decor stays
      pending. */
  lemma OrphanPairIsDropped(st: ParseState, l: Line, lineno: nat)
    requires l.kind.Pair? && st.current.None?
    ensures Step(st, l, lineno) == Ok(st)
  {
  }

  /** A pair line in an open group fails exactly when the group already
      holds its key under the same locale; otherwise the pair, with the
      pending decor, is appended to the group. */
  lemma PairTakesDecor(st: ParseState, l: Line, lineno: nat)
    requires l.kind.Pair? && st.current.Some?
    ensures var m := l.kind.m;
      Step(st, l, lineno).Err? <==> (m.key, m.locale) in Keys(st.current.value.entries)
    ensures Step(st, l, lineno).Err? ==> Step(st, l, lineno).error == DuplicateKey(KeyText(l.kind.m), lineno)
    ensures Step(st, l, lineno).Ok? ==>
      var g := st.current.value;
      var kv := EntryOf(l.kind.m, st.decor);
      && kv.decor == st.decor
      && Step(st, l, lineno).value == ParseState(Some(g.(entries := g.entries + [(KeyOf(kv), kv)])), st.groups, [])
  {
    var m := l.kind.m;
    var g := st.current.value;
    var kv := EntryOf(m, st.decor);
    assert KeyOf(kv) == (m.key, m.locale);
    assert GroupGet(g, kv.key, kv.locale).Some? <==> (m.key, m.locale) in Keys(g.entries);
  }

  /** Closing the open group adds it as a new last group when its name is
      new, and otherwise leaves the number of groups alone. */
  lemma CloseSize(st: ParseState)
    ensures |Close(st)| == |st.groups| + (if st.current.Some? && st.current.value.name !in Keys(st.groups) then 1 else 0)
    ensures forall h :: h !in Keys(st.groups) && !OpenNameIs(st, h) ==> h !in Keys(Close(st))
  {
    if st.current.Some? {
      var g := st.current.value;
      if g.name !in Keys(st.groups) {
        KeysConcat(st.groups, [(g.name, g)]);
      }
    }
  }

  /** As the program has it, a header that repeats the open group's name is
      not an error. The open group is closed, and a new, empty group with
      that name is opened that takes the first one's slot when it is closed
      in turn: the first group's pairs are lost and the count of groups
      does not grow. */
  lemma RepeatedHeaderDropsGroup(st: ParseState, lineno: nat)
    requires st.current.Some? && st.current.value.name !in Keys(st.groups)
    ensures var g := st.current.value;
      && OpenGroupAsWritten(st, g.name, lineno).Ok?
      && var st' := OpenGroupAsWritten(st, g.name, lineno).value;
      && Close(st) == st.groups + [(g.name, g)]
      && Close(st') == st.groups + [(g.name, Group(g.name, [], st.decor))]
      && |Close(st')| == |Close(st)|
  {
    var g := st.current.value;
    assert Close(st) == st.groups + [(g.name, g)];
    KeysConcat(st.groups, [(g.name, g)]);
    IndexOfAppended(st.groups, g.name, g);
  }

  /** With the corrected check the same header is an error. */
  lemma RepeatedHeaderIsRejected(st: ParseState, lineno: nat)
    requires st.current.Some?
    ensures OpenGroup(st, st.current.value.name, lineno) == Err(DuplicateGroup(st.current.value.name, lineno))
  {
  }

  /** Each turn of the loop adds one group for a header and none otherwise. */
  lemma StepCountsGroups(st: ParseState, l: Line, lineno: nat)
    requires Step(st, l, lineno).Ok?
    ensures |Close(Step(st, l, lineno).value)| == |Close(st)| + (if l.kind.Header? then 1 else 0)
  {
    var st' := Step(st, l, lineno).value;
    match l.kind
    case Decoration =>
    case Header(h) =>
      CloseSize(st);
      CloseSize(st');
    case Pair(m) =>
      if st.current.Some? {
        CloseSize(st);
        CloseSize(st');
      }
    case Invalid =>
  }

  /** The number of header lines among classified lines. */
  function HeaderCount(ls: seq<Line>): nat
    decreases |ls|
  {
    if |ls| == 0 then 0 else (if ls[0].kind.Header? then 1 else 0) + HeaderCount(ls[1..])
  }

  lemma {:induction false} RunCountsGroups(st: ParseState, ls: seq<Line>, lineno: nat)
    requires Run(st, ls, lineno).Ok?
    ensures |Close(Run(st, ls, lineno).value)| == |Close(st)| + HeaderCount(ls)
    decreases |ls|
  {
    if |ls| > 0 {
      RunStep(st, ls, lineno);
      StepCountsGroups(st, ls[0], lineno);
      RunCountsGroups(Step(st, ls[0], lineno).value, ls[1..], lineno + 1);
    }
  }

  /** A parse that succeeds keeps one group per header line: no group is
      replaced by a later one of the same name. */
  lemma ParseKeepsEveryGroup(s: string)
    requires Parse(s).Ok?
    ensures |Parse(s).value.groups| == HeaderCount(ClassifyLines(Lines(s)))
  {
    RunCountsGroups(Initial, ClassifyLines(Lines(s)), 0);
  }

  // ================= the program's own header check, over a whole text =================

  /** One turn of the loop as the program writes it: the header branch
      consults only the finished groups; every other branch is `Step`'s. */
  function StepAsWritten(st: ParseState, l: Line, lineno: nat): (r: Result<ParseState, KeyFileError>)
    ensures r.Err? ==> LineOf(r.error) == lineno && Explains(r.error, l)
  {
    match l.kind
    case Header(h) => OpenGroupAsWritten(st, h, lineno)
    case _ => Step(st, l, lineno)
  }

  /** The loop of `parse` as the program writes it. */
  function RunAsWritten(st: ParseState, ls: seq<Line>, lineno: nat): Result<ParseState, KeyFileError>
    decreases |ls|
  {
    if |ls| == 0 then Ok(st)
    else
      match StepAsWritten(st, ls[0], lineno)
      case Err(e) => Err(e)
      case Ok(st') => RunAsWritten(st', ls[1..], lineno + 1)
  }

  lemma RunAsWrittenHead(st: ParseState, ls: seq<Line>, lineno: nat)
    requires |ls| > 0
    ensures StepAsWritten(st, ls[0], lineno).Err? ==> RunAsWritten(st, ls, lineno) == StepAsWritten(st, ls[0], lineno)
    ensures StepAsWritten(st, ls[0], lineno).Ok? ==>
      RunAsWritten(st, ls, lineno) == RunAsWritten(StepAsWritten(st, ls[0], lineno).value, ls[1..], lineno + 1)
  {
  }

  /** The program's loop, failing, names a line among the remaining ones,
      and that line caused it. */
  lemma {:induction false} RunAsWrittenExplains(st: ParseState, ls: seq<Line>, lineno: nat, e: KeyFileError)
    requires RunAsWritten(st, ls, lineno) == Err(e)
    ensures NamesCause(e, ls, lineno)
    decreases |ls|
  {
    var mid := FailingRunAsWrittenHead(st, ls, lineno, e);
    if mid.Some? {
      RunAsWrittenExplains(mid.value, ls[1..], lineno + 1, e);
      ShiftExplains(e, ls, lineno);
    }
  }

  /** `FailingRunHead` for the program's loop. */
  lemma FailingRunAsWrittenHead(st: ParseState, ls: seq<Line>, lineno: nat, e: KeyFileError) returns (mid: Option<ParseState>)
    requires RunAsWritten(st, ls, lineno) == Err(e)
    ensures |ls| > 0
    ensures mid.None? ==> NamesCause(e, ls, lineno)
    ensures mid.Some? ==> RunAsWritten(mid.value, ls[1..], lineno + 1) == Err(e)
  {
    RunAsWrittenHead(st, ls, lineno);
    var s := StepAsWritten(st, ls[0], lineno);
    mid := if s.Ok? then Some(s.value) else None;
  }

  /** `KeyFile::parse` exactly as the program writes it, repeated-header
      acceptance included. An error names a line of the text whose content
      explains it. */
  function ParseAsWritten(s: string): (r: Result<KeyFile, KeyFileError>)
    ensures r.Err? ==> LineOf(r.error) < |Lines(s)| && Blames(r.error, Lines(s)[LineOf(r.error)])
  {
    var ls := ClassifyLines(Lines(s));
    match RunAsWritten(Initial, ls, 0)
    case Err(e) =>
      RunAsWrittenExplains(Initial, ls, 0, e);
      ClassifiedAt(Lines(s), LineOf(e));
      Err(e)
    case Ok(st) => Ok(KeyFile(Close(st), st.decor))
  }

  /** Where the corrected turn succeeds, the program's turn does the same. */
  lemma StepAgrees(st: ParseState, l: Line, lineno: nat)
    requires Step(st, l, lineno).Ok?
    ensures StepAsWritten(st, l, lineno) == Step(st, l, lineno)
  {
  }

  /** The two turns part ways only on a header that repeats the open group's
      name: the program accepts it and the corrected check does not. */
  lemma StepDiffers(st: ParseState, l: Line, lineno: nat)
    requires StepAsWritten(st, l, lineno).Ok? && Step(st, l, lineno).Err?
    ensures l.kind.Header? && OpenNameIs(st, l.kind.name)
    ensures Step(st, l, lineno) == Err(DuplicateGroup(l.kind.name, lineno))
  {
  }

  lemma {:induction false} RunAgrees(st: ParseState, ls: seq<Line>, lineno: nat)
    requires Run(st, ls, lineno).Ok?
    ensures RunAsWritten(st, ls, lineno) == Run(st, ls, lineno)
    decreases |ls|
  {
    if |ls| > 0 {
      RunStep(st, ls, lineno);
      StepAgrees(st, ls[0], lineno);
      RunAgrees(Step(st, ls[0], lineno).value, ls[1..], lineno + 1);
    }
  }

  /** When the program's loop succeeds and the corrected one fails, the
      corrected one fails on a repeated header. */
  lemma {:induction false} RunRejectsOnlyRepeats(st: ParseState, ls: seq<Line>, lineno: nat)
    requires RunAsWritten(st, ls, lineno).Ok? && Run(st, ls, lineno).Err?
    ensures Run(st, ls, lineno).error.DuplicateGroup?
    decreases |ls|
  {
    var w := StepAsWritten(st, ls[0], lineno);
    RunAsWrittenHead(st, ls, lineno);
    assert w.Ok?;
    RunHead(st, ls, lineno);
    if Step(st, ls[0], lineno).Err? {
      StepDiffers(st, ls[0], lineno);
    } else {
      StepAgrees(st, ls[0], lineno);
      RunRejectsOnlyRepeats(w.value, ls[1..], lineno + 1);
    }
  }

  /** Every text the corrected parser accepts, the program parses to the
      same key file. */
  lemma ParseAgrees(s: string)
    requires Parse(s).Ok?
    ensures ParseAsWritten(s) == Parse(s)
  {
    RunAgrees(Initial, ClassifyLines(Lines(s)), 0);
  }

  /** A text the program accepts and the corrected parser rejects has a
      repeated header, and that is the error. */
  lemma ParseRejectsOnlyRepeats(s: string)
    requires ParseAsWritten(s).Ok? && Parse(s).Err?
    ensures Parse(s).error.DuplicateGroup?
  {
    RunRejectsOnlyRepeats(Initial, ClassifyLines(Lines(s)), 0);
  }

  // ---- a repeated header on a whole text ----

  /** A group `A` with one pair, then a second `[A]` header: the text
      `"[A]\na=1\n[A]\n"`. */
  const RepeatedHeader: string := Unlines(["[A]", "a=1", "[A]"])

  /** Three lines classify one by one. */
  lemma ClassifyThree(ls: seq<string>)
    requires |ls| == 3
    ensures ClassifyLines(ls) == [Line(ls[0], Classify(ls[0])), Line(ls[1], Classify(ls[1])), Line(ls[2], Classify(ls[2]))]
  {
    ClassifiedAt(ls, 0);
    ClassifiedAt(ls, 1);
    ClassifiedAt(ls, 2);
  }

  /** `[A]` is a header line and `a=1` a key-value line. */
  lemma ClassifyExamples()
    ensures Classify("[A]") == Header("A")
    ensures Classify("a=1") == Pair(KvMatch("a", None, "1", "", ""))
  {
    HeaderExampleShort();
    KeyValueExampleShort();
    ClassifiedAsHeader("[A]", "A");
    ClassifiedAsPair("a=1", KvMatch("a", None, "1", "", ""));
  }

  lemma ClassifiedAsHeader(line: string, h: string)
    requires !IsDecorLine(line) && ParseAsHeader(line) == Some(h)
    ensures Classify(line) == Header(h)
  {
  }

  lemma ClassifiedAsPair(line: string, m: KvMatch)
    requires !IsDecorLine(line) && ParseAsHeader(line).None?
    requires ParseAsKeyValuePair(line) == Some(m)
    ensures Classify(line) == Pair(m)
  {
  }

  /** Its lines, classified: a header, a pair, the same header. */
  lemma RepeatedHeaderLines()
    ensures ClassifyLines(Lines(RepeatedHeader)) ==
      [Line("[A]", Header("A")), Line("a=1", Pair(KvMatch("a", None, "1", "", ""))), Line("[A]", Header("A"))]
  {
    LinesExample();
    ClassifyExamples();
    ClassifyThree(Lines(RepeatedHeader));
  }

  /** Three successful turns of the program's loop make its whole run over
      three lines. */
  lemma RunAsWrittenThree(st: ParseState, ls: seq<Line>, st1: ParseState, st2: ParseState, st3: ParseState)
    requires |ls| == 3
    requires StepAsWritten(st, ls[0], 0) == Ok(st1)
    requires StepAsWritten(st1, ls[1], 1) == Ok(st2)
    requires StepAsWritten(st2, ls[2], 2) == Ok(st3)
    ensures RunAsWritten(st, ls, 0) == Ok(st3)
  {
    RunAsWrittenHead(st, ls, 0);
    RunAsWrittenHead(st1, ls[1..], 1);
    RunAsWrittenHead(st2, ls[2..], 2);
    assert ls[1..][0] == ls[1] && ls[1..][1..] == ls[2..];
    assert ls[2..][0] == ls[2] && ls[2..][1..] == [];
  }

  /** Two successful turns and a failing third make the corrected loop fail
      with the third turn's error. */
  lemma RunFailsThird(st: ParseState, ls: seq<Line>, st1: ParseState, st2: ParseState, e: KeyFileError)
    requires |ls| == 3
    requires Step(st, ls[0], 0) == Ok(st1)
    requires Step(st1, ls[1], 1) == Ok(st2)
    requires Step(st2, ls[2], 2) == Err(e)
    ensures Run(st, ls, 0) == Err(e)
  {
    RunHead(st, ls, 0);
    RunHead(st1, ls[1..], 1);
    RunHead(st2, ls[2..], 2);
    assert ls[1..][0] == ls[1] && ls[1..][1..] == ls[2..];
    assert ls[2..][0] == ls[2];
  }

  /** The open group after the first `[A]`, and after `a=1`. */
  const OpenedA: ParseState := ParseState(Some(Group("A", [], [])), [], [])
  const FilledA: ParseState :=
    ParseState(Some(Group("A", [(("a", None), KeyValuePair("a", None, "1", "", "", []))], [])), [], [])

  /** The first turn opens `A` under both checks. */
  lemma OpensA(l: Line)
    requires l == Line("[A]", Header("A"))
    ensures StepAsWritten(Initial, l, 0) == Step(Initial, l, 0) == Ok(OpenedA)
  {
  }

  /** The second turn adds `a=1` to `A` under both checks. */
  lemma FillsA(l: Line)
    requires l == Line("a=1", Pair(KvMatch("a", None, "1", "", "")))
    ensures StepAsWritten(OpenedA, l, 1) == Step(OpenedA, l, 1) == Ok(FilledA)
  {
    InsertIntoEmpty(Group("A", [], []), KeyValuePair("a", None, "1", "", "", []));
  }

  /** A pair put in a group with no entries becomes its only entry. */
  lemma InsertIntoEmpty(g: Group, kv: KeyValuePair)
    requires g.entries == []
    ensures GroupInsert(g, kv) == (g.(entries := [(KeyOf(kv), kv)]), None)
  {
    assert GroupGet(g, kv.key, kv.locale).None?;
    assert [] + [(KeyOf(kv), kv)] == [(KeyOf(kv), kv)];
  }

  /** The third turn: the program closes the filled `A` and opens an empty
      one in its place; the corrected check rejects the header. */
  lemma ReopensA(l: Line) returns (st3: ParseState)
    requires l == Line("[A]", Header("A"))
    ensures StepAsWritten(FilledA, l, 2) == Ok(st3)
    ensures Step(FilledA, l, 2) == Err(DuplicateGroup("A", 2))
    ensures Close(st3) == [("A", Group("A", [], []))] && st3.decor == []
  {
    var g2 := FilledA.current.value;
    st3 := ParseState(Some(Group("A", [], [])), [("A", g2)], []);
    assert Close(FilledA) == [("A", g2)];
    assert IndexOf([("A", g2)], "A") == Some(0);
  }

  /** The program reads the text without complaint and keeps only the group
      the second header opened: the pair `a=1` is gone. With the corrected
      check the second header is an error on line 2. */
  lemma RepeatedHeaderText()
    ensures ParseAsWritten(RepeatedHeader) == Ok(KeyFile([("A", Group("A", [], []))], []))
    ensures Parse(RepeatedHeader) == Err(DuplicateGroup("A", 2))
  {
    RepeatedHeaderLines();
    var ls := ClassifyLines(Lines(RepeatedHeader));
    OpensA(ls[0]);
    FillsA(ls[1]);
    var st3 := ReopensA(ls[2]);
    RunAsWrittenThree(Initial, ls, OpenedA, FilledA, st3);
    RunFailsThird(Initial, ls, OpenedA, FilledA, DuplicateGroup("A", 2));
  }
}
