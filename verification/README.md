# keyfile, modelled in Dafny

A model of the core of the Rust crate `keyfile`. The crate parses and
serialises the KeyFile syntax of the freedesktop.org Desktop Entry
Specification ("Basic format of the file" and "Localized values for keys")
and preserves formatting: every comment, blank line and the whitespace around
each `=` is kept. So parsing a file and printing it back gives the original
text.

The model has four layers. Each is a Dafny module that follows a source file.

- `BasicTypes` (`src/types/basic.rs`) holds the nine validated string
  newtypes: GroupName, Key, Language, Country, Encoding, Modifier, Value,
  Whitespace and Decor. Each has a predicate saying exactly which strings it
  accepts, plus a `...TryFrom` function that returns `Result`, with the
  error variant the source picks. `new_unchecked` and `From` are the
  datatype constructor and its field.
- `Matchers` (`src/parse.rs`) has hand-written recognisers for the two
  anchored patterns, `parse_as_header` and `parse_as_key_value_pair`. Their
  partner is `Reassemble`, which puts a match back together. Both directions
  are proved: every match reassembles to its line, and every well-formed
  match is found again from the line it reassembles to.
- `Types` and `KeyFiles` (`src/types.rs`, `src/keyfile.rs`) hold the
  document model: Locale, KeyValuePair, Group and KeyFile, with their
  constructors, setters, `get`/`insert`/`remove` and rendering (`Display`).
  An `IndexMap` is an `OrderedMap` entry sequence with distinct keys. It
  has `insert`, which replaces in place or appends, and `shift_remove`,
  which keeps the order of the rest.
- `Parser` and `RoundTrip` (`src/keyfile.rs:74-138`) hold `KeyFile::parse`
  and the two round trips. Parsing then rendering gives the text back.
  Rendering then parsing gives the key file back.

`TextLines.Lines` follows Rust's `str::lines`. It splits on `'\n'`, drops
one `'\r'` just before each `'\n'` and yields no empty piece after a final
`'\n'`. A last piece with no `'\n'` after it is kept as it is, so `"x\r"`
gives the single line `"x\r"`.

The parser is a fold over classified lines: `Parse(s)` is
`Run(Initial, ClassifyLines(Lines(s)), 0)`. The source classifies each line
inside its loop. Classification is a pure function of one line, so
classifying every line first and then folding gives the same results, errors
and line numbers.

The older, unvalidated snapshot of the model (`src/basic.rs`) is the module
`LegacyBasic`. Lemmas show that it renders exactly like the current model.
The older validators (`src/validate.rs`) are `LegacyValidate`. They are
written as loops with invariants and proved equal to the `BasicTypes`
predicates.

## Model

| member | source | states |
|---|---|---|
| CharClass.PrefixLen | src/types/basic.rs:141-152 | the length of the longest prefix whose characters pass a test; the character after it fails the test (the "first offending character" the validators report) |
| CharClass.MatchesPlus | src/parse.rs:23 | a regex `[class]+` match holds iff the text is non-empty and every character is in the class |
| TextLines.Lines | src/keyfile.rs:80 | every piece `str::lines` yields is newline-free, and non-empty text yields at least one piece |
| TextLines.LastLineKept | src/keyfile.rs:80 | text with no line feed is a single line, kept whole, a final carriage return included |
| TextLines.LastCarriageReturnKept | src/keyfile.rs:80 | `"x\r"` splits into the one line `"x\r"` |
| TextLines.LinesExample | src/keyfile.rs:80 | the text `"[A]\na=1\n[A]\n"` (written as its three lines, each followed by `'\n'`) splits into `"[A]"`, `"a=1"` and `"[A]"` |
| TextLines.StripCR | src/keyfile.rs:80 | a line piece loses at most one trailing carriage return |
| TextLines.UnlinesLines | src/keyfile.rs:10-12 | text without `'\r'` that is empty or ends in `'\n'` is rebuilt exactly by joining its lines with a newline after each |
| TextLines.LinesUnlines | src/keyfile.rs:192-204 | joining newline-free lines that do not end in `'\r'`, each followed by `'\n'`, and splitting again gives the same lines |
| TextLines.LinesOfLine | src/keyfile.rs:80 | a plain line followed by a newline is split off as the first line |
| OrderedMap.Keys | src/keyfile.rs:76-77 | the key column of an ordered map, slot by slot |
| OrderedMap.Values | src/types.rs:301-315 | the value column of an ordered map, slot by slot |
| OrderedMap.IndexOf | src/types.rs:320-322 | a key's slot is found iff the key is present; the slot holds that key and no earlier slot does |
| OrderedMap.Get | src/types.rs:320-322 | lookup succeeds iff the key is present, and returns a value stored under that key |
| OrderedMap.Insert | src/types.rs:337-341 | `IndexMap::insert`: a new key is appended and None returned; a present key is replaced in its slot and the old value returned; key order and distinctness are kept |
| OrderedMap.ShiftRemove | src/types.rs:348-350 | `IndexMap::shift_remove`: an absent key changes nothing; a present key's slot is cut out and its value returned; distinctness is kept |
| OrderedMap.GetAfterInsert | src/types.rs:337-341 | after insert, looking up the key gives the inserted value |
| OrderedMap.GetOtherAfterInsert | src/types.rs:337-341 | insert does not change the lookup of any other key |
| OrderedMap.InsertKeepsOtherSlot | src/keyfile.rs:170-180 | insert leaves every slot holding another key where it was |
| OrderedMap.GetAfterRemove | src/types.rs:348-350 | after removal from a map with distinct keys the key is gone |
| OrderedMap.GetOtherAfterRemove | src/types.rs:348-350 | removal does not change the lookup of any other key |
| OrderedMap.RemoveKeepsOrder | src/keyfile.rs:182-189 | after removal the keys are the old keys in the same order, less the removed one |
| OrderedMap.Without | src/keyfile.rs:182-189 | the reference "same order, this key dropped" sequence, free of that key |
| BasicTypes.GroupNameTryFrom | src/types/basic.rs:70-79 | accepts exactly non-empty strings of printable ASCII other than `[` and `]`, and stores the input unchanged |
| BasicTypes.KeyCheck | src/types/basic.rs:138-153 | no error iff every character is ASCII alphanumeric or `-`; otherwise the first bad character decides NotAscii or NotAlphanumeric |
| BasicTypes.KeyTryFrom | src/types/basic.rs:138-153 | accepts exactly the Key strings, empty included; stores the input; the error names the first offending character's kind |
| BasicTypes.LanguageTryFrom | src/types/basic.rs:210-220 | accepts exactly non-empty ASCII-alphabetic strings and stores them unchanged |
| BasicTypes.CountryTryFrom | src/types/basic.rs:278-288 | accepts exactly non-empty ASCII-alphabetic strings and stores them unchanged |
| BasicTypes.EncodingTryFrom | src/types/basic.rs:345-355 | accepts exactly non-empty strings of ASCII alphanumerics and `-` and stores them unchanged |
| BasicTypes.ModifierTryFrom | src/types/basic.rs:412-422 | accepts exactly non-empty ASCII-alphabetic strings and stores them unchanged |
| BasicTypes.ValueCheck | src/types/basic.rs:480-495 | no error iff no character is a control character; the only error ever given is ContainsControlCharacter |
| BasicTypes.ValueTryFrom | src/types/basic.rs:480-495 | accepts exactly control-free strings, stores them unchanged, and never yields ContainsNewline |
| BasicTypes.WhitespaceCheck | src/types/basic.rs:552-561 | passes iff every character is space, tab, `\n`, `\x0C` or `\r` (empty included) |
| BasicTypes.WhitespaceTryFrom | src/types/basic.rs:552-561 | accepts exactly those strings and stores them unchanged |
| BasicTypes.DecorCheck | src/types/basic.rs:621-633 | passes iff every line is empty or starts with `#` |
| BasicTypes.DecorTryFrom | src/types/basic.rs:621-633 | accepts exactly such line lists and stores them unchanged |
| BasicTypes.GroupNameExamples | src/types/basic.rs:33-52 | `"hello"` is a group name and `"[[[[["` is not |
| BasicTypes.KeyAcceptExamples | src/types/basic.rs:100-119 | `"hello"` is a key, as the doc example shows; `"abc-123"` and the empty string, inputs chosen for this model, are keys too |
| BasicTypes.KeyRejectExamples | src/types/basic.rs:100-119 | `"//!!/"`, the doc example, fails with NotAlphanumeric; so does `"abc def"`, an input chosen for this model |
| BasicTypes.KeyNonAsciiExample | src/types/basic.rs:142-148 | a key whose first bad character is non-ASCII fails with NotAscii |
| BasicTypes.LocalePartExamples | src/types/basic.rs:173-192 | `"de"`, `"DE"`, `"utf8"` and `"latin"` are accepted; `"42"`, `"!!"`, `"morse!"` and `"!foo!"` are rejected |
| BasicTypes.ValueExamples | src/types/basic.rs:442-461 | `"WORLD"` is a value; `"new\nline"` fails with ContainsControlCharacter |
| BasicTypes.WhitespaceAndDecorExamples | src/types/basic.rs:513-533 | spaces, tabs, `\n\r\x0C` are whitespace and letters are not; a comment or an empty line is decor and `"This=is not a comment"` is not |
| Matchers.ParseAsHeader | src/parse.rs:27-29 | a name is found iff the line has at least three characters, starts with `[` and ends with `]`; the line is `[` name `]` |
| Matchers.HeaderRoundTrip | src/parse.rs:6-12 | any non-empty name in brackets is recognised as that name |
| Matchers.GroupNamesAreHeaderNames | src/types/basic.rs:8-10 | every valid group name survives as a header |
| Matchers.HeaderNamesNeedNotBeGroupNames | src/parse.rs:11 | the header pattern admits names GroupName rejects: inner brackets, non-ASCII |
| Matchers.HeaderExampleHelloWorld | src/parse.rs:56-57 | `"[hello world]"` gives `"hello world"` |
| Matchers.HeaderExampleDesktopEntry | src/parse.rs:58 | `"[Desktop Entry]"` gives `"Desktop Entry"` |
| Matchers.HeaderExampleDesktopAction | src/parse.rs:59-62 | `"[Desktop Action new-window]"` gives `"Desktop Action new-window"` |
| Matchers.HeaderExampleShort | src/parse.rs:27-29 | `"[A]"` gives `"A"` |
| Matchers.NonHeaderExamples | src/parse.rs:27-29 | `"[]"`, a key-value line and a header with a trailing space are not headers |
| Matchers.TakeWhile | src/parse.rs:23 | a greedy run of one class: the run and the rest rebuild the text, and the rest does not start in the class |
| Matchers.OptionalPart | src/parse.rs:23 | an optional `_country` or `@modifier` group: what is taken is a non-empty alphabetic word and nothing alphabetic follows it |
| Matchers.OptionalPartComplete | src/parse.rs:23 | the optional group finds exactly the part that was written |
| Matchers.RenderLocaleAsBody | src/types.rs:251-265 | a locale renders as its language, then `_country`, then `@modifier` |
| Matchers.ParseLocaleBody | src/parse.rs:23 | a locale body is recognised only as something that renders back, followed by `]`, to the text |
| Matchers.ParseLocalePart | src/parse.rs:23 | a bracketed locale is recognised only as text that renders back from it |
| Matchers.ParseOptionalLocale | src/parse.rs:23 | the optional locale group takes a rendered locale or nothing, and loses no text |
| Matchers.ParseLocaleBodyComplete | src/parse.rs:23 | every well-formed locale is found again in its rendering |
| Matchers.ParseLocalePartComplete | src/parse.rs:23 | every well-formed bracketed locale is found again |
| Matchers.ParseAssignment | src/parse.rs:23 | the `wsl = wsr value` tail: blank runs around `=`, a value that neither starts with a blank nor holds a newline, and the parts rebuild the text |
| Matchers.ParseAssignmentComplete | src/parse.rs:23 | every such tail is split back into the parts it was made from |
| Matchers.ParseAsKeyValuePair | src/parse.rs:31-47 | every match is well formed (key, locale parts, blanks) and reassembles to the line |
| Matchers.MatchesStar | src/parse.rs:23 | a regex `[class]*` match holds iff every character is in the class |
| Matchers.ParseAsKeyValuePairComplete | src/parse.rs:31-47 | every well-formed match is found again from its reassembled line |
| Matchers.ParseAsKeyValuePairExact | src/parse.rs:31-47 | a line matches as `m` iff `m` is well formed and reassembles to the line |
| Matchers.MatchedPartsAreValid | src/parse.rs:31-47 | the captured key, language, country, modifier and both blanks satisfy the Key, Language, Country, Modifier and Whitespace predicates |
| Matchers.MatchedValueNeedNotBeValue | src/parse.rs:23 | a captured value may hold a tab, which Value rejects |
| Matchers.KeyValueExamplePlain | src/parse.rs:66-70 | `"Name=Files"` splits as asserted |
| Matchers.KeyValueExampleShort | src/parse.rs:31-47 | `"a=1"` splits into key `a`, no locale, value `1` and no blanks |
| Matchers.KeyValueExampleLang | src/parse.rs:71-74 | `"Name[de] =Dateien"` splits as asserted |
| Matchers.KeyValueExampleCountry | src/parse.rs:75-78 | `"Name[en_GB] = Files"` splits as asserted |
| Matchers.KeyValueExampleModifier | src/parse.rs:79-88 | `"Name[sr@latin]= Datoteke"` splits as asserted |
| Matchers.EncodedLocaleIsRejected | src/parse.rs:23 | a locale with an `.encoding` part makes the whole line fail to match |
| Matchers.BracketAfterKeyIsRejected | src/parse.rs:23 | a `[` after the key that opens no valid locale makes the line fail |
| Matchers.UnclosedLocale | src/parse.rs:23 | a bracket with no valid locale body is not taken as a locale |
| Matchers.BracketIsNotAssignment | src/parse.rs:23 | text starting with `[` cannot be the `wsl=wsr value` tail |
| Types.LocaleNew | src/types.rs:175-182 | `Locale::new` stores its parts and always sets no encoding |
| Types.LocaleNewWithEncoding | src/types.rs:184-196 | stores the encoding as given; otherwise equal to `Locale::new` |
| Types.LocaleIntoOwned | src/types.rs:200-207 | `into_owned` keeps the locale unchanged |
| Types.LocaleSetLang | src/types.rs:217-219 | stores the new language, returns the old one, keeps the other fields |
| Types.LocaleSetCountry | src/types.rs:229-231 | stores the new country, returns the old one, keeps the other fields |
| Types.LocaleSetModifier | src/types.rs:246-248 | stores the new modifier, returns the old one, keeps the other fields |
| Types.LocaleSettersRestore | src/types.rs:217-248 | each locale setter is undone by setting back the part it returned |
| Types.RenderLocaleIgnoresEncoding | src/types.rs:251-265 | the encoding is never rendered |
| Types.LocaleCmpProperties | src/types.rs:165-171 | the derived ordering calls two locales equal iff all four fields, encoding included, are equal, and is antisymmetric |
| Types.LocaleCmpTransitive | src/types.rs:165-171 | the derived ordering is transitive |
| Types.KvNew | src/types.rs:39-48 | `new` stores key, locale and value, puts `" "` on both sides of `=`, has no decor, and renders as `key[locale] = value` |
| Types.KvNewWithDecor | src/types.rs:50-67 | `new_with_decor` stores every argument unchanged |
| Types.KvIntoOwned | src/types.rs:71-82 | `into_owned` keeps the pair unchanged |
| Types.KvSetKey | src/types.rs:92-94 | stores the new key, returns the old one, keeps the other fields |
| Types.KvSetLocale | src/types.rs:104-106 | always leaves a locale, returns the old one, keeps the other fields |
| Types.KvSetValue | src/types.rs:116-118 | stores the new value, returns the old one, keeps the other fields |
| Types.KvSetWhitespace | src/types.rs:128-133 | stores both blanks, returns the old pair, keeps the other fields |
| Types.KvSetDecor | src/types.rs:143-145 | stores the new decor, returns the old one, keeps the other fields |
| Types.KvSettersRestore | src/types.rs:92-145 | each setter is undone by setting back the value it returned |
| Types.RenderEntriesSplit | src/types.rs:353-366 | a group's entries render slot by slot, each followed by a newline |
| Types.GroupNew | src/types.rs:279-285 | a new group is valid, has the given name and renders as `[name]` and a newline |
| Types.GroupFromEntries | src/types.rs:287-297 | stores name, entries and decor unchanged |
| Types.GroupGet | src/types.rs:320-322 | finds an entry iff (key, locale) is present; the entry found is the one stored under (key, locale), and has that key and locale |
| Types.InsertFreshEntry | src/types.rs:337-341 | a pair under a new compound key is appended and nothing else changes |
| Types.GroupInsert | src/types.rs:337-341 | a new (key, locale) is appended and None returned; an existing one is replaced in its slot and the old entry returned; the entry is then found; validity is kept |
| Types.GroupInsertAppendRender | src/types.rs:353-366 | inserting a new entry appends its line to the rendering |
| Types.GroupInsertReplaceRender | src/types.rs:353-366 | replacing an entry changes only its line in the rendering |
| Types.GroupRemove | src/types.rs:348-350 | returns the matching entry or None; removes only it and keeps the rest in order |
| Types.RemoveKeepsOtherEntries | src/types.rs:348-350 | removal keeps every other entry's lookup |
| Types.GroupRemoveRender | src/types.rs:353-366 | removing an entry deletes just its line from the rendering |
| Types.InsertAllRebuilds | src/types.rs:301-315 | re-inserting a valid group's entries one by one rebuilds the same entries in the same order |
| Types.GroupIntoOwnedIdentity | src/types.rs:301-315 | `into_owned` keeps a valid group and its rendering |
| KeyFiles.New | src/keyfile.rs:64-71 | a new key file is valid, has no groups and no decor, and renders as empty text |
| KeyFiles.GetGroup | src/keyfile.rs:159-161 | finds a group iff the name is present; the group found is the one stored under that name, and is valid and has that name |
| KeyFiles.InsertFreshGroup | src/keyfile.rs:170-180 | a group under a new name is appended and nothing else changes |
| KeyFiles.InsertGroup | src/keyfile.rs:170-180 | a new name is appended and None returned; an existing name is replaced in its slot and the old group returned; other groups, decor and validity are kept |
| KeyFiles.InsertGroupAppendRender | src/keyfile.rs:192-204 | inserting a new group adds its text before the trailing decor |
| KeyFiles.RemoveGroup | src/keyfile.rs:182-189 | returns the named group or None; others keep their lookups and their order; validity is kept |
| KeyFiles.RemoveGroupRender | src/keyfile.rs:192-204 | removing a group deletes just its text from the rendering |
| KeyFiles.RenderGroupsSplit | src/keyfile.rs:192-204 | a key file's groups render one after another in order |
| KeyFiles.InsertGroupsRebuilds | src/keyfile.rs:142-154 | re-inserting the groups one by one rebuilds the same groups in the same order |
| KeyFiles.IntoOwnedIdentity | src/keyfile.rs:142-154 | `into_owned` keeps a valid key file and its rendering |
| Parser.ClassifiedAt | src/keyfile.rs:80-128 | line `i` is classified on its own text alone |
| Parser.ClassifyLinesConcat | src/keyfile.rs:80 | classifying two runs of lines is classifying each in turn |
| Parser.Step | src/keyfile.rs:81-127 | one loop iteration, with the corrected header check: any error is raised at this line's number and describes this line |
| Parser.OpenGroupAsWritten | src/keyfile.rs:87-100 | the header check as written: it fails with DuplicateGroup iff the name is among the finished groups; otherwise it closes the open group into them and opens an empty group with that name carrying the pending decor |
| Parser.OpenGroup | src/keyfile.rs:87-100 | the corrected header check: it fails with DuplicateGroup iff the name is a finished group or the open one, and otherwise opens an empty group carrying the pending decor after closing the previous one |
| Parser.RunExplains | src/keyfile.rs:80-128 | any error of the loop names a line in the range it folded over, and that line caused it: invalid text, a header already present, or a duplicate `key[locale]` |
| Parser.Parse | src/keyfile.rs:74-138 | any error names a line that exists and describes that line of the text |
| Parser.ParseIsWellFormed | src/keyfile.rs:74-138 | a parsed key file is valid: distinct names and keys, map keys match the stored ones, decor lines are decor, and every entry is a well-formed match |
| Parser.StepKeepsWellFormed | src/keyfile.rs:81-127 | one loop iteration keeps the state well formed |
| Parser.DecorKeepsWellFormed | src/keyfile.rs:83-84 | holding back a decor line keeps the state well formed |
| Parser.HeaderKeepsWellFormed | src/keyfile.rs:87-100 | an accepted header keeps the state well formed, its name being a line |
| Parser.PairIsWellFormed | src/keyfile.rs:103-104 | a line read as a pair carries a well-formed match |
| Parser.RunKeepsWellFormed | src/keyfile.rs:80-128 | the whole loop keeps the state well formed |
| Parser.InvalidLineIsFatal | src/keyfile.rs:126-127 | a line that is neither decor, header nor pair makes the parse fail at or before it |
| Parser.InvalidLineRejectsText | src/keyfile.rs:126-127 | text with an invalid line does not parse, and the error is at or before it |
| Parser.RunStep | src/keyfile.rs:80-128 | a successful fold succeeded on its first line and went on from there |
| Parser.HeaderTakesDecor | src/keyfile.rs:87-100 | with the corrected check, a header fails with DuplicateGroup iff its name was already used; otherwise it opens an empty group carrying the pending decor and closes the previous one |
| Parser.OrphanPairIsDropped | src/keyfile.rs:103-104 | a pair before any header changes nothing, not even the pending decor |
| Parser.PairTakesDecor | src/keyfile.rs:103-123 | a pair in a group fails with DuplicateKey (`key[locale]` or `key`) iff its key and locale are already there; otherwise it is appended with the pending decor |
| Parser.CloseSize | src/keyfile.rs:91-95 | closing adds one group iff the open group's name is new, and adds no other name |
| Parser.RepeatedHeaderDropsGroup | src/keyfile.rs:88-95 | as written, repeating the open group's header is accepted and the first group, with all its entries, is replaced by the second |
| Parser.RepeatedHeaderIsRejected | src/keyfile.rs:88-95 | with the corrected check, repeating the open group's header fails with DuplicateGroup |
| Parser.StepCountsGroups | src/keyfile.rs:87-100 | with the corrected check, each accepted header adds exactly one group, and no other line adds one |
| Parser.RunCountsGroups | src/keyfile.rs:80-135 | with the corrected check, the loop ends with one group per header line |
| Parser.ParseKeepsEveryGroup | src/keyfile.rs:74-138 | a parsed key file has exactly as many groups as the text has header lines |
| Parser.StepAsWritten | src/keyfile.rs:81-127 | one loop iteration with the header check as written: any error is raised at this line's number and describes this line |
| Parser.RunAsWrittenExplains | src/keyfile.rs:80-128 | any error of the loop as written names a line in the range it folded over, and that line caused it |
| Parser.ParseAsWritten | src/keyfile.rs:74-138 | `KeyFile::parse` as written: any error names a line that exists and describes that line of the text |
| Parser.StepAgrees | src/keyfile.rs:81-127 | where the corrected turn succeeds, the turn as written gives the same state |
| Parser.StepDiffers | src/keyfile.rs:87-100 | the two turns differ only on a header naming the open group, which the corrected check rejects with DuplicateGroup |
| Parser.RunAgrees | src/keyfile.rs:80-128 | where the corrected loop succeeds, the loop as written ends in the same state |
| Parser.RunRejectsOnlyRepeats | src/keyfile.rs:80-128 | where the loop as written succeeds and the corrected loop fails, the corrected loop fails with DuplicateGroup |
| Parser.ParseAgrees | src/keyfile.rs:74-138 | every text the corrected parser accepts is parsed to the same key file as written |
| Parser.ParseRejectsOnlyRepeats | src/keyfile.rs:74-138 | a text the source accepts and the corrected parser rejects is rejected for a repeated group |
| Parser.ClassifyThree | src/keyfile.rs:80-128 | three lines are each classified on their own text |
| Parser.ClassifyExamples | src/keyfile.rs:81-104 | `"[A]"` is a header line and `"a=1"` a key-value line |
| Parser.ClassifiedAsHeader | src/keyfile.rs:81-89 | a line that is not decor and matches the header pattern is a header line |
| Parser.ClassifiedAsPair | src/keyfile.rs:81-104 | a line that is not decor, not a header and matches the key-value pattern is a pair line |
| Parser.RepeatedHeaderLines | src/keyfile.rs:80-104 | `"[A]\na=1\n[A]\n"` is read as a header, a pair and the same header |
| Parser.OpensA | src/keyfile.rs:87-100 | the first `[A]` opens an empty group `A` under both checks |
| Parser.FillsA | src/keyfile.rs:103-123 | `a=1` is added to the open `A` under both checks |
| Parser.InsertIntoEmpty | src/keyfile.rs:112-122 | a pair put in a group with no entries becomes its only entry |
| Parser.ReopensA | src/keyfile.rs:87-100 | as written, the second `[A]` closes the filled group and opens an empty one in its place; the corrected check rejects it |
| Parser.RunAsWrittenThree | src/keyfile.rs:80-128 | three successful turns make the whole loop over three lines, as written |
| Parser.RunFailsThird | src/keyfile.rs:80-128 | two successful turns and a failing third make the corrected loop fail with the third turn's error |
| Parser.RepeatedHeaderText | src/keyfile.rs:74-138 | as written, `"[A]\na=1\n[A]\n"` parses to one empty group `A` and loses `a=1`; the corrected parser fails with DuplicateGroup("A", 2) |
| RoundTrip.ClassifyCases | src/keyfile.rs:80-128 | a line is decor iff empty or `#`-led; a header iff bracketed; a pair `m` iff `m` is well formed and reassembles to it; invalid iff none of these apply |
| RoundTrip.CloseAppends | src/keyfile.rs:131-137 | once no name repeats, closing puts the open group after the finished ones, and the rendering is the state's text |
| RoundTrip.DecorRenders | src/keyfile.rs:83-84 | holding a decor line back adds that line to the state's text |
| RoundTrip.OpenGroupRenders | src/keyfile.rs:96-100 | opening a group adds exactly the header line to the state's text |
| RoundTrip.AddPairRenders | src/keyfile.rs:112-122 | adding a pair adds exactly its line to the state's text |
| RoundTrip.StepRenders | src/keyfile.rs:81-127 | each accepted line adds itself and nothing else to the state's text |
| RoundTrip.FaithfulStep | src/keyfile.rs:103-104 | while no pair precedes the first header, every pair meets an open group |
| RoundTrip.RunRenders | src/keyfile.rs:80-128 | the loop adds the lines it reads, each with a newline, to the state's text |
| RoundTrip.ParseThenRender | src/keyfile.rs:10-12 | text that parses, has no `'\r'`, ends in a newline (or is empty) and has no pair before its first header renders back exactly |
| RoundTrip.KeyFileLinesRender | src/keyfile.rs:192-204 | a key file renders as its lines, each followed by a newline |
| RoundTrip.RenderedLines | src/keyfile.rs:192-204 | the lines of a rendered well-formed key file are exactly its group, entry and decor lines |
| RoundTrip.ClassifyHeaderLine | src/parse.rs:27-29 | a rendered header line is read as that header |
| RoundTrip.ClassifyEntryLine | src/parse.rs:31-47 | a rendered entry line is read as the pair it came from |
| RoundTrip.ClassifyKeyFile | src/keyfile.rs:80-128 | every rendered line is read as the item it came from |
| RoundTrip.RunSeq | src/keyfile.rs:80-128 | folding over two runs of lines is folding over the first, then the second |
| RoundTrip.RunDecor | src/keyfile.rs:83-84 | decor lines are all held back, in order |
| RoundTrip.RunEntry | src/keyfile.rs:103-123 | a rendered entry's lines give back the entry, with its decor |
| RoundTrip.RunEntries | src/keyfile.rs:103-123 | a group's rendered entries give back the same entries in order |
| RoundTrip.RunHeader | src/keyfile.rs:87-100 | a rendered header with a fresh name opens that group with the pending decor |
| RoundTrip.RunGroup | src/keyfile.rs:87-123 | a rendered group gives back the same group |
| RoundTrip.RunGroups | src/keyfile.rs:80-128 | the rendered groups give back the same groups in order |
| RoundTrip.RunKeyFile | src/keyfile.rs:80-137 | a whole rendered key file is read without error |
| RoundTrip.FinishKeyFile | src/keyfile.rs:131-137 | the final close gives back the key file's groups and trailing decor |
| RoundTrip.RenderThenParse | src/keyfile.rs:10-12 | a well-formed key file with no trailing `'\r'` in its lines renders to text that parses back to the same key file |
| LegacyBasic.LocaleNew | src/basic.rs:185-200 | `new` and `new_borrowed` store their parts unchecked |
| LegacyBasic.UpgradeLocale | src/basic.rs:175-181 | the old Locale is the current one without an encoding |
| LegacyBasic.RenderLocaleAgrees | src/basic.rs:203-217 | the old Locale renders exactly as the current one |
| LegacyBasic.KvNew | src/basic.rs:18-40 | `new` and `new_borrowed` store key, locale and value unchecked, with `" "` blanks and no decor |
| LegacyBasic.KvNewWithDecor | src/basic.rs:42-77 | `new_with_decor` and its borrowed twin store every argument unchanged |
| LegacyBasic.KvSetKey | src/basic.rs:84-92 | stores the new key, returns the old one, keeps the other fields |
| LegacyBasic.KvSetLocale | src/basic.rs:98-106 | always leaves a locale, returns the old one, keeps the other fields |
| LegacyBasic.KvSetValue | src/basic.rs:113-116 | stores the new value, returns the old one, keeps the other fields |
| LegacyBasic.KvSetValueBorrowedAsWritten | src/basic.rs:119-122 | as written, `set_value_borrowed` overwrites and returns the key and leaves the value alone |
| LegacyBasic.SetValueBorrowedClobbersKey | src/basic.rs:119-122 | setting the value of `Name=Files` to `Dateien` as written leaves the value `Files` and makes the key `Dateien` |
| LegacyBasic.KvSetValueBorrowed | src/basic.rs:113-122 | the corrected `set_value_borrowed` agrees with `set_value` |
| LegacyBasic.SetValueBorrowedRestores | src/basic.rs:113-122 | the corrected setter is undone by setting back what it returned |
| LegacyBasic.KvSetWhitespace | src/basic.rs:125-142 | stores both blanks, returns the old pair, keeps the other fields |
| LegacyBasic.KvSetDecor | src/basic.rs:148-156 | stores the new decor, returns the old one, keeps the other fields |
| LegacyBasic.RenderEntryAgrees | src/basic.rs:159-173 | an old pair renders exactly as the current one |
| LegacyBasic.GroupNew | src/basic.rs:228-243 | a new group has the name, no entries and no decor, and renders as `[name]` and a newline |
| LegacyBasic.GroupFromEntries | src/basic.rs:246-268 | stores name, entries and decor unchanged |
| LegacyBasic.GroupGet | src/basic.rs:270-272 | finds an entry iff (key, locale) is present, and returns one stored under it |
| LegacyBasic.GroupInsert | src/basic.rs:278-280 | appends a new entry or replaces in place, returning the old one; keeps keys distinct |
| LegacyBasic.GroupRemove | src/basic.rs:283-285 | returns the matching entry or None; removes only it and keeps the rest in order |
| LegacyBasic.RenderEntriesAgree | src/basic.rs:288-301 | old entries render exactly as the current ones |
| LegacyBasic.RenderGroupAgrees | src/basic.rs:288-301 | an old group renders exactly as the current one |
| LegacyValidate.KeyTryFrom | src/validate.rs:31-46 | the per-character loop accepts exactly the Key strings; NotAscii is checked before NotAlphanumeric on the first bad character |
| LegacyValidate.ValueTryFrom | src/validate.rs:93-108 | accepts exactly control-free strings; the error is always ContainsControlCharacter, never ContainsNewline |
| LegacyValidate.WhitespaceTryFrom | src/validate.rs:149-161 | accepts exactly strings of ASCII whitespace, `\n`, `\r` and `\x0C` included |

## Left out

- The `self_cell` wrapper in `src/lib.rs` and `ParsedFileWrapper` are borrow-lifetime plumbing with no behaviour of their own. `ParsedFileWrapper` is not part of this model.
- The example programs do file I/O and printing only.
- The test harness reads desktop files from disk. Only its round-trip assertion is modelled, as `RoundTrip.ParseThenRender`.
- Borrowed versus owned strings (`Cow`) do not exist for Dafny values. So every `into_owned` is the identity, and each `_borrowed` method is merged with its owned twin.
- `get_mut` and `get_group_mut` hand out mutable references. Through them `set_key` can make a map key disagree with the key stored in the pair. Dafny values have no aliasing, so this is not modelled.
- Error messages (`src/error.rs`, `src/types/errors.rs`, the `thiserror` formatting) are not modelled. Errors are plain datatypes. `DesktopError::MissingGroup` is never produced.
- The regex engine and the `Lazy` statics are replaced by hand-written recognisers.
- `IndexMap` hashing is replaced by linear lookup over a sequence with distinct keys.
- Characters are Dafny `char`s classified by code-point ranges. There is no Unicode data beyond that.
- RoundTrip.ParseThenRender requires text that is empty or ends in `'\n'`: `str::lines` forgets whether the last line had one, so the source cannot reproduce text without it. It also requires text without `'\r'`. That is a restriction of the proof, not of the source: only a `'\r'` just before a `'\n'` is dropped, and a `'\r'` elsewhere survives parsing and renders back, but such text is not covered.
- RoundTrip.ParseThenRender also requires that no key-value line comes before the first header. The parser drops such a line, as `Parser.OrphanPairIsDropped` states.
- RoundTrip.RenderThenParse requires a well-formed key file. Its names, keys and values must be what the matchers can read back, and no value or decor line may end in `'\r'`.
- Parser.Parse, Parser.Step, Parser.HeaderTakesDecor, Parser.StepCountsGroups and Parser.RunCountsGroups use the corrected duplicate-group check (see Findings). The source's parser, with the check as written, is `Parser.ParseAsWritten`. `Parser.ParseAgrees` and `Parser.ParseRejectsOnlyRepeats` state that the two differ only on a repeated header.
- Types.LocaleCmpProperties: the derived `Ord` is modelled as a lexicographic comparison of the four fields. Only equality, antisymmetry and transitivity are proved about it.

## Findings

| source | as written | input that shows it | evidently intended | confidence | as-written member | corrected member |
|---|---|---|---|---|---|---|
| src/keyfile.rs:88-95 | a header is checked only against the finished groups; the open group is not among them, though the comment at line 94 says it was already checked | `"[A]\na=1\n[A]\n"` parses, and the group holding `a=1` is replaced by an empty `A`, so the text no longer renders back | `Err(DuplicateGroup("A", 2))` | not executed | Parser.OpenGroupAsWritten, Parser.RepeatedHeaderDropsGroup, Parser.ParseAsWritten, Parser.RepeatedHeaderText | Parser.OpenGroup, Parser.RepeatedHeaderIsRejected, Parser.ParseKeepsEveryGroup |
| src/basic.rs:119-122 | `set_value_borrowed` writes the new value into the key field and returns the old key | setting the value of `Name=Files` to `"Dateien"` gives `Dateien=Files` | the value becomes `Dateien` and `"Files"` is returned, as `set_value` does | not executed | LegacyBasic.KvSetValueBorrowedAsWritten, LegacyBasic.SetValueBorrowedClobbersKey | LegacyBasic.KvSetValueBorrowed, LegacyBasic.SetValueBorrowedRestores |
