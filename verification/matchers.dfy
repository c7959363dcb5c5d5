/** The two anchored line patterns of src/parse.rs, HEADER and
    KEY_VALUE_PAIR, as hand-written recognisers. Each recogniser is sound (what
    it returns reassembles to the line) and complete (every well-formed
    decomposition of a line is found), so it decides exactly the language of
    its pattern. */
module Matchers {
  import opened Wrappers
  import opened CharClass
  import opened TextLines
  import opened BasicTypes
  import opened Types

  // ================= HEADER =================

  /** The class `[[:print:][^\[\]]]` of the header pattern. Nested classes
      form a union, so the class admits every character, brackets included. */
  predicate IsHeaderNameChar(c: char) {
    IsAsciiPrint(c) || (c != '[' && c != ']')
  }

  /** `parse_as_header`: `^\[(?<name>class+)\]$`. */
  function ParseAsHeader(line: string): (r: Option<string>)
    ensures r.Some? <==> |line| >= 3 && line[0] == '[' && line[|line| - 1] == ']'
    ensures r.Some? ==> line == GroupHeader(r.value) && |r.value| > 0
  {
    if |line| >= 2 && line[0] == '[' && line[|line| - 1] == ']'
       && MatchesPlus(line[1..|line| - 1], IsHeaderNameChar)
    then
      assert line == "[" + line[1..|line| - 1] + "]";
      Some(line[1..|line| - 1])
    else None
  }

  /** Every non-empty name comes back out of its header line. */
  lemma HeaderRoundTrip(name: string)
    requires |name| > 0
    ensures ParseAsHeader(GroupHeader(name)) == Some(name)
  {
    var line := GroupHeader(name);
    assert line[1..|line| - 1] == name;
  }

  /** Every valid group name is a header name ... */
  lemma GroupNamesAreHeaderNames(name: string)
    requires IsGroupName(name)
    ensures ParseAsHeader(GroupHeader(name)) == Some(name)
  {
    HeaderRoundTrip(name);
  }

  /** ... but not conversely: a header name may hold brackets or non-ASCII
      characters, which `GroupName` rejects. */
  lemma HeaderNamesNeedNotBeGroupNames()
    ensures ParseAsHeader("[a]b]") == Some("a]b") && !IsGroupName("a]b")
    ensures ParseAsHeader("[[x]") == Some("[x") && !IsGroupName("[x")
    ensures ParseAsHeader("[caf\U{E9}]") == Some("caf\U{E9}") && !IsGroupName("caf\U{E9}")
  {
    HeaderRoundTrip("a]b");
    assert GroupHeader("a]b") == "[a]b]";
    assert !IsGroupNameChar("a]b"[1]);
    HeaderRoundTrip("[x");
    assert GroupHeader("[x") == "[[x]";
    assert !IsGroupNameChar("[x"[0]);
    HeaderRoundTrip("caf\U{E9}");
    assert GroupHeader("caf\U{E9}") == "[caf\U{E9}]";
    assert !IsGroupNameChar("caf\U{E9}"[3]);
  }

  /** A line is the header of `name` when it is `name` between brackets,
      character by character. */
  lemma GroupHeaderOf(name: string, line: string)
    requires |line| == |name| + 2 && line[0] == '[' && line[|line| - 1] == ']'
    requires forall i | 0 <= i < |name| :: line[i + 1] == name[i]
    ensures line == GroupHeader(name)
  {
  }

  // The header test vectors, one lemma each.

  lemma HeaderExampleHelloWorld()
    ensures ParseAsHeader("[hello world]") == Some("hello world")
  {
    var name, line := "hello world", "[hello world]";
    assert forall i | 0 <= i < |name| :: line[i + 1] == name[i];
    GroupHeaderOf(name, line);
    HeaderRoundTrip(name);
  }

  lemma HeaderExampleDesktopEntry()
    ensures ParseAsHeader("[Desktop Entry]") == Some("Desktop Entry")
  {
    var name, line := "Desktop Entry", "[Desktop Entry]";
    assert forall i | 0 <= i < |name| :: line[i + 1] == name[i];
    GroupHeaderOf(name, line);
    HeaderRoundTrip(name);
  }

  lemma HeaderExampleDesktopAction()
    ensures ParseAsHeader("[Desktop Action new-window]") == Some("Desktop Action new-window")
  {
    var name, line := "Desktop Action new-window", "[Desktop Action new-window]";
    assert forall i | 0 <= i < |name| :: line[i + 1] == name[i];
    GroupHeaderOf(name, line);
    HeaderRoundTrip(name);
  }

  lemma HeaderExampleShort()
    ensures ParseAsHeader("[A]") == Some("A")
  {
    GroupHeaderOf("A", "[A]");
    HeaderRoundTrip("A");
  }

  /** Lines that are not headers. */
  lemma NonHeaderExamples()
    ensures ParseAsHeader("[]") == None
    ensures ParseAsHeader("Name=x") == None
    ensures ParseAsHeader("[x] ") == None
  {
  }

  // ================= KEY_VALUE_PAIR =================

  /** The captures of a key-value match, in the order `parse_as_key_value_pair`
      returns them. */
  datatype KvMatch = KvMatch(key: string, locale: Option<Locale>, value: string, wsl: string, wsr: string)

  /** A locale as the pattern can capture it: `lang(_country)?(@modifier)?`,
      each part a non-empty run of ASCII letters, and no encoding. */
  predicate IsParsedLocale(l: Locale) {
    && IsAlphaWord(l.lang)
    && (l.country.Some? ==> IsAlphaWord(l.country.value))
    && (l.modifier.Some? ==> IsAlphaWord(l.modifier.value))
    && l.encoding.None?
  }

  /** The decompositions the pattern admits. Because the `wsr` run is greedy,
      the value cannot begin with a blank; because `.` stops at line feeds,
      the value holds none. */
  predicate IsWellFormedMatch(m: KvMatch) {
    && |m.key| > 0 && All(m.key, IsAlnumOrDash)
    && (m.locale.Some? ==> IsParsedLocale(m.locale.value))
    && All(m.wsl, IsBlank)
    && All(m.wsr, IsBlank)
    && IsLine(m.value)
    && (|m.value| == 0 || !IsBlank(m.value[0]))
  }

  /** The line a match was taken from. */
  function Reassemble(m: KvMatch): string {
    EntryLine(m.key, m.locale, m.wsl, m.wsr, m.value)
  }

  /** A greedy `[class]*` run: the run and what follows it. */
  function TakeWhile(s: string, p: char -> bool): (r: (string, string))
    ensures r.0 + r.1 == s
    ensures All(r.0, p)
    ensures |r.1| == 0 || !p(r.1[0])
  {
    var n := PrefixLen(s, p);
    assert s == s[..n] + s[n..];
    (s[..n], s[n..])
  }

  /** A greedy run stops exactly where its class does. */
  lemma TakeWhileConcat(a: string, b: string, p: char -> bool)
    requires All(a, p)
    requires |b| == 0 || !p(b[0])
    ensures TakeWhile(a + b, p) == (a, b)
  {
    PrefixLenConcat(a, b, p);
    assert (a + b)[..|a|] == a;
    assert (a + b)[|a|..] == b;
  }

  /** The text of an optional `<sep>part` component. */
  function Part(sep: char, part: Option<string>): string {
    match part case Some(p) => [sep] + p case None => ""
  }

  /** `(?:<sep>(?<part>[[:alpha:]]+))?`: the optional part and what follows. */
  function OptionalPart(s: string, sep: char): (r: (Option<string>, string))
    ensures Part(sep, r.0) + r.1 == s
    ensures r.0.Some? ==> IsAlphaWord(r.0.value) && (|r.1| == 0 || !IsAsciiAlpha(r.1[0]))
  {
    if |s| > 0 && s[0] == sep then
      var tw := TakeWhile(s[1..], IsAsciiAlpha);
      if |tw.0| > 0 then
        SplitFirst(s, tw.0, tw.1);
        (Some(tw.0), tw.1)
      else (None, s)
    else (None, s)
  }

  /** Putting a split-off first character back. */
  lemma SplitFirst(s: string, run: string, rest: string)
    requires |s| > 0 && run + rest == s[1..]
    ensures [s[0]] + run + rest == s
  {
    assert s == [s[0]] + s[1..];
  }

  lemma OptionalPartComplete(sep: char, part: Option<string>, rest: string)
    requires part.Some? ==> IsAlphaWord(part.value)
    requires |rest| == 0 || rest[0] != sep
    requires part.Some? ==> |rest| == 0 || !IsAsciiAlpha(rest[0])
    ensures OptionalPart(Part(sep, part) + rest, sep) == (part, rest)
  {
    match part
    case Some(p) => OptionalPartPresent(sep, p, rest);
    case None => assert Part(sep, part) + rest == rest;
  }

  /** A present part is read back whole, up to the first non-letter. */
  lemma OptionalPartPresent(sep: char, p: string, rest: string)
    requires IsAlphaWord(p)
    requires |rest| == 0 || !IsAsciiAlpha(rest[0])
    ensures OptionalPart([sep] + p + rest, sep) == (Some(p), rest)
  {
    var s := [sep] + p + rest;
    assert s[0] == sep && s[1..] == p + rest;
    TakeWhileConcat(p, rest, IsAsciiAlpha);
  }

  /** The locale text between the brackets. */
  function LocaleBody(lang: string, country: Option<string>, modifier: Option<string>): string {
    lang + Part('_', country) + Part('@', modifier)
  }

  lemma RenderLocaleAsBody(l: Locale)
    ensures RenderLocale(l) == LocaleBody(l.lang, l.country, l.modifier)
  {
  }

  /** `(?<lang>[[:alpha:]]+)(?:_(?<country>..))?(?:@(?<modifier>..))?\]`,
      the part of a locale after its opening bracket. */
  function ParseLocaleBody(t: string): (r: Option<(Locale, string)>)
    ensures r.Some? ==> IsParsedLocale(r.value.0)
    ensures r.Some? ==> RenderLocale(r.value.0) + "]" + r.value.1 == t
  {
    var lang := TakeWhile(t, IsAsciiAlpha);
    var country := OptionalPart(lang.1, '_');
    var modifier := OptionalPart(country.1, '@');
    var t3 := modifier.1;
    if |lang.0| > 0 && |t3| > 0 && t3[0] == ']' then
      var l := Locale(lang.0, country.0, None, modifier.0);
      LocaleBodyJoin(t, l, lang.1, country.1, t3);
      Some((l, t3[1..]))
    else None
  }

  lemma LocaleBodyJoin(t: string, l: Locale, t1: string, t2: string, t3: string)
    requires t == l.lang + t1 && t1 == Part('_', l.country) + t2 && t2 == Part('@', l.modifier) + t3
    requires |t3| > 0 && t3[0] == ']'
    ensures RenderLocale(l) + "]" + t3[1..] == t
  {
    RenderLocaleAsBody(l);
    assert t3 == "]" + t3[1..];
  }

  /** `\[ .. \]`: a bracketed locale and what follows it. */
  function ParseLocalePart(s: string): (r: Option<(Locale, string)>)
    ensures r.Some? ==> IsParsedLocale(r.value.0)
    ensures r.Some? ==> LocaleSuffix(Some(r.value.0)) + r.value.1 == s
  {
    if |s| == 0 || s[0] != '[' then None
    else
      var body := ParseLocaleBody(s[1..]);
      if body.Some? then
        BracketJoin(s, body.value.0, body.value.1);
        Some(body.value)
      else None
  }

  lemma BracketJoin(s: string, l: Locale, rest: string)
    requires |s| > 0 && s[0] == '[' && RenderLocale(l) + "]" + rest == s[1..]
    ensures LocaleSuffix(Some(l)) + rest == s
  {
    assert s == "[" + s[1..];
  }

  /** `(?:\[ .. \])?`: the optional locale of a key and what follows it. */
  function ParseOptionalLocale(s: string): (r: (Option<Locale>, string))
    ensures r.0.Some? ==> IsParsedLocale(r.0.value)
    ensures LocaleSuffix(r.0) + r.1 == s
  {
    var loc := ParseLocalePart(s);
    if loc.Some? then (Some(loc.value.0), loc.value.1)
    else
      assert LocaleSuffix(None) + s == s;
      (None, s)
  }

  lemma ParseLocaleBodyComplete(l: Locale, rest: string)
    requires IsParsedLocale(l)
    ensures ParseLocaleBody(RenderLocale(l) + "]" + rest) == Some((l, rest))
  {
    var cp := Part('_', l.country);
    var mp := Part('@', l.modifier);
    var tail := "]" + rest;
    RenderLocaleAsBody(l);
    assert RenderLocale(l) + "]" + rest == l.lang + (cp + (mp + tail));
    TakeWhileConcat(l.lang, cp + (mp + tail), IsAsciiAlpha);
    OptionalPartComplete('_', l.country, mp + tail);
    OptionalPartComplete('@', l.modifier, tail);
  }

  /** Completeness of the locale recogniser: whatever follows the closing
      bracket, the rendered locale is read back. */
  lemma ParseLocalePartComplete(l: Locale, rest: string)
    requires IsParsedLocale(l)
    ensures ParseLocalePart(LocaleSuffix(Some(l)) + rest) == Some((l, rest))
  {
    var s := LocaleSuffix(Some(l)) + rest;
    assert s[1..] == RenderLocale(l) + "]" + rest;
    ParseLocaleBodyComplete(l, rest);
  }

  /** `(?<wsl>[[:blank:]]*)=(?<wsr>[[:blank:]]*)(?<value>.*)$`, the part of a
      key-value line after its locale. */
  function ParseAssignment(s: string): (r: Option<(string, string, string)>)
    ensures r.Some? ==> var (wsl, wsr, value) := r.value;
      && All(wsl, IsBlank) && All(wsr, IsBlank)
      && IsLine(value) && (|value| == 0 || !IsBlank(value[0]))
      && wsl + "=" + wsr + value == s
  {
    var left := TakeWhile(s, IsBlank);
    var s1 := left.1;
    if |s1| == 0 || s1[0] != '=' then None
    else
      var right := TakeWhile(s1[1..], IsBlank);
      if !MatchesStar(right.1, NotNewline) then None
      else
        JoinAssignment(s, left.0, s1, right.0, right.1);
        Some((left.0, right.0, right.1))
  }

  /** The blanks, the `=` that starts what follows them, then the blanks and
      the value after it, put back together. */
  lemma JoinAssignment(s: string, wsl: string, s1: string, wsr: string, value: string)
    requires wsl + s1 == s && |s1| > 0 && s1[0] == '=' && wsr + value == s1[1..]
    ensures wsl + "=" + wsr + value == s
  {
    SplitFirst(s1, wsr, value);
    assert [s1[0]] == "=";
  }

  lemma ParseAssignmentComplete(wsl: string, wsr: string, value: string)
    requires All(wsl, IsBlank) && All(wsr, IsBlank)
    requires IsLine(value) && (|value| == 0 || !IsBlank(value[0]))
    ensures ParseAssignment(wsl + "=" + wsr + value) == Some((wsl, wsr, value))
  {
    assert wsl + "=" + wsr + value == wsl + ("=" + (wsr + value));
    TakeWhileConcat(wsl, "=" + (wsr + value), IsBlank);
    assert ("=" + (wsr + value))[1..] == wsr + value;
    TakeWhileConcat(wsr, value, IsBlank);
  }

  /** `parse_as_key_value_pair`. The greedy runs of the pattern never need to
      give characters back: the character that ends each run (`[`, `_`, `@`,
      `]`, `=`, a blank or the end) is outside the run's class. */
  function ParseAsKeyValuePair(line: string): (r: Option<KvMatch>)
    ensures r.Some? ==> IsWellFormedMatch(r.value) && Reassemble(r.value) == line
  {
    var key := TakeWhile(line, IsAlnumOrDash);
    var locale := ParseOptionalLocale(key.1);
    var asg := ParseAssignment(locale.1);
    if |key.0| == 0 || asg.None? then None
    else
      var m := KvMatch(key.0, locale.0, asg.value.2, asg.value.0, asg.value.1);
      ReassembleJoin(line, m, key.1, locale.1);
      Some(m)
  }

  lemma ReassembleJoin(line: string, m: KvMatch, rest: string, rest2: string)
    requires line == m.key + rest
    requires rest == LocaleSuffix(m.locale) + rest2
    requires rest2 == m.wsl + "=" + m.wsr + m.value
    ensures Reassemble(m) == line
  {
  }

  /** `[class]*` anchored at both ends. */
  function MatchesStar(s: string, p: char -> bool): (b: bool)
    ensures b <==> All(s, p)
  {
    PrefixLen(s, p) == |s|
  }

  /** Completeness of the key-value recogniser: every well-formed
      decomposition is the one found. Together with the soundness postcondition
      of `ParseAsKeyValuePair` this makes the recogniser an exact decision
      procedure for the pattern. */
  lemma ParseAsKeyValuePairComplete(m: KvMatch)
    requires IsWellFormedMatch(m)
    ensures ParseAsKeyValuePair(Reassemble(m)) == Some(m)
  {
    var rest2 := m.wsl + "=" + m.wsr + m.value;
    var rest := LocaleSuffix(m.locale) + rest2;
    var line := m.key + rest;
    ReassembleJoin(line, m, rest, rest2);
    AssignmentStart(m.wsl, m.wsr, m.value);
    ParseOptionalLocaleComplete(m.locale, rest2);
    TakeWhileConcat(m.key, rest, IsAlnumOrDash);
    ParseAssignmentComplete(m.wsl, m.wsr, m.value);
  }

  /** An assignment starts with a blank or `=`, never with a key character or
      an opening bracket. */
  lemma AssignmentStart(wsl: string, wsr: string, value: string)
    requires All(wsl, IsBlank)
    ensures var s := wsl + "=" + wsr + value;
      |s| > 0 && (IsBlank(s[0]) || s[0] == '=')
  {
    var s := wsl + "=" + wsr + value;
    if |wsl| > 0 { assert s[0] == wsl[0]; } else { assert s[0] == '='; }
  }

  lemma ParseOptionalLocaleComplete(locale: Option<Locale>, rest: string)
    requires locale.Some? ==> IsParsedLocale(locale.value)
    requires |rest| > 0 && (IsBlank(rest[0]) || rest[0] == '=')
    ensures ParseOptionalLocale(LocaleSuffix(locale) + rest) == (locale, rest)
    ensures var s := LocaleSuffix(locale) + rest; |s| > 0 && !IsAlnumOrDash(s[0])
  {
    var s := LocaleSuffix(locale) + rest;
    if locale.Some? {
      ParseLocalePartComplete(locale.value, rest);
      assert s[0] == '[';
    } else {
      assert s == rest;
    }
  }

  /** The recogniser accepts a line exactly when it decomposes well, and then
      returns that decomposition. */
  lemma ParseAsKeyValuePairExact(line: string, m: KvMatch)
    ensures ParseAsKeyValuePair(line) == Some(m) <==> IsWellFormedMatch(m) && Reassemble(m) == line
  {
    if IsWellFormedMatch(m) && Reassemble(m) == line {
      ParseAsKeyValuePairComplete(m);
    }
  }

  /** Every captured part except the value satisfies its newtype's rule, so
      the parser's unchecked construction is justified for them. */
  lemma MatchedPartsAreValid(line: string)
    requires ParseAsKeyValuePair(line).Some?
    ensures var m := ParseAsKeyValuePair(line).value;
      && IsKey(m.key)
      && (m.locale.Some? ==> IsAlphaWord(m.locale.value.lang))
      && (m.locale.Some? && m.locale.value.country.Some? ==> IsAlphaWord(m.locale.value.country.value))
      && (m.locale.Some? && m.locale.value.modifier.Some? ==> IsAlphaWord(m.locale.value.modifier.value))
      && IsWhitespace(m.wsl) && IsWhitespace(m.wsr)
  {
  }

  /** The value, unlike the other parts, is not held to `Value`'s rule: a tab
      or another control character other than a line feed passes the pattern. */
  lemma MatchedValueNeedNotBeValue()
    ensures ParseAsKeyValuePair("Keywords=a\tb") == Some(KvMatch("Keywords", None, "a\tb", "", ""))
    ensures !IsValue("a\tb")
  {
    var m := KvMatch("Keywords", None, "a\tb", "", "");
    assert Reassemble(m) == "Keywords=a\tb";
    ParseAsKeyValuePairComplete(m);
    assert !IsValueChar("a\tb"[1]);
  }

  // The key-value test vectors, one lemma each: a plain key, and a localised
  // key with each optional locale part and each arrangement of the blanks
  // around `=`.

  lemma KeyValueExamplePlain()
    ensures ParseAsKeyValuePair("Name=Files") == Some(KvMatch("Name", None, "Files", "", ""))
  {
    var m := KvMatch("Name", None, "Files", "", "");
    assert Reassemble(m) == "Name=Files";
    ParseAsKeyValuePairComplete(m);
  }

  lemma KeyValueExampleShort()
    ensures ParseAsKeyValuePair("a=1") == Some(KvMatch("a", None, "1", "", ""))
    ensures ParseAsHeader("a=1").None?
  {
    var m := KvMatch("a", None, "1", "", "");
    assert IsAlnumOrDash(m.key[0]) && NotNewline(m.value[0]);
    assert Reassemble(m) == "a=1";
    ParseAsKeyValuePairComplete(m);
  }

  lemma KeyValueExampleLang()
    ensures ParseAsKeyValuePair("Name[de] =Dateien") == Some(KvMatch("Name", Some(Locale("de", None, None, None)), "Dateien", " ", ""))
  {
    var m := KvMatch("Name", Some(Locale("de", None, None, None)), "Dateien", " ", "");
    assert Reassemble(m) == "Name[de] =Dateien";
    ParseAsKeyValuePairComplete(m);
  }

  lemma KeyValueExampleCountry()
    ensures ParseAsKeyValuePair("Name[en_GB] = Files") == Some(KvMatch("Name", Some(Locale("en", Some("GB"), None, None)), "Files", " ", " "))
  {
    var m := KvMatch("Name", Some(Locale("en", Some("GB"), None, None)), "Files", " ", " ");
    assert Reassemble(m) == "Name[en_GB] = Files";
    ParseAsKeyValuePairComplete(m);
  }

  lemma KeyValueExampleModifier()
    ensures ParseAsKeyValuePair("Name[sr@latin]= Datoteke") == Some(KvMatch("Name", Some(Locale("sr", None, None, Some("latin"))), "Datoteke", "", " "))
  {
    var m := KvMatch("Name", Some(Locale("sr", None, None, Some("latin"))), "Datoteke", "", " ");
    assert Reassemble(m) == "Name[sr@latin]= Datoteke";
    assert All(m.key, IsAlnumOrDash) by {
      forall i | 0 <= i < |m.key| ensures IsAlnumOrDash(m.key[i]) {
        assert m.key[i] in {'N', 'a', 'm', 'e'};
      }
    }
    assert All("latin", IsAsciiAlpha) by {
      forall i | 0 <= i < 5 ensures IsAsciiAlpha("latin"[i]) {
        assert "latin"[i] in {'l', 'a', 't', 'i', 'n'};
      }
    }
    assert forall i :: 0 <= i < |m.value| ==> m.value[i] != '\n' by {
      forall i | 0 <= i < |m.value| ensures m.value[i] != '\n' {
        assert m.value[i] in {'D', 'a', 't', 'o', 'e', 'k'};
      }
    }
    ParseAsKeyValuePairComplete(m);
  }

  /** There is no encoding component in the pattern: once a locale's
      language and country are followed by `.`, as in `Name[en_US.UTF-8]=x`,
      the line is not a key-value line, whatever comes after. */
  lemma EncodedLocaleIsRejected(key: string, lang: string, country: Option<string>, after: string)
    requires |key| > 0 && All(key, IsAlnumOrDash)
    requires IsAlphaWord(lang) && (country.Some? ==> IsAlphaWord(country.value))
    ensures ParseAsKeyValuePair(key + ("[" + (lang + (Part('_', country) + ("." + after))))) == None
  {
    var rest := "[" + (lang + (Part('_', country) + ("." + after)));
    EncodedLocaleBodyIsRejected(lang, country, after);
    UnclosedLocale(rest);
    BracketAfterKeyIsRejected(key, rest);
  }

  /** A key followed by a bracket that does not open a locale is not a
      key-value line. */
  lemma BracketAfterKeyIsRejected(key: string, rest: string)
    requires |key| > 0 && All(key, IsAlnumOrDash)
    requires |rest| > 0 && rest[0] == '['
    requires ParseOptionalLocale(rest) == (None, rest)
    ensures ParseAsKeyValuePair(key + rest) == None
  {
    TakeWhileConcat(key, rest, IsAlnumOrDash);
    BracketIsNotAssignment(rest);
  }

  lemma UnclosedLocale(s: string)
    requires |s| > 0 && s[0] == '[' && ParseLocaleBody(s[1..]) == None
    ensures ParseOptionalLocale(s) == (None, s)
  {
  }

  lemma EncodedLocaleBodyIsRejected(lang: string, country: Option<string>, after: string)
    requires IsAlphaWord(lang) && (country.Some? ==> IsAlphaWord(country.value))
    ensures ParseLocaleBody(lang + (Part('_', country) + ("." + after))) == None
    ensures var s := "[" + (lang + (Part('_', country) + ("." + after))); s[1..] == s[1..|s|] == lang + (Part('_', country) + ("." + after))
  {
    var t3 := "." + after;
    var t1 := Part('_', country) + t3;
    assert ParseLocaleBody(lang + t1) == None by {
      assert |t1| > 0 && !IsAsciiAlpha(t1[0]) by {
        if country.Some? { assert t1[0] == '_'; } else { assert t1 == t3; }
      }
      TakeWhileConcat(lang, t1, IsAsciiAlpha);
      OptionalPartComplete('_', country, t3);
    }
  }

  lemma BracketIsNotAssignment(s: string)
    requires |s| > 0 && s[0] == '['
    ensures ParseAssignment(s) == None
  {
    assert s == "" + s;
    TakeWhileConcat("", s, IsBlank);
  }
}
