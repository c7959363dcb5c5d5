/** The validated string newtypes of src/types/basic.rs. Each wraps a string;
    the datatype constructor plays the role of `new_unchecked`, the `inner`
    field the role of `From`, and a `...TryFrom` function the fallible
    `TryFrom` conversion, which returns its input unchanged on success. */
module BasicTypes {
  import opened Wrappers
  import opened CharClass

  datatype GroupName = GroupName(inner: string)
  datatype Key = Key(inner: string)
  datatype Language = Language(inner: string)
  datatype Country = Country(inner: string)
  datatype Encoding = Encoding(inner: string)
  datatype Modifier = Modifier(inner: string)
  datatype Value = Value(inner: string)
  datatype Whitespace = Whitespace(inner: string)
  datatype Decor = Decor(inner: seq<string>)

  datatype InvalidGroupName = InvalidGroupName
  datatype InvalidKey = NotAscii | NotAlphanumeric
  datatype InvalidLanguage = InvalidLanguage
  datatype InvalidCountry = InvalidCountry
  datatype InvalidEncoding = InvalidEncoding
  datatype InvalidModifier = InvalidModifier
  datatype InvalidValue = ContainsControlCharacter | ContainsNewline
  datatype InvalidWhitespace = InvalidWhitespace
  datatype InvalidDecor = InvalidDecor

  // ---- character classes of the individual fields ----

  /** `[[:print:]&&[^\[\]]]`: printable ASCII other than the square brackets. */
  predicate IsGroupNameChar(c: char) {
    IsAsciiPrint(c) && c != '[' && c != ']'
  }

  predicate IsValueChar(c: char) {
    !IsControl(c)
  }

  // ---- what each newtype accepts ----

  predicate IsGroupName(s: string) {
    |s| > 0 && All(s, IsGroupNameChar)
  }

  /** Keys may be empty: the validator only rejects bad characters. */
  predicate IsKey(s: string) {
    All(s, IsAlnumOrDash)
  }

  /** Language, country and modifier all use `^[[:alpha:]]+$`. */
  predicate IsAlphaWord(s: string) {
    |s| > 0 && All(s, IsAsciiAlpha)
  }

  predicate IsEncoding(s: string) {
    |s| > 0 && All(s, IsAlnumOrDash)
  }

  predicate IsValue(s: string) {
    All(s, IsValueChar)
  }

  predicate IsWhitespace(s: string) {
    All(s, IsAsciiWhitespace)
  }

  /** A decor line is an empty line or a comment line. */
  predicate IsDecorLine(line: string) {
    |line| == 0 || line[0] == '#'
  }

  predicate IsDecor(lines: seq<string>) {
    forall i :: 0 <= i < |lines| ==> IsDecorLine(lines[i])
  }

  // ---- TryFrom conversions ----

  function GroupNameTryFrom(s: string): (r: Result<GroupName, InvalidGroupName>)
    ensures r.Ok? <==> IsGroupName(s)
    ensures r.Ok? ==> r.value.inner == s
  {
    if MatchesPlus(s, IsGroupNameChar) then Ok(GroupName(s)) else Err(InvalidGroupName)
  }

  /** The first character outside `[[:alnum:]-]` decides the error: a
      non-ASCII one is `NotAscii`, any other `NotAlphanumeric`. */
  function KeyCheck(s: string): (r: Option<InvalidKey>)
    ensures r.None? <==> IsKey(s)
    ensures r.Some? ==>
      var i := PrefixLen(s, IsAlnumOrDash);
      i < |s| && r.value == (if IsAscii(s[i]) then NotAlphanumeric else NotAscii)
  {
    if |s| == 0 then None
    else if !IsAscii(s[0]) then Some(NotAscii)
    else if !IsAsciiAlnum(s[0]) && s[0] != '-' then Some(NotAlphanumeric)
    else KeyCheck(s[1..])
  }

  function KeyTryFrom(s: string): (r: Result<Key, InvalidKey>)
    ensures r.Ok? <==> IsKey(s)
    ensures r.Ok? ==> r.value.inner == s
    ensures r.Err? ==> r.error == (if IsAscii(s[PrefixLen(s, IsAlnumOrDash)]) then NotAlphanumeric else NotAscii)
  {
    match KeyCheck(s)
    case None => Ok(Key(s))
    case Some(e) => Err(e)
  }

  function LanguageTryFrom(s: string): (r: Result<Language, InvalidLanguage>)
    ensures r.Ok? <==> IsAlphaWord(s)
    ensures r.Ok? ==> r.value.inner == s
  {
    if MatchesPlus(s, IsAsciiAlpha) then Ok(Language(s)) else Err(InvalidLanguage)
  }

  function CountryTryFrom(s: string): (r: Result<Country, InvalidCountry>)
    ensures r.Ok? <==> IsAlphaWord(s)
    ensures r.Ok? ==> r.value.inner == s
  {
    if MatchesPlus(s, IsAsciiAlpha) then Ok(Country(s)) else Err(InvalidCountry)
  }

  function EncodingTryFrom(s: string): (r: Result<Encoding, InvalidEncoding>)
    ensures r.Ok? <==> IsEncoding(s)
    ensures r.Ok? ==> r.value.inner == s
  {
    if MatchesPlus(s, IsAlnumOrDash) then Ok(Encoding(s)) else Err(InvalidEncoding)
  }

  function ModifierTryFrom(s: string): (r: Result<Modifier, InvalidModifier>)
    ensures r.Ok? <==> IsAlphaWord(s)
    ensures r.Ok? ==> r.value.inner == s
  {
    if MatchesPlus(s, IsAsciiAlpha) then Ok(Modifier(s)) else Err(InvalidModifier)
  }

  /** Scans for the first control character. The line-break test that follows
      the control test in the loop can never fire, because `\n` and `\r` are
      themselves control characters. */
  function ValueCheck(s: string): (r: Option<InvalidValue>)
    ensures r.None? <==> IsValue(s)
    ensures r.Some? ==> r.value == ContainsControlCharacter
  {
    if |s| == 0 then None
    else if IsControl(s[0]) then Some(ContainsControlCharacter)
    else if s[0] == '\n' || s[0] == '\r' then Some(ContainsNewline)
    else ValueCheck(s[1..])
  }

  function ValueTryFrom(s: string): (r: Result<Value, InvalidValue>)
    ensures r.Ok? <==> IsValue(s)
    ensures r.Ok? ==> r.value.inner == s
    ensures r.Err? ==> r.error == ContainsControlCharacter
  {
    match ValueCheck(s)
    case None => Ok(Value(s))
    case Some(e) => Err(e)
  }

  function WhitespaceCheck(s: string): (ok: bool)
    ensures ok <==> IsWhitespace(s)
  {
    |s| == 0 || (IsAsciiWhitespace(s[0]) && WhitespaceCheck(s[1..]))
  }

  function WhitespaceTryFrom(s: string): (r: Result<Whitespace, InvalidWhitespace>)
    ensures r.Ok? <==> IsWhitespace(s)
    ensures r.Ok? ==> r.value.inner == s
  {
    if WhitespaceCheck(s) then Ok(Whitespace(s)) else Err(InvalidWhitespace)
  }

  function DecorCheck(lines: seq<string>): (ok: bool)
    ensures ok <==> IsDecor(lines)
  {
    |lines| == 0 || (IsDecorLine(lines[0]) && DecorCheck(lines[1..]))
  }

  function DecorTryFrom(lines: seq<string>): (r: Result<Decor, InvalidDecor>)
    ensures r.Ok? <==> IsDecor(lines)
    ensures r.Ok? ==> r.value.inner == lines
  {
    if DecorCheck(lines) then Ok(Decor(lines)) else Err(InvalidDecor)
  }

  // ---- the accepted and rejected inputs the documentation gives ----

  lemma GroupNameExamples()
    ensures GroupNameTryFrom("hello") == Ok(GroupName("hello"))
    ensures GroupNameTryFrom("[[[[[").Err?
  {
    assert !IsGroupNameChar("[[[[["[0]);
  }

  lemma KeyAcceptExamples()
    ensures KeyTryFrom("hello").Ok? && KeyTryFrom("abc-123").Ok? && KeyTryFrom("") == Ok(Key(""))
  {
    var a := "abc-123";
    forall i | 0 <= i < |a| ensures IsAlnumOrDash(a[i]) {
      assert a[i] in {'a', 'b', 'c', '-', '1', '2', '3'};
    }
    var h := "hello";
    forall i | 0 <= i < |h| ensures IsAlnumOrDash(h[i]) {
      assert h[i] in {'h', 'e', 'l', 'o'};
    }
  }

  lemma KeyRejectExamples()
    ensures KeyTryFrom("//!!/") == Err(NotAlphanumeric)
    ensures KeyTryFrom("abc def") == Err(NotAlphanumeric)
  {
    assert !IsAlnumOrDash("//!!/"[0]);
    var s := "abc def";
    assert !IsAlnumOrDash(s[3]);
    assert s[3..][0] == ' ';
    assert PrefixLen(s[3..], IsAlnumOrDash) == 0;
    assert s[2..][1..] == s[3..];
    assert s[1..][1..] == s[2..];
    assert PrefixLen(s, IsAlnumOrDash) == 3;
  }

  lemma KeyNonAsciiExample()
    ensures KeyTryFrom("N\U{E4}me") == Err(NotAscii)
  {
    var s := "N\U{E4}me";
    assert s[1..][0] == '\U{E4}';
    assert PrefixLen(s[1..], IsAlnumOrDash) == 0;
    assert PrefixLen(s, IsAlnumOrDash) == 1;
  }

  lemma LocalePartExamples()
    ensures LanguageTryFrom("de").Ok? && LanguageTryFrom("42").Err?
    ensures CountryTryFrom("DE").Ok? && CountryTryFrom("!!").Err?
    ensures EncodingTryFrom("utf8").Ok? && EncodingTryFrom("morse!").Err?
    ensures ModifierTryFrom("latin").Ok? && ModifierTryFrom("!foo!").Err?
  {
    forall i | 0 <= i < 5 ensures IsAsciiAlpha("latin"[i]) {
      assert "latin"[i] in {'l', 'a', 't', 'i', 'n'};
    }
    forall i | 0 <= i < 4 ensures IsAlnumOrDash("utf8"[i]) {
      assert "utf8"[i] in {'u', 't', 'f', '8'};
    }
    assert !IsAsciiAlpha("42"[0]);
    assert !IsAsciiAlpha("!!"[0]);
    assert !IsAlnumOrDash("morse!"[5]);
    assert !IsAsciiAlpha("!foo!"[0]);
  }

  lemma ValueExamples()
    ensures ValueTryFrom("WORLD") == Ok(Value("WORLD"))
    ensures ValueTryFrom("new\nline") == Err(ContainsControlCharacter)
    ensures ValueTryFrom("abc\ndef").Err?
  {
    assert !IsValueChar("new\nline"[3]);
    assert !IsValueChar("abc\ndef"[3]);
  }

  lemma WhitespaceAndDecorExamples()
    ensures WhitespaceTryFrom(" ").Ok? && WhitespaceTryFrom("\t ").Ok?
    ensures WhitespaceTryFrom("\n\r\U{0C}").Ok?
    ensures WhitespaceTryFrom("HELLO").Err? && WhitespaceTryFrom("x").Err?
    ensures DecorTryFrom(["# This is a comment"]).Ok? && DecorTryFrom([""]).Ok?
    ensures DecorTryFrom(["This=is not a comment"]).Err?
  {
    assert !IsAsciiWhitespace("HELLO"[0]);
    assert !IsAsciiWhitespace("x"[0]);
    assert !IsDecorLine(["This=is not a comment"][0]);
  }
}
