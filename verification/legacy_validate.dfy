/** The validators of src/validate.rs, the older snapshot that the line
    matchers were written against. They check the same classes as the
    current ones in src/types/basic.rs and report the same errors; here they
    are written as the character loops the source runs, and their contracts
    are stated against the class predicates of `BasicTypes`. The datatype
    constructors play the role of `new_unchecked`, the `inner` fields the
    role of `From`. */
module LegacyValidate {
  import opened Wrappers
  import opened CharClass
  import BasicTypes

  datatype Key = Key(inner: string)
  datatype Value = Value(inner: string)
  datatype Whitespace = Whitespace(inner: string)

  datatype InvalidKey = NotAscii | NotAlphanumeric
  datatype InvalidValue = ContainsControlCharacter | ContainsNewline
  datatype InvalidWhitespace = InvalidWhitespace

  /** `TryFrom for Key`: the first character outside `[[:alnum:]-]` stops the
      scan; a non-ASCII one is `NotAscii`, any other `NotAlphanumeric`. The
      empty key is accepted. */
  method KeyTryFrom(s: string) returns (r: Result<Key, InvalidKey>)
    ensures r.Ok? <==> BasicTypes.IsKey(s)
    ensures r.Ok? ==> r.value.inner == s
    ensures r.Err? ==>
      var i := PrefixLen(s, IsAlnumOrDash);
      i < |s| && r.error == (if IsAscii(s[i]) then NotAlphanumeric else NotAscii)
  {
    var i := 0;
    while i < |s|
      invariant i <= |s|
      invariant forall j :: 0 <= j < i ==> IsAlnumOrDash(s[j])
    {
      if !IsAscii(s[i]) {
        PrefixLenAt(s, IsAlnumOrDash, i);
        return Err(NotAscii);
      }
      if !IsAsciiAlnum(s[i]) && s[i] != '-' {
        PrefixLenAt(s, IsAlnumOrDash, i);
        return Err(NotAlphanumeric);
      }
      i := i + 1;
    }
    return Ok(Key(s));
  }

  /** `TryFrom for Value`: any control character is rejected. The line-break
      test after the control test never fires, since line feed and carriage
      return are control characters, so `ContainsNewline` is never
      returned. */
  method ValueTryFrom(s: string) returns (r: Result<Value, InvalidValue>)
    ensures r.Ok? <==> BasicTypes.IsValue(s)
    ensures r.Ok? ==> r.value.inner == s
    ensures r.Err? ==> r.error == ContainsControlCharacter
  {
    var i := 0;
    while i < |s|
      invariant i <= |s|
      invariant forall j :: 0 <= j < i ==> !IsControl(s[j])
    {
      if IsControl(s[i]) {
        return Err(ContainsControlCharacter);
      }
      assert s[i] != '\n' && s[i] != '\r';
      i := i + 1;
    }
    return Ok(Value(s));
  }

  /** `TryFrom for Whitespace`: every character must be ASCII whitespace,
      which includes line feed, form feed and carriage return, although the
      error text names only space and tab. */
  method WhitespaceTryFrom(s: string) returns (r: Result<Whitespace, InvalidWhitespace>)
    ensures r.Ok? <==> BasicTypes.IsWhitespace(s)
    ensures r.Ok? ==> r.value.inner == s
  {
    var i := 0;
    while i < |s|
      invariant i <= |s|
      invariant forall j :: 0 <= j < i ==> IsAsciiWhitespace(s[j])
    {
      if !IsAsciiWhitespace(s[i]) {
        return Err(InvalidWhitespace);
      }
      i := i + 1;
    }
    return Ok(Whitespace(s));
  }
}
