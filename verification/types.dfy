/** The document building blocks of src/types.rs: `Locale`, `KeyValuePair`
    and `Group`, their constructors, setters, ordered-map operations and
    `Display` renderings. Fields hold plain strings; the constructors and
    setters take the validated newtypes of `BasicTypes`. */
module Types {
  import opened Wrappers
  import opened CharClass
  import opened OrderedMap
  import opened TextLines
  import opened BasicTypes

  // ================= Locale =================

  datatype Locale = Locale(
    lang: string,
    country: Option<string>,
    encoding: Option<string>,
    modifier: Option<string>)

  /** `Locale::new`: there is no encoding argument, so the encoding is unset. */
  function LocaleNew(lang: Language, country: Option<Country>, modifier: Option<Modifier>): (l: Locale)
    ensures l.encoding == None
    ensures l.lang == lang.inner
    ensures l.country.Some? <==> country.Some?
    ensures country.Some? ==> l.country.value == country.value.inner
    ensures l.modifier.Some? <==> modifier.Some?
    ensures modifier.Some? ==> l.modifier.value == modifier.value.inner
  {
    Locale(
      lang.inner,
      match country case Some(c) => Some(c.inner) case None => None,
      None,
      match modifier case Some(m) => Some(m.inner) case None => None)
  }

  /** `Locale::new_with_encoding` (crate-internal). */
  function LocaleNewWithEncoding(lang: Language, country: Option<Country>, encoding: Option<Encoding>,
                                 modifier: Option<Modifier>): (l: Locale)
    ensures l.encoding.Some? <==> encoding.Some?
    ensures encoding.Some? ==> l.encoding.value == encoding.value.inner
    ensures l.(encoding := None) == LocaleNew(lang, country, modifier)
  {
    LocaleNew(lang, country, modifier).(encoding :=
      match encoding case Some(e) => Some(e.inner) case None => None)
  }

  /** `Locale::into_owned`: a field-by-field copy. */
  function LocaleIntoOwned(l: Locale): (r: Locale)
    ensures r == l
  {
    Locale(l.lang, l.country, l.encoding, l.modifier)
  }

  /** `Locale::set_lang`: stores the new language and returns the prev one. */
  function LocaleSetLang(l: Locale, lang: Language): (r: (Locale, string))
    ensures r.0.lang == lang.inner && r.1 == l.lang
    ensures r.0.country == l.country && r.0.encoding == l.encoding && r.0.modifier == l.modifier
  {
    (l.(lang := lang.inner), l.lang)
  }

  /** `Locale::set_country` */
  function LocaleSetCountry(l: Locale, country: Option<Country>): (r: (Locale, Option<string>))
    ensures r.0.country == (match country case Some(c) => Some(c.inner) case None => None)
    ensures r.1 == l.country
    ensures r.0.lang == l.lang && r.0.encoding == l.encoding && r.0.modifier == l.modifier
  {
    (l.(country := match country case Some(c) => Some(c.inner) case None => None), l.country)
  }

  /** `Locale::set_modifier` */
  function LocaleSetModifier(l: Locale, modifier: Option<Modifier>): (r: (Locale, Option<string>))
    ensures r.0.modifier == (match modifier case Some(m) => Some(m.inner) case None => None)
    ensures r.1 == l.modifier
    ensures r.0.lang == l.lang && r.0.country == l.country && r.0.encoding == l.encoding
  {
    (l.(modifier := match modifier case Some(m) => Some(m.inner) case None => None), l.modifier)
  }

  /** Setting a part back to the value its setter returned restores the
      locale: the setters lose nothing. */
  lemma LocaleSettersRestore(l: Locale, lang: Language, country: Option<Country>, modifier: Option<Modifier>)
    ensures var (l', prev) := LocaleSetLang(l, lang); LocaleSetLang(l', Language(prev)).0 == l
    ensures var (l', prev) := LocaleSetCountry(l, country);
      LocaleSetCountry(l', match prev case Some(c) => Some(Country(c)) case None => None).0 == l
    ensures var (l', prev) := LocaleSetModifier(l, modifier);
      LocaleSetModifier(l', match prev case Some(m) => Some(Modifier(m)) case None => None).0 == l
  {
  }

  /** `Display for Locale`: `lang`, then `_country`, then `@modifier`. The
      encoding is never written. */
  function RenderLocale(l: Locale): string
  {
    l.lang
    + (match l.country case Some(c) => "_" + c case None => "")
    + (match l.modifier case Some(m) => "@" + m case None => "")
  }

  /** The encoding has no influence on the rendering. */
  lemma RenderLocaleIgnoresEncoding(l: Locale, e: Option<string>)
    ensures RenderLocale(l.(encoding := e)) == RenderLocale(l)
  {
  }

  // ---- the derived total order on Locale ----

  datatype Ordering = Less | Equal | Greater

  function Flip(o: Ordering): Ordering {
    match o case Less => Greater case Equal => Equal case Greater => Less
  }

  /** Lexicographic order on strings by code point, which for UTF-8 text is
      the byte order `str`'s `Ord` uses. */
  function StringCmp(a: string, b: string): Ordering
  {
    if |a| == 0 && |b| == 0 then Equal
    else if |a| == 0 then Less
    else if |b| == 0 then Greater
    else if a[0] < b[0] then Less
    else if a[0] > b[0] then Greater
    else StringCmp(a[1..], b[1..])
  }

  /** `Option`'s derived order: `None` first. */
  function OptionCmp(a: Option<string>, b: Option<string>): Ordering
  {
    match (a, b)
    case (None, None) => Equal
    case (None, Some(_)) => Less
    case (Some(_), None) => Greater
    case (Some(x), Some(y)) => StringCmp(x, y)
  }

  function Then(first: Ordering, next: Ordering): Ordering {
    if first == Equal then next else first
  }

  /** `#[derive(Ord)]` on `Locale`: field by field in declaration order, the
      encoding included. */
  function LocaleCmp(a: Locale, b: Locale): Ordering
  {
    Then(StringCmp(a.lang, b.lang),
      Then(OptionCmp(a.country, b.country),
        Then(OptionCmp(a.encoding, b.encoding),
          OptionCmp(a.modifier, b.modifier))))
  }

  lemma {:induction false} StringCmpProperties(a: string, b: string)
    ensures StringCmp(a, b) == Equal <==> a == b
    ensures StringCmp(b, a) == Flip(StringCmp(a, b))
  {
    if |a| > 0 && |b| > 0 && a[0] == b[0] {
      StringCmpProperties(a[1..], b[1..]);
      if a[1..] == b[1..] {
        assert a == [a[0]] + a[1..] && b == [b[0]] + b[1..];
      }
    }
  }

  lemma {:induction false} StringCmpTransitive(a: string, b: string, c: string)
    requires StringCmp(a, b) == Less && StringCmp(b, c) == Less
    ensures StringCmp(a, c) == Less
  {
    if |a| > 0 && |b| > 0 && |c| > 0 && a[0] == b[0] && b[0] == c[0] {
      StringCmpTransitive(a[1..], b[1..], c[1..]);
    }
  }

  lemma OptionCmpProperties(a: Option<string>, b: Option<string>)
    ensures OptionCmp(a, b) == Equal <==> a == b
    ensures OptionCmp(b, a) == Flip(OptionCmp(a, b))
  {
    if a.Some? && b.Some? {
      StringCmpProperties(a.value, b.value);
    }
  }

  lemma OptionCmpTransitive(a: Option<string>, b: Option<string>, c: Option<string>)
    requires OptionCmp(a, b) == Less && OptionCmp(b, c) == Less
    ensures OptionCmp(a, c) == Less
  {
    if a.Some? && b.Some? && c.Some? {
      StringCmpTransitive(a.value, b.value, c.value);
    }
  }

  /** Locale comparison agrees with structural equality (all four fields,
      encoding included) and is antisymmetric. */
  lemma LocaleCmpProperties(a: Locale, b: Locale)
    ensures LocaleCmp(a, b) == Equal <==> a == b
    ensures LocaleCmp(b, a) == Flip(LocaleCmp(a, b))
  {
    StringCmpProperties(a.lang, b.lang);
    OptionCmpProperties(a.country, b.country);
    OptionCmpProperties(a.encoding, b.encoding);
    OptionCmpProperties(a.modifier, b.modifier);
  }

  /** Locale comparison is transitive, so together with the lemma above it is
      a total order. */
  lemma LocaleCmpTransitive(a: Locale, b: Locale, c: Locale)
    requires LocaleCmp(a, b) == Less && LocaleCmp(b, c) == Less
    ensures LocaleCmp(a, c) == Less
  {
    StringCmpProperties(a.lang, b.lang);
    StringCmpProperties(b.lang, c.lang);
    OptionCmpProperties(a.country, b.country);
    OptionCmpProperties(b.country, c.country);
    OptionCmpProperties(a.encoding, b.encoding);
    OptionCmpProperties(b.encoding, c.encoding);
    OptionCmpProperties(a.modifier, b.modifier);
    OptionCmpProperties(b.modifier, c.modifier);
    if StringCmp(a.lang, b.lang) == Less && StringCmp(b.lang, c.lang) == Less {
      StringCmpTransitive(a.lang, b.lang, c.lang);
    } else if StringCmp(a.lang, b.lang) == Equal && StringCmp(b.lang, c.lang) == Equal {
      if OptionCmp(a.country, b.country) == Less && OptionCmp(b.country, c.country) == Less {
        OptionCmpTransitive(a.country, b.country, c.country);
      } else if OptionCmp(a.country, b.country) == Equal && OptionCmp(b.country, c.country) == Equal {
        if OptionCmp(a.encoding, b.encoding) == Less && OptionCmp(b.encoding, c.encoding) == Less {
          OptionCmpTransitive(a.encoding, b.encoding, c.encoding);
        } else if OptionCmp(a.encoding, b.encoding) == Equal && OptionCmp(b.encoding, c.encoding) == Equal {
          OptionCmpTransitive(a.modifier, b.modifier, c.modifier);
        }
      }
    }
  }

  // ================= KeyValuePair =================

  datatype KeyValuePair = KeyValuePair(
    key: string,
    locale: Option<Locale>,
    value: string,
    wsl: string,
    wsr: string,
    decor: seq<string>)

  /** `KeyValuePair::new`: one space on each side of `=`, no decor. */
  function KvNew(key: Key, locale: Option<Locale>, value: Value): (kv: KeyValuePair)
    ensures kv.key == key.inner && kv.locale == locale && kv.value == value.inner
    ensures kv.wsl == " " && kv.wsr == " " && kv.decor == []
    ensures RenderEntry(kv) == key.inner + LocaleSuffix(locale) + " = " + value.inner
  {
    KeyValuePair(key.inner, locale, value.inner, " ", " ", [])
  }

  /** `KeyValuePair::new_with_decor`: every argument is stored unchanged. */
  function KvNewWithDecor(key: Key, locale: Option<Locale>, value: Value,
                          wsl: Whitespace, wsr: Whitespace, decor: Decor): (kv: KeyValuePair)
    ensures kv.key == key.inner && kv.locale == locale && kv.value == value.inner
    ensures kv.wsl == wsl.inner && kv.wsr == wsr.inner && kv.decor == decor.inner
  {
    KeyValuePair(key.inner, locale, value.inner, wsl.inner, wsr.inner, decor.inner)
  }

  /** `KeyValuePair::into_owned`: a deep copy, equal to the original. */
  function KvIntoOwned(kv: KeyValuePair): (r: KeyValuePair)
    ensures r == kv
  {
    KeyValuePair(kv.key,
      match kv.locale case Some(l) => Some(LocaleIntoOwned(l)) case None => None,
      kv.value, kv.wsl, kv.wsr, kv.decor)
  }

  /** `set_key`: stores the new key and returns the prev one. */
  function KvSetKey(kv: KeyValuePair, key: Key): (r: (KeyValuePair, string))
    ensures r.0.key == key.inner && r.1 == kv.key
    ensures r.0.locale == kv.locale && r.0.value == kv.value && r.0.wsl == kv.wsl
    ensures r.0.wsr == kv.wsr && r.0.decor == kv.decor
  {
    (kv.(key := key.inner), kv.key)
  }

  /** `set_locale`: the locale is always `Some` afterwards; the prev one,
      possibly `None`, is returned. */
  function KvSetLocale(kv: KeyValuePair, locale: Locale): (r: (KeyValuePair, Option<Locale>))
    ensures r.0.locale == Some(locale) && r.1 == kv.locale
    ensures r.0.key == kv.key && r.0.value == kv.value && r.0.wsl == kv.wsl
    ensures r.0.wsr == kv.wsr && r.0.decor == kv.decor
  {
    (kv.(locale := Some(locale)), kv.locale)
  }

  /** `set_value` */
  function KvSetValue(kv: KeyValuePair, value: Value): (r: (KeyValuePair, string))
    ensures r.0.value == value.inner && r.1 == kv.value
    ensures r.0.key == kv.key && r.0.locale == kv.locale && r.0.wsl == kv.wsl
    ensures r.0.wsr == kv.wsr && r.0.decor == kv.decor
  {
    (kv.(value := value.inner), kv.value)
  }

  /** `set_whitespace`: replaces both sides, returns both prev ones. */
  function KvSetWhitespace(kv: KeyValuePair, wsl: Whitespace, wsr: Whitespace): (r: (KeyValuePair, (string, string)))
    ensures r.0.wsl == wsl.inner && r.0.wsr == wsr.inner && r.1 == (kv.wsl, kv.wsr)
    ensures r.0.key == kv.key && r.0.locale == kv.locale && r.0.value == kv.value
    ensures r.0.decor == kv.decor
  {
    (kv.(wsl := wsl.inner, wsr := wsr.inner), (kv.wsl, kv.wsr))
  }

  /** `set_decor` */
  function KvSetDecor(kv: KeyValuePair, decor: Decor): (r: (KeyValuePair, seq<string>))
    ensures r.0.decor == decor.inner && r.1 == kv.decor
    ensures r.0.key == kv.key && r.0.locale == kv.locale && r.0.value == kv.value
    ensures r.0.wsl == kv.wsl && r.0.wsr == kv.wsr
  {
    (kv.(decor := decor.inner), kv.decor)
  }

  /** Setting a field back to the value a setter returned restores the pair:
      the setters lose nothing. */
  lemma KvSettersRestore(kv: KeyValuePair, key: Key, value: Value, wsl: Whitespace, wsr: Whitespace, decor: Decor)
    ensures var (kv', prev) := KvSetKey(kv, key); KvSetKey(kv', Key(prev)).0 == kv
    ensures var (kv', prev) := KvSetValue(kv, value); KvSetValue(kv', Value(prev)).0 == kv
    ensures var (kv', prev) := KvSetWhitespace(kv, wsl, wsr);
      KvSetWhitespace(kv', Whitespace(prev.0), Whitespace(prev.1)).0 == kv
    ensures var (kv', prev) := KvSetDecor(kv, decor); KvSetDecor(kv', Decor(prev)).0 == kv
    ensures kv.locale.Some? ==> var (kv', prev) := KvSetLocale(kv, kv.locale.value); kv' == kv && prev == kv.locale
  {
  }

  /** `[locale]` after the key, or nothing. */
  function LocaleSuffix(locale: Option<Locale>): string
  {
    match locale case Some(l) => "[" + RenderLocale(l) + "]" case None => ""
  }

  /** The text of a key-value line: `key[locale]wsl=wsrvalue`. */
  function EntryLine(key: string, locale: Option<Locale>, wsl: string, wsr: string, value: string): string
  {
    key + LocaleSuffix(locale) + wsl + "=" + wsr + value
  }

  /** `Display for KeyValuePair`: each decor line and a line feed, then the
      key-value line with no line feed of its own. */
  function RenderEntry(kv: KeyValuePair): string
  {
    Unlines(kv.decor) + EntryLine(kv.key, kv.locale, kv.wsl, kv.wsr, kv.value)
  }

  // ================= Group =================

  /** An entry's compound key: the key string and the optional locale. */
  type EntryKey = (string, Option<Locale>)

  function KeyOf(kv: KeyValuePair): EntryKey {
    (kv.key, kv.locale)
  }

  datatype Group = Group(
    name: string,
    entries: Entries<EntryKey, KeyValuePair>,
    decor: seq<string>)

  /** The entry map's invariant: distinct compound keys, and every map key is
      the compound key of the pair it holds. */
  predicate ValidEntries(es: Entries<EntryKey, KeyValuePair>) {
    && DistinctKeys(es)
    && forall i :: 0 <= i < |es| ==> es[i].0 == KeyOf(es[i].1)
  }

  predicate ValidGroup(g: Group) {
    ValidEntries(g.entries)
  }

  /** Each entry's rendering followed by a line feed, in map order. */
  function RenderEntries(es: Entries<EntryKey, KeyValuePair>): string
  {
    if |es| == 0 then [] else RenderEntry(es[0].1) + "\n" + RenderEntries(es[1..])
  }

  lemma {:induction false} RenderEntriesConcat(a: Entries<EntryKey, KeyValuePair>, b: Entries<EntryKey, KeyValuePair>)
    ensures RenderEntries(a + b) == RenderEntries(a) + RenderEntries(b)
  {
    if |a| == 0 {
      assert a + b == b;
    } else {
      assert (a + b)[1..] == a[1..] + b;
      RenderEntriesConcat(a[1..], b);
    }
  }

  /** Rendering only looks at the values, so replacing one slot changes only
      that slot's part of the text. */
  lemma RenderEntriesSplit(es: Entries<EntryKey, KeyValuePair>, i: nat)
    requires i < |es|
    ensures RenderEntries(es) == RenderEntries(es[..i]) + (RenderEntry(es[i].1) + "\n") + RenderEntries(es[i + 1..])
  {
    var a, b := es[..i], es[i..];
    assert es == a + b;
    RenderEntriesConcat(a, b);
    assert b[1..] == es[i + 1..];
    assert b[0] == es[i];
  }

  function GroupHeader(name: string): string {
    "[" + name + "]"
  }

  /** `Display for Group`: decor lines, the `[name]` line, then every entry
      and a line feed, in insertion order. */
  function RenderGroup(g: Group): string
  {
    RenderHead(g) + RenderEntries(g.entries)
  }

  /** The part of a group's rendering before its entries: decor lines and
      the header line. */
  function RenderHead(g: Group): string
  {
    Unlines(g.decor) + GroupHeader(g.name) + "\n"
  }

  /** `Group::new`: a group without entries or decor, which renders as its
      bare header line. */
  function GroupNew(name: GroupName): (g: Group)
    ensures ValidGroup(g)
    ensures g.name == name.inner
    ensures RenderGroup(g) == "[" + name.inner + "]\n"
  {
    Group(name.inner, [], [])
  }

  /** `Group::from_entries` (crate-internal). */
  function GroupFromEntries(name: GroupName, entries: Entries<EntryKey, KeyValuePair>, decor: Decor): (g: Group)
    ensures g.name == name.inner && g.entries == entries && g.decor == decor.inner
  {
    Group(name.inner, entries, decor.inner)
  }

  /** `Group::get` */
  function GroupGet(g: Group, key: string, locale: Option<Locale>): (r: Option<KeyValuePair>)
    ensures r.Some? <==> (key, locale) in Keys(g.entries)
    ensures r.Some? ==> ((key, locale), r.value) in g.entries
    ensures ValidGroup(g) && r.Some? ==> r.value.key == key && r.value.locale == locale
  {
    Get(g.entries, (key, locale))
  }

  /** `Group::insert`: an existing compound key keeps its slot and the
      replaced pair is returned; a new one is appended. */
  function GroupInsert(g: Group, kv: KeyValuePair): (r: (Group, Option<KeyValuePair>))
    ensures r.0.name == g.name && r.0.decor == g.decor
    ensures r.1 == GroupGet(g, kv.key, kv.locale)
    ensures GroupGet(r.0, kv.key, kv.locale) == Some(kv)
    ensures ValidGroup(g) ==> ValidGroup(r.0)
    ensures r.1.None? ==> r.0.entries == g.entries + [(KeyOf(kv), kv)]
    ensures r.1.Some? ==>
      var i := IndexOf(g.entries, KeyOf(kv)).value;
      r.0.entries == g.entries[i := (KeyOf(kv), kv)]
  {
    var (es, prev) := Insert(g.entries, KeyOf(kv), kv);
    GetAfterInsert(g.entries, KeyOf(kv), kv);
    (g.(entries := es), prev)
  }

  /** Inserting a new compound key renders the new pair after all others. */
  lemma GroupInsertAppendRender(g: Group, kv: KeyValuePair)
    requires GroupGet(g, kv.key, kv.locale).None?
    ensures RenderGroup(GroupInsert(g, kv).0) == RenderGroup(g) + (RenderEntry(kv) + "\n")
  {
    InsertFreshEntry(g, kv);
    RenderAppendedEntry(g, kv);
  }

  /** A group with one more pair at the end renders as the group followed by
      that pair's line. */
  lemma RenderAppendedEntry(g: Group, kv: KeyValuePair)
    ensures RenderGroup(g.(entries := g.entries + [(KeyOf(kv), kv)]))
         == RenderGroup(g) + (RenderEntry(kv) + "\n")
  {
    var e := (KeyOf(kv), kv);
    var g' := g.(entries := g.entries + [e]);
    var h, r := RenderHead(g), RenderEntries(g.entries);
    assert RenderHead(g') == h;
    assert RenderEntries(g'.entries) == r + (RenderEntry(kv) + "\n") by {
      RenderEntriesConcat(g.entries, [e]);
      assert [e][1..] == [];
    }
  }


  /** Inserting an existing compound key renders the new pair in the slot of
      the pair it replaces. */
  lemma GroupInsertReplaceRender(g: Group, kv: KeyValuePair)
    requires GroupGet(g, kv.key, kv.locale).Some?
    ensures var i := IndexOf(g.entries, KeyOf(kv)).value;
      RenderGroup(GroupInsert(g, kv).0) == RenderHead(g)
        + (RenderEntries(g.entries[..i]) + (RenderEntry(kv) + "\n") + RenderEntries(g.entries[i + 1..]))
  {
    var g' := GroupInsert(g, kv).0;
    var i := IndexOf(g.entries, KeyOf(kv)).value;
    assert RenderHead(g') == RenderHead(g);
    RenderEntriesSplit(g'.entries, i);
    assert g'.entries[..i] == g.entries[..i] && g'.entries[i + 1..] == g.entries[i + 1..];
  }

  /** `Group::remove`: removes and returns the pair under the compound key,
      keeping the order of the others. */
  function GroupRemove(g: Group, key: string, locale: Option<Locale>): (r: (Group, Option<KeyValuePair>))
    ensures r.0.name == g.name && r.0.decor == g.decor
    ensures r.1 == GroupGet(g, key, locale)
    ensures ValidGroup(g) ==> ValidGroup(r.0) && GroupGet(r.0, key, locale) == None
    ensures forall k :: k != (key, locale) ==> Get(r.0.entries, k) == Get(g.entries, k)
    ensures r.1.None? ==> r.0 == g
    ensures r.1.Some? ==>
      var i := IndexOf(g.entries, (key, locale)).value;
      r.0.entries == g.entries[..i] + g.entries[i + 1..]
  {
    var (es, prev) := ShiftRemove(g.entries, (key, locale));
    RemoveKeepsValidEntries(g.entries, (key, locale));
    RemoveKeepsOtherEntries(g.entries, (key, locale));
    (g.(entries := es), prev)
  }

  /** Removing a compound key keeps the entry map valid and takes the key out. */
  lemma RemoveKeepsValidEntries(es: Entries<EntryKey, KeyValuePair>, k: EntryKey)
    ensures ValidEntries(es) ==> ValidEntries(ShiftRemove(es, k).0) && Get(ShiftRemove(es, k).0, k) == None
  {
    if ValidEntries(es) {
      var es' := ShiftRemove(es, k).0;
      GetAfterRemove(es, k);
      var i := IndexOf(es, k);
      if i.Some? {
        forall j | 0 <= j < |es'| ensures es'[j].0 == KeyOf(es'[j].1) {
          if j < i.value { assert es'[j] == es[j]; } else { assert es'[j] == es[j + 1]; }
        }
      }
    }
  }

  /** Removing a compound key leaves every other key's pair where it was. */
  lemma RemoveKeepsOtherEntries(es: Entries<EntryKey, KeyValuePair>, k: EntryKey)
    ensures forall k' :: k' != k ==> Get(ShiftRemove(es, k).0, k') == Get(es, k')
  {
    forall k' | k' != k ensures Get(ShiftRemove(es, k).0, k') == Get(es, k') {
      GetOtherAfterRemove(es, k, k');
    }
  }

  /** The rendering of a group after a removal: the removed pair's text is
      cut out and everything else stays in order. */
  lemma GroupRemoveRender(g: Group, key: string, locale: Option<Locale>)
    ensures var (g', prev) := GroupRemove(g, key, locale);
      prev.Some? ==>
        var i := IndexOf(g.entries, (key, locale)).value;
        && RenderGroup(g) == RenderHead(g)
             + (RenderEntries(g.entries[..i]) + (RenderEntry(g.entries[i].1) + "\n") + RenderEntries(g.entries[i + 1..]))
        && RenderGroup(g') == RenderHead(g)
             + (RenderEntries(g.entries[..i]) + RenderEntries(g.entries[i + 1..]))
  {
    var (g', prev) := GroupRemove(g, key, locale);
    assert RenderHead(g') == RenderHead(g);
    if prev.Some? {
      var i := IndexOf(g.entries, (key, locale)).value;
      RenderEntriesConcat(g.entries[..i], g.entries[i + 1..]);
      RenderEntriesSplit(g.entries, i);
    }
  }


  /** Inserts the pairs one after another, as the loop of `into_owned` does. */
  function InsertAll(acc: Group, kvs: seq<KeyValuePair>): Group
    decreases |kvs|
  {
    if |kvs| == 0 then acc else InsertAll(GroupInsert(acc, KvIntoOwned(kvs[0])).0, kvs[1..])
  }

  /** `Group::into_owned`: a new group under the same name, every pair
      re-inserted in order, then the decor lines pushed. */
  function GroupIntoOwned(g: Group): Group
  {
    var owned := InsertAll(GroupNew(GroupName(g.name)), Values(g.entries));
    owned.(decor := owned.decor + g.decor)
  }

  /** A pair under a new compound key is appended, and nothing else
      changes. */
  lemma InsertFreshEntry(g: Group, kv: KeyValuePair)
    requires KeyOf(kv) !in Keys(g.entries)
    ensures GroupInsert(g, kv).0 == g.(entries := g.entries + [(KeyOf(kv), kv)])
  {
  }

  lemma {:induction false} InsertAllRebuilds(es: Entries<EntryKey, KeyValuePair>, acc: Group, i: nat)
    requires ValidEntries(es)
    requires i <= |es| && acc.entries == es[..i]
    ensures InsertAll(acc, Values(es)[i..]).entries == es
    ensures InsertAll(acc, Values(es)[i..]).name == acc.name
    ensures InsertAll(acc, Values(es)[i..]).decor == acc.decor
    decreases |es| - i
  {
    if i < |es| {
      var kv := es[i].1;
      assert Values(es)[i..][0] == kv;
      assert Values(es)[i..][1..] == Values(es)[i + 1..];
      assert KeyOf(kv) == es[i].0;
      assert KeyOf(kv) !in Keys(es[..i]) by {
        forall j | 0 <= j < i ensures es[..i][j].0 != KeyOf(kv) {
          assert es[..i][j] == es[j];
        }
      }
      var acc' := acc.(entries := es[..i + 1]);
      InsertFreshEntry(acc, kv);
      assert es[..i + 1] == es[..i] + [(KeyOf(kv), kv)];
      InsertAllRebuilds(es, acc', i + 1);
    } else {
      assert es[..i] == es;
    }
  }

  /** `into_owned` gives back an equal group, hence an identical rendering. */
  lemma GroupIntoOwnedIdentity(g: Group)
    requires ValidGroup(g)
    ensures GroupIntoOwned(g) == g
    ensures RenderGroup(GroupIntoOwned(g)) == RenderGroup(g)
  {
    var empty := GroupNew(GroupName(g.name));
    var owned := InsertAll(empty, Values(g.entries));
    assert owned == Group(g.name, g.entries, []) by {
      assert empty == Group(g.name, [], []) && empty.entries == g.entries[..0];
      assert Values(g.entries)[0..] == Values(g.entries);
      InsertAllRebuilds(g.entries, empty, 0);
    }
    assert GroupIntoOwned(g) == owned.(decor := [] + g.decor);
    assert [] + g.decor == g.decor;
  }
}
