/** The older document model of src/basic.rs. It differs from `Types` in
    three ways: its `Locale` has no encoding, nothing is validated (the
    constructors and setters take plain strings), and `set_value_borrowed`
    writes the key instead of the value. The `_borrowed` constructors and
    setters differ from the owned ones only in Rust lifetimes and are the
    same functions here, except for that one setter. Each rendering agrees
    with the current model's once the locale gains an unset encoding. */
module LegacyBasic {
  import opened Wrappers
  import opened OrderedMap
  import opened TextLines
  import Types

  // ================= Locale =================

  datatype Locale = Locale(lang: string, country: Option<string>, modifier: Option<string>)

  /** `Locale::new` and `Locale::new_borrowed`. */
  function LocaleNew(lang: string, country: Option<string>, modifier: Option<string>): (l: Locale)
    ensures l.lang == lang && l.country == country && l.modifier == modifier
  {
    Locale(lang, country, modifier)
  }

  /** `Display for Locale`: `lang`, then `_country`, then `@modifier`. */
  function RenderLocale(l: Locale): string
  {
    l.lang
    + (match l.country case Some(c) => "_" + c case None => "")
    + (match l.modifier case Some(m) => "@" + m case None => "")
  }

  /** The current locale with the same fields and no encoding. */
  function UpgradeLocale(l: Locale): (r: Types.Locale)
    ensures r.encoding == None
  {
    Types.Locale(l.lang, l.country, None, l.modifier)
  }

  /** An older locale renders as the current one without an encoding. */
  lemma RenderLocaleAgrees(l: Locale)
    ensures RenderLocale(l) == Types.RenderLocale(UpgradeLocale(l))
  {
  }

  // ================= KeyValuePair =================

  datatype KeyValuePair = KeyValuePair(
    key: string,
    locale: Option<Locale>,
    value: string,
    wsl: string,
    wsr: string,
    decor: seq<string>)

  /** `KeyValuePair::new` and `new_borrowed`: one space on each side of `=`,
      no decor. */
  function KvNew(key: string, locale: Option<Locale>, value: string): (kv: KeyValuePair)
    ensures kv.key == key && kv.locale == locale && kv.value == value
    ensures kv.wsl == " " && kv.wsr == " " && kv.decor == []
  {
    KeyValuePair(key, locale, value, " ", " ", [])
  }

  /** `new_with_decor` and `new_with_decor_borrowed`: every argument is
      stored unchanged. */
  function KvNewWithDecor(key: string, locale: Option<Locale>, value: string,
                          wsl: string, wsr: string, decor: seq<string>): (kv: KeyValuePair)
    ensures kv.key == key && kv.locale == locale && kv.value == value
    ensures kv.wsl == wsl && kv.wsr == wsr && kv.decor == decor
  {
    KeyValuePair(key, locale, value, wsl, wsr, decor)
  }

  /** `set_key` and `set_key_borrowed` */
  function KvSetKey(kv: KeyValuePair, key: string): (r: (KeyValuePair, string))
    ensures r.0.key == key && r.1 == kv.key
    ensures r.0.locale == kv.locale && r.0.value == kv.value && r.0.wsl == kv.wsl
    ensures r.0.wsr == kv.wsr && r.0.decor == kv.decor
  {
    (kv.(key := key), kv.key)
  }

  /** `set_locale` and `set_locale_borrowed`: the locale is `Some` afterwards. */
  function KvSetLocale(kv: KeyValuePair, locale: Locale): (r: (KeyValuePair, Option<Locale>))
    ensures r.0.locale == Some(locale) && r.1 == kv.locale
    ensures r.0.key == kv.key && r.0.value == kv.value && r.0.wsl == kv.wsl
    ensures r.0.wsr == kv.wsr && r.0.decor == kv.decor
  {
    (kv.(locale := Some(locale)), kv.locale)
  }

  /** `set_value` */
  function KvSetValue(kv: KeyValuePair, value: string): (r: (KeyValuePair, string))
    ensures r.0.value == value && r.1 == kv.value
    ensures r.0.key == kv.key && r.0.locale == kv.locale && r.0.wsl == kv.wsl
    ensures r.0.wsr == kv.wsr && r.0.decor == kv.decor
  {
    (kv.(value := value), kv.value)
  }

  /** `set_value_borrowed` as written: it replaces the key, not the value,
      and returns the old key. */
  function KvSetValueBorrowedAsWritten(kv: KeyValuePair, value: string): (r: (KeyValuePair, string))
    ensures r.0.key == value && r.1 == kv.key
    ensures r.0.value == kv.value && r.0.locale == kv.locale && r.0.wsl == kv.wsl
    ensures r.0.wsr == kv.wsr && r.0.decor == kv.decor
  {
    (kv.(key := value), kv.key)
  }

  /** The value setter as written leaves the value alone and clobbers the key. */
  lemma SetValueBorrowedClobbersKey()
    ensures var kv := KvNew("Name", None, "Files");
      var (kv', prev) := KvSetValueBorrowedAsWritten(kv, "Dateien");
      kv'.value == "Files" && kv'.key == "Dateien" && prev == "Name"
  {
  }

  /** `set_value_borrowed` as intended: the same as `set_value`. */
  function KvSetValueBorrowed(kv: KeyValuePair, value: string): (r: (KeyValuePair, string))
    ensures r.0.value == value && r.1 == kv.value
    ensures r.0.key == kv.key && r.0.locale == kv.locale && r.0.wsl == kv.wsl
    ensures r.0.wsr == kv.wsr && r.0.decor == kv.decor
  {
    (kv.(value := value), kv.value)
  }

  /** Setting the value back to what the intended setter returned restores
      the pair. */
  lemma SetValueBorrowedRestores(kv: KeyValuePair, value: string)
    ensures var (kv', prev) := KvSetValueBorrowed(kv, value); KvSetValueBorrowed(kv', prev).0 == kv
  {
  }

  /** `set_whitespace` and `set_whitespace_borrowed` */
  function KvSetWhitespace(kv: KeyValuePair, wsl: string, wsr: string): (r: (KeyValuePair, (string, string)))
    ensures r.0.wsl == wsl && r.0.wsr == wsr && r.1 == (kv.wsl, kv.wsr)
    ensures r.0.key == kv.key && r.0.locale == kv.locale && r.0.value == kv.value
    ensures r.0.decor == kv.decor
  {
    (kv.(wsl := wsl, wsr := wsr), (kv.wsl, kv.wsr))
  }

  /** `set_decor` and `set_decor_borrowed` */
  function KvSetDecor(kv: KeyValuePair, decor: seq<string>): (r: (KeyValuePair, seq<string>))
    ensures r.0.decor == decor && r.1 == kv.decor
    ensures r.0.key == kv.key && r.0.locale == kv.locale && r.0.value == kv.value
    ensures r.0.wsl == kv.wsl && r.0.wsr == kv.wsr
  {
    (kv.(decor := decor), kv.decor)
  }

  /** `Display for KeyValuePair`: decor lines, each with a line feed, then
      `key[locale]wsl=wsrvalue` with no line feed of its own. */
  function RenderEntry(kv: KeyValuePair): string
  {
    Unlines(kv.decor)
    + kv.key
    + (match kv.locale case Some(l) => "[" + RenderLocale(l) + "]" case None => "")
    + kv.wsl + "=" + kv.wsr + kv.value
  }

  function UpgradeLocaleOpt(l: Option<Locale>): Option<Types.Locale> {
    match l case Some(x) => Some(UpgradeLocale(x)) case None => None
  }

  /** The current pair with the same fields. */
  function UpgradeKv(kv: KeyValuePair): (r: Types.KeyValuePair)
    ensures r.key == kv.key && r.value == kv.value && r.decor == kv.decor
  {
    Types.KeyValuePair(kv.key, UpgradeLocaleOpt(kv.locale), kv.value, kv.wsl, kv.wsr, kv.decor)
  }

  /** An older pair renders as the current one. */
  lemma RenderEntryAgrees(kv: KeyValuePair)
    ensures RenderEntry(kv) == Types.RenderEntry(UpgradeKv(kv))
  {
    if kv.locale.Some? {
      RenderLocaleAgrees(kv.locale.value);
    }
  }

  // ================= Group =================

  type EntryKey = (string, Option<Locale>)

  function KeyOf(kv: KeyValuePair): EntryKey {
    (kv.key, kv.locale)
  }

  datatype Group = Group(name: string, entries: Entries<EntryKey, KeyValuePair>, decor: seq<string>)

  /** `Group::new` and `new_borrowed`: no entries, no decor. */
  function GroupNew(name: string): (g: Group)
    ensures g.name == name && g.entries == [] && g.decor == []
    ensures RenderGroup(g) == "[" + name + "]\n"
  {
    Group(name, [], [])
  }

  /** `from_entries` and `from_entries_borrowed` (crate-internal). */
  function GroupFromEntries(name: string, entries: Entries<EntryKey, KeyValuePair>, decor: seq<string>): (g: Group)
    ensures g.name == name && g.entries == entries && g.decor == decor
  {
    Group(name, entries, decor)
  }

  /** `Group::get` */
  function GroupGet(g: Group, key: string, locale: Option<Locale>): (r: Option<KeyValuePair>)
    ensures r.Some? <==> (key, locale) in Keys(g.entries)
    ensures r.Some? ==> exists i :: 0 <= i < |g.entries| && g.entries[i] == ((key, locale), r.value)
  {
    Get(g.entries, (key, locale))
  }

  /** `Group::insert`: an existing compound key keeps its slot and the
      replaced pair is returned; a new one is appended. */
  function GroupInsert(g: Group, kv: KeyValuePair): (r: (Group, Option<KeyValuePair>))
    ensures r.0.name == g.name && r.0.decor == g.decor
    ensures r.1 == GroupGet(g, kv.key, kv.locale)
    ensures GroupGet(r.0, kv.key, kv.locale) == Some(kv)
    ensures r.1.None? ==> r.0.entries == g.entries + [(KeyOf(kv), kv)]
    ensures r.1.Some? ==>
      var i := IndexOf(g.entries, KeyOf(kv)).value;
      r.0.entries == g.entries[i := (KeyOf(kv), kv)]
    ensures DistinctKeys(g.entries) ==> DistinctKeys(r.0.entries)
  {
    var (es, prev) := Insert(g.entries, KeyOf(kv), kv);
    GetAfterInsert(g.entries, KeyOf(kv), kv);
    (g.(entries := es), prev)
  }

  /** `Group::remove`: `shift_remove`, so the others keep their order. */
  function GroupRemove(g: Group, key: string, locale: Option<Locale>): (r: (Group, Option<KeyValuePair>))
    ensures r.0.name == g.name && r.0.decor == g.decor
    ensures r.1 == GroupGet(g, key, locale)
    ensures r.1.None? ==> r.0 == g
    ensures r.1.Some? ==>
      var i := IndexOf(g.entries, (key, locale)).value;
      r.0.entries == g.entries[..i] + g.entries[i + 1..]
    ensures forall k :: k != (key, locale) ==> Get(r.0.entries, k) == Get(g.entries, k)
  {
    var (es, prev) := ShiftRemove(g.entries, (key, locale));
    forall k | k != (key, locale) ensures Get(es, k) == Get(g.entries, k) {
      GetOtherAfterRemove(g.entries, (key, locale), k);
    }
    (g.(entries := es), prev)
  }

  /** `Display for Group`: decor lines, the `[name]` line, then every entry
      and a line feed. */
  function RenderGroup(g: Group): string
  {
    Unlines(g.decor) + "[" + g.name + "]\n" + RenderEntries(g.entries)
  }

  function RenderEntries(es: Entries<EntryKey, KeyValuePair>): string
  {
    if |es| == 0 then [] else RenderEntry(es[0].1) + "\n" + RenderEntries(es[1..])
  }

  /** The current group with the same name, decor and pairs. */
  function UpgradeEntries(es: Entries<EntryKey, KeyValuePair>): (r: Entries<Types.EntryKey, Types.KeyValuePair>)
    ensures |r| == |es|
  {
    if |es| == 0 then []
    else [((es[0].0.0, UpgradeLocaleOpt(es[0].0.1)), UpgradeKv(es[0].1))] + UpgradeEntries(es[1..])
  }

  function UpgradeGroup(g: Group): Types.Group {
    Types.Group(g.name, UpgradeEntries(g.entries), g.decor)
  }

  lemma {:induction false} RenderEntriesAgree(es: Entries<EntryKey, KeyValuePair>)
    ensures RenderEntries(es) == Types.RenderEntries(UpgradeEntries(es))
  {
    if |es| > 0 {
      RenderEntryAgrees(es[0].1);
      RenderEntriesAgree(es[1..]);
    }
  }

  /** An older group renders as the current one. */
  lemma RenderGroupAgrees(g: Group)
    ensures RenderGroup(g) == Types.RenderGroup(UpgradeGroup(g))
  {
    var u, r := Unlines(g.decor), RenderEntries(g.entries);
    var head := "[" + g.name + "]\n";
    assert RenderGroup(g) == u + head + r;
    assert Types.RenderHead(UpgradeGroup(g)) == u + head by {
      HeaderLineAgrees(u, g.name);
    }
    assert r == Types.RenderEntries(UpgradeEntries(g.entries)) by {
      RenderEntriesAgree(g.entries);
    }
  }

  /** The header line written out by hand is the current header followed
      by a line break. */
  lemma HeaderLineAgrees(u: string, name: string)
    ensures u + Types.GroupHeader(name) + "\n" == u + ("[" + name + "]\n")
  {
  }
}
