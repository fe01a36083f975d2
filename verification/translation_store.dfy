/**
  The translations stored with a page: loading them (get_translation_data),
  turning one language's hash-keyed table into a map from normalised text to
  translation (get_translation_map), and saving an edited language
  (handle_save_translations), which also prunes every other language to the
  page's current strings.
 */
module TranslationStore {
  import opened Wrappers
  import opened PhpText
  import opened PhpArray
  import opened Normalizer
  import opened Dom
  import opened Extractor
  import opened LanguageRegistry

  /** One language's stored translations: an array hash key => text, or some other value. */
  datatype LangEntry = Table(entries: seq<(string, string)>) | NotTable

  /** The post meta as stored: not an array, or an array whose parts may be missing or of the wrong type. */
  datatype StoredMeta =
    | NotArrayMeta
    | MetaArray(strings: Field<Strings>, translations: Field<seq<(string, LangEntry)>>, updated: Option<int>)

  /** The post meta once loaded: the strings table, the table per language, and the last save time. */
  datatype TranslationData = TranslationData(strings: Strings, translations: seq<(string, LangEntry)>, updated: Option<int>)

  /** The meta update_post_meta writes for the given data. */
  function Stored(data: TranslationData): StoredMeta {
    MetaArray(Arr(data.strings), Arr(data.translations), data.updated)
  }

  /** get_translation_data: a part that is missing or not an array reads as an empty array. */
  function GetTranslationData(stored: StoredMeta): (data: TranslationData)
    ensures stored.NotArrayMeta? ==> data == TranslationData([], [], None)
    ensures stored.MetaArray? ==> data.updated == stored.updated
    ensures stored.MetaArray? && !stored.strings.Arr? ==> data.strings == []
    ensures stored.MetaArray? && !stored.translations.Arr? ==> data.translations == []
  {
    match stored
    case NotArrayMeta => TranslationData([], [], None)
    case MetaArray(s, t, u) =>
      TranslationData(if s.Arr? then s.value else [], if t.Arr? then t.value else [], u)
  }

  /** Whatever is saved loads back unchanged. */
  lemma LoadAfterStore(data: TranslationData)
    ensures GetTranslationData(Stored(data)) == data
  {
  }

  /** The normalised text of a string record: the stored one, else computed from the raw text. */
  function NormalizedOf(norm: string -> string, info: StringInfo): string {
    info.normalized.GetOr(norm(info.original))
  }

  /** The normalised text a translation's hash key stands for, when the key is a known string whose text is not false. */
  function TargetOf(norm: string -> string, strings: Strings, key: string): Option<string> {
    match Get(strings, key)
    case None => None
    case Some(info) => if Falsy(NormalizedOf(norm, info)) then None else Some(NormalizedOf(norm, info))
  }

  /**
    The map after the `foreach` of get_translation_map has read the given
    translations: each one whose key is a known string is stored under that
    string's normalised text.
   */
  function MapOf(norm: string -> string, strings: Strings, entries: seq<(string, string)>): (m: map<string, string>)
    ensures forall n :: n in m ==> !Falsy(n)
    decreases |entries|
  {
    if entries == [] then map[]
    else
      var m := MapOf(norm, strings, entries[..|entries| - 1]);
      var (key, t) := entries[|entries| - 1];
      match TargetOf(norm, strings, key)
      case None => m
      case Some(n) => m[n := t]
  }

  /** A text is in the map exactly when some translation's key is a known string with that normalised text. */
  lemma {:induction false} MapKeys(norm: string -> string, strings: Strings, entries: seq<(string, string)>, n: string)
    ensures n in MapOf(norm, strings, entries) <==>
      exists i :: 0 <= i < |entries| && TargetOf(norm, strings, entries[i].0) == Some(n)
    decreases |entries|
  {
    if entries != [] {
      var init := entries[..|entries| - 1];
      MapKeys(norm, strings, init, n);
      assert forall i :: 0 <= i < |init| ==> init[i] == entries[i];
      if TargetOf(norm, strings, entries[|entries| - 1].0) == Some(n) {
        assert n in MapOf(norm, strings, entries);
      }
    }
  }

  /** A text's translation is the one of the last translation whose key stands for that text. */
  lemma {:induction false} MapLastWins(norm: string -> string, strings: Strings, entries: seq<(string, string)>, i: nat)
    requires i < |entries| && TargetOf(norm, strings, entries[i].0).Some?
    requires forall j :: i < j < |entries| ==> TargetOf(norm, strings, entries[j].0) != TargetOf(norm, strings, entries[i].0)
    ensures TargetOf(norm, strings, entries[i].0).value in MapOf(norm, strings, entries)
    ensures MapOf(norm, strings, entries)[TargetOf(norm, strings, entries[i].0).value] == entries[i].1
    decreases |entries|
  {
    var init := entries[..|entries| - 1];
    if i < |entries| - 1 {
      assert init[i] == entries[i];
      assert forall j :: i < j < |init| ==> init[j] == entries[j];
      MapLastWins(norm, strings, init, i);
    }
  }

  /** A translation whose key is not a known string is dropped: the map is as if it were absent. */
  lemma {:induction false} MapDropsUnknown(norm: string -> string, strings: Strings, a: seq<(string, string)>,
                                           k: string, t: string, b: seq<(string, string)>)
    requires !HasKey(strings, k)
    ensures MapOf(norm, strings, a + [(k, t)] + b) == MapOf(norm, strings, a + b)
    decreases |b|
  {
    if b == [] {
      assert (a + [(k, t)] + b)[..|a|] == a;
      assert a + b == a;
    } else {
      var b' := b[..|b| - 1];
      MapDropsUnknown(norm, strings, a, k, t, b');
      assert (a + [(k, t)] + b)[..|a + [(k, t)] + b| - 1] == a + [(k, t)] + b';
      assert (a + b)[..|a + b| - 1] == a + b';
      assert (a + [(k, t)] + b)[|a + [(k, t)] + b| - 1] == (a + b)[|a + b| - 1];
    }
  }

  /** The `foreach` of get_translation_map. */
  method BuildMap(norm: string -> string, strings: Strings, entries: seq<(string, string)>) returns (m: map<string, string>)
    ensures m == MapOf(norm, strings, entries)
  {
    m := map[];
    var i := 0;
    while i < |entries|
      invariant 0 <= i <= |entries|
      invariant m == MapOf(norm, strings, entries[..i])
    {
      assert entries[..i + 1][..i] == entries[..i];
      var (key, translation) := entries[i];
      var info := Get(strings, key);
      if info.Some? {
        var normalized := if info.value.normalized.Some? then info.value.normalized.value else norm(info.value.original);
        if !Falsy(normalized) {
          m := m[normalized := translation];
        }
      }
      i := i + 1;
    }
    assert entries[..|entries|] == entries;
  }

  /**
    get_translation_map for a page whose content parses to `doc`: empty unless the
    language has a non-empty table; the strings table is re-extracted from the
    content when the stored one is empty.
   */
  function TranslationMapSpec(stored: StoredMeta, language: string, content: string, doc: Option<seq<Node>>): (m: map<string, string>)
    ensures TableOf(GetTranslationData(stored), language) == [] ==> m == map[]
    ensures forall n :: n in m ==> !Falsy(n)
  {
    var data := GetTranslationData(stored);
    var es := TableOf(data, language);
    if es == [] then map[]
    else MapOf(Normalize, if data.strings == [] then ExtractStringsSpec(content, doc) else data.strings, es)
  }

  /** The language's table, or nothing when the language has none or something other than an array (`empty`). */
  function TableOf(data: TranslationData, language: string): seq<(string, string)> {
    match Get(data.translations, language)
    case Some(e) => if e.Table? then e.entries else []
    case None => []
  }

  /** get_translation_map. */
  method GetTranslationMap(stored: StoredMeta, language: string, content: string, doc: Option<array<Node>>)
    returns (m: map<string, string>)
    ensures m == TranslationMapSpec(stored, language, content, if doc.Some? then Some(doc.value[..]) else None)
  {
    var data := GetTranslationData(stored);
    var entries := TableOf(data, language);
    if entries == [] {
      return map[];
    }
    var strings := data.strings;
    if strings == [] {
      strings := ExtractStrings(content, doc);
    }
    m := BuildMap(Normalize, strings, entries);
  }

  /** Why handle_save_translations stops with `wp_die`. */
  datatype SaveError = NoPermission | MissingData | BadNonce | InvalidPage | DefaultLanguage | UnknownLanguage

  /** A post as get_post returns it. */
  datatype Post = Post(postType: string, content: string)

  /** The end of handle_save_translations: stopped, or the data written for the post. */
  datatype SaveOutcome = Died(error: SaveError) | Saved(postId: nat, data: TranslationData)

  /** `absint`. */
  function Absint(x: int): (r: nat)
    ensures r == x || r == -x
  {
    if x < 0 then -x else x
  }

  /** What the prune `foreach` leaves for one language: non-arrays become empty, other languages keep only current keys. */
  function Pruned(code: string, entry: LangEntry, language: string, strings: Strings): LangEntry {
    match entry
    case NotTable => Table([])
    case Table(es) => if code == language then entry else Table(IntersectKeys(es, strings))
  }

  /** The table per language after the prune `foreach`. */
  function PruneAll(translations: seq<(string, LangEntry)>, language: string, strings: Strings): (r: seq<(string, LangEntry)>)
    ensures |r| == |translations|
    ensures forall i :: 0 <= i < |r| ==> r[i] == (translations[i].0, Pruned(translations[i].0, translations[i].1, language, strings))
    ensures forall i :: 0 <= i < |r| ==> r[i].0 == translations[i].0
    ensures forall i :: 0 <= i < |r| && translations[i].1.NotTable? ==> r[i].1 == Table([])
    ensures forall i :: 0 <= i < |r| && translations[i].1.Table? && translations[i].0 == language ==>
      r[i].1 == translations[i].1
    ensures forall i :: 0 <= i < |r| && translations[i].1.Table? && translations[i].0 != language ==>
      r[i].1 == Table(IntersectKeys(translations[i].1.entries, strings))
  {
    seq(|translations|, i requires 0 <= i < |translations| =>
      (translations[i].0, Pruned(translations[i].0, translations[i].1, language, strings)))
  }

  /** Pruning keeps every language where it was and prunes the table found under it. */
  lemma {:induction false} GetPruneAll(translations: seq<(string, LangEntry)>, language: string, strings: Strings, code: string)
    ensures Get(PruneAll(translations, language, strings), code) ==
      match Get(translations, code)
      case None => None
      case Some(e) => Some(Pruned(code, e, language, strings))
  {
    if translations != [] {
      var r := PruneAll(translations, language, strings);
      assert r[1..] == PruneAll(translations[1..], language, strings);
      GetPruneAll(translations[1..], language, strings, code);
    }
  }

  /** The value submitted for a key after `wp_unslash` and `wp_kses_post`; '' when none was. */
  function SubmittedValue(input: seq<(string, string)>, key: string, san: Sanitizers): string {
    match Get(input, key)
    case None => ""
    case Some(v) => san.kses(san.unslash(v))
  }

  /** The table built by the `foreach` over the strings: each key's submitted value, when not empty. */
  function Submitted(strings: Strings, input: seq<(string, string)>, san: Sanitizers): (r: seq<(string, string)>)
    ensures UniqueKeys(r)
    decreases |strings|
  {
    if strings == [] then []
    else
      var r := Submitted(strings[..|strings| - 1], input, san);
      var key := strings[|strings| - 1].0;
      var value := SubmittedValue(input, key, san);
      PutKeepsKeysUnique(r, key, value);
      if value != "" then Put(r, key, value) else r
  }

  /** The new table holds, for exactly the current string keys with a non-empty submitted value, that value. */
  lemma {:induction false} SubmittedExact(strings: Strings, input: seq<(string, string)>, san: Sanitizers, k: string)
    ensures Get(Submitted(strings, input, san), k) ==
      if HasKey(strings, k) && SubmittedValue(input, k, san) != "" then Some(SubmittedValue(input, k, san)) else None
    decreases |strings|
  {
    if strings != [] {
      var init := strings[..|strings| - 1];
      SubmittedExact(init, input, san, k);
      assert forall i :: 0 <= i < |init| ==> init[i] == strings[i];
      var key := strings[|strings| - 1].0;
      assert HasKey(strings, k) <==> HasKey(init, k) || key == k;
      var r := Submitted(init, input, san);
      if key != k && SubmittedValue(input, key, san) != "" {
        PutOthers(r, key, SubmittedValue(input, key, san), k);
      }
    }
  }

  /**
    Read back through get_translation_map, a table just saved for a strings table
    as the extractor builds it maps each string's normalised text to the value
    submitted for it, unless that text is one PHP reads as false.
   */
  lemma SavedTranslationsApply(norm: string -> string, strings: Strings, input: seq<(string, string)>, san: Sanitizers, j: nat)
    requires UniqueKeys(strings) && forall i :: 0 <= i < |strings| ==> WellFormed(norm, strings[i])
    requires j < |strings| && !Falsy(strings[j].0) && SubmittedValue(input, strings[j].0, san) != ""
    ensures var m := MapOf(norm, strings, Submitted(strings, input, san));
      norm(strings[j].1.original) in m && m[norm(strings[j].1.original)] == SubmittedValue(input, strings[j].0, san)
  {
    var key := strings[j].0;
    var table := Submitted(strings, input, san);
    assert WellFormed(norm, strings[j]);
    GetAt(strings, j);
    assert TargetOf(norm, strings, key) == Some(key);
    SubmittedExact(strings, input, san, key);
    var i :| 0 <= i < |table| && table[i].0 == key;
    GetAt(table, i);
    forall h | i < h < |table| ensures TargetOf(norm, strings, table[h].0) != Some(key) {
      var g := Get(strings, table[h].0);
      if g.Some? {
        var p :| 0 <= p < |strings| && strings[p].0 == table[h].0;
        GetAt(strings, p);
        assert WellFormed(norm, strings[p]);
      }
    }
    MapLastWins(norm, strings, table, i);
  }

  /** The data handle_save_translations writes once every check has passed. */
  function StoreTranslations(data: TranslationData, language: string, strings: Strings,
                             input: seq<(string, string)>, now: int, san: Sanitizers): TranslationData
  {
    var pruned := if data.translations == [] then data.translations else PruneAll(data.translations, language, strings);
    TranslationData(strings, Put(pruned, language, Table(Submitted(strings, input, san))), Some(now))
  }

  /** After a save the edited language's table holds exactly the non-empty submitted values for the current string keys. */
  lemma EditedLanguageExact(data: TranslationData, language: string, strings: Strings,
                            input: seq<(string, string)>, now: int, san: Sanitizers, k: string)
    ensures var saved := StoreTranslations(data, language, strings, input, now, san);
      Get(saved.translations, language).Some? && Get(saved.translations, language).value.Table? &&
      Get(Get(saved.translations, language).value.entries, k) ==
        if HasKey(strings, k) && SubmittedValue(input, k, san) != "" then Some(SubmittedValue(input, k, san)) else None
  {
    SubmittedExact(strings, input, san, k);
  }

  /**
    After a save every other language is still present and holds a table: empty
    when it held something other than an array, else its old translations for the
    current string keys only.
   */
  lemma OthersRestricted(data: TranslationData, language: string, strings: Strings,
                         input: seq<(string, string)>, now: int, san: Sanitizers, code: string, k: string)
    requires code != language && HasKey(data.translations, code)
    ensures var saved := StoreTranslations(data, language, strings, input, now, san);
      var before := Get(data.translations, code).value;
      Get(saved.translations, code).Some? && Get(saved.translations, code).value.Table? &&
      (before.NotTable? ==> Get(saved.translations, code).value.entries == []) &&
      (before.Table? ==>
        Get(Get(saved.translations, code).value.entries, k) == if HasKey(strings, k) then Get(before.entries, k) else None)
  {
    var pruned := PruneAll(data.translations, language, strings);
    GetPruneAll(data.translations, language, strings, code);
    PutOthers(pruned, language, Table(Submitted(strings, input, san)), code);
  }

  /** A save keeps every language the data had, in order, and adds the edited one at the end when it is new. */
  lemma SaveKeepsLanguages(data: TranslationData, language: string, strings: Strings,
                           input: seq<(string, string)>, now: int, san: Sanitizers)
    ensures var saved := StoreTranslations(data, language, strings, input, now, san);
      KeysOf(saved.translations) ==
        KeysOf(data.translations) + (if HasKey(data.translations, language) then [] else [language])
  {
    var pruned := if data.translations == [] then data.translations else PruneAll(data.translations, language, strings);
    assert KeysOf(pruned) == KeysOf(data.translations);
    assert HasKey(pruned, language) == HasKey(data.translations, language) by {
      if HasKey(data.translations, language) {
        var i :| 0 <= i < |data.translations| && data.translations[i].0 == language;
        assert KeysOf(pruned)[i] == language;
      }
      if HasKey(pruned, language) {
        var i :| 0 <= i < |pruned| && pruned[i].0 == language;
        assert KeysOf(data.translations)[i] == language;
      }
    }
  }

  /** `absint($_POST['ktl_post_id'])`, or 0 when the field is not set. */
  function RequestPostId(rawPostId: Option<int>): nat
  {
    if rawPostId.Some? then Absint(rawPostId.value) else 0
  }

  /** `sanitize_key(wp_unslash($_POST['ktl_language']))`, or "" when the field is not set. */
  function RequestLanguage(rawLanguage: Option<string>, san: Sanitizers): string
  {
    if rawLanguage.Some? then SanitizeKey(san.unslash(rawLanguage.value)) else ""
  }

  /** The request names a post and a language: neither `!$post_id` nor `!$language` holds. */
  predicate HasRequiredData(rawPostId: Option<int>, rawLanguage: Option<string>, san: Sanitizers) {
    RequestPostId(rawPostId) != 0 && !Falsy(RequestLanguage(rawLanguage, san))
  }

  /** get_post found a post and it is a page. */
  predicate IsPage(post: Option<Post>) {
    post.Some? && post.value.postType == "page"
  }

  /** handle_save_translations on its request, as a function (`doc` is the parse of the page's content). */
  function SaveTranslationsSpec(canManage: bool, rawPostId: Option<int>, rawLanguage: Option<string>, nonceValid: bool,
                                post: Option<Post>, doc: Option<seq<Node>>, stored: StoredMeta,
                                languages: StoredLanguages, locale: string, input: Option<seq<(string, string)>>,
                                now: int, san: Sanitizers): (out: SaveOutcome)
    ensures out.Saved? ==>
      canManage && nonceValid && rawLanguage.Some? && out.postId != 0 &&
      post.Some? && post.value.postType == "page" && out.data.updated == Some(now)
    ensures out.Saved? ==>
      var language := SanitizeKey(san.unslash(rawLanguage.value));
      var settings := LanguageSettingsSpec(languages, locale, san);
      !Falsy(language) && language != settings.defaultCode && HasKey(settings.languages, language)
    ensures !canManage ==> out == Died(NoPermission)
    ensures canManage && !HasRequiredData(rawPostId, rawLanguage, san) ==> out == Died(MissingData)
    ensures canManage && HasRequiredData(rawPostId, rawLanguage, san) && !nonceValid ==> out == Died(BadNonce)
    ensures canManage && HasRequiredData(rawPostId, rawLanguage, san) && nonceValid && !IsPage(post) ==>
      out == Died(InvalidPage)
    ensures canManage && HasRequiredData(rawPostId, rawLanguage, san) && nonceValid && IsPage(post) ==>
      var language := RequestLanguage(rawLanguage, san);
      var settings := LanguageSettingsSpec(languages, locale, san);
      out == if language == settings.defaultCode then Died(DefaultLanguage)
             else if !HasKey(settings.languages, language) then Died(UnknownLanguage)
             else Saved(RequestPostId(rawPostId),
                        StoreTranslations(GetTranslationData(stored), language, ExtractStringsSpec(post.value.content, doc),
                                          input.GetOr([]), now, san))
  {
    var postId := RequestPostId(rawPostId);
    var language := RequestLanguage(rawLanguage, san);
    var settings := LanguageSettingsSpec(languages, locale, san);
    if !canManage then Died(NoPermission)
    else if postId == 0 || Falsy(language) then Died(MissingData)
    else if !nonceValid then Died(BadNonce)
    else if post.None? || post.value.postType != "page" then Died(InvalidPage)
    else if language == settings.defaultCode then Died(DefaultLanguage)
    else if !HasKey(settings.languages, language) then Died(UnknownLanguage)
    else
      Saved(postId, StoreTranslations(GetTranslationData(stored), language, ExtractStringsSpec(post.value.content, doc),
                                      input.GetOr([]), now, san))
  }

  /** handle_save_translations, with its prune `foreach` and the `foreach` that collects the submitted values. */
  method SaveTranslations(canManage: bool, rawPostId: Option<int>, rawLanguage: Option<string>, nonceValid: bool,
                          post: Option<Post>, doc: Option<array<Node>>, stored: StoredMeta,
                          languages: StoredLanguages, locale: string, input: Option<seq<(string, string)>>,
                          now: int, san: Sanitizers) returns (out: SaveOutcome)
    ensures out == SaveTranslationsSpec(canManage, rawPostId, rawLanguage, nonceValid, post,
                                        if doc.Some? then Some(doc.value[..]) else None,
                                        stored, languages, locale, input, now, san)
  {
    if !canManage {
      return Died(NoPermission);
    }
    var postId := RequestPostId(rawPostId);
    var language := RequestLanguage(rawLanguage, san);
    if postId == 0 || Falsy(language) {
      return Died(MissingData);
    }
    if !nonceValid {
      return Died(BadNonce);
    }
    if post.None? || post.value.postType != "page" {
      return Died(InvalidPage);
    }
    var settings := GetLanguageSettings(languages, locale, san);
    if language == settings.defaultCode {
      return Died(DefaultLanguage);
    }
    if !HasKey(settings.languages, language) {
      return Died(UnknownLanguage);
    }
    var strings := ExtractStrings(post.value.content, doc);
    var data := GetTranslationData(stored);
    var translations := PruneTranslations(data.translations, language, strings);
    var submitted := CollectSubmitted(strings, input.GetOr([]), san);
    translations := Put(translations, language, Table(submitted));
    out := Saved(postId, TranslationData(strings, translations, Some(now)));
  }

  /** The prune `foreach`: each language's entry is replaced where it stands. */
  method PruneTranslations(translations: seq<(string, LangEntry)>, language: string, strings: Strings)
    returns (r: seq<(string, LangEntry)>)
    ensures r == if translations == [] then translations else PruneAll(translations, language, strings)
  {
    r := translations;
    if translations == [] {
      return;
    }
    var i := 0;
    while i < |translations|
      invariant 0 <= i <= |translations| == |r|
      invariant forall j :: 0 <= j < i ==> r[j] == (translations[j].0, Pruned(translations[j].0, translations[j].1, language, strings))
      invariant forall j :: i <= j < |r| ==> r[j] == translations[j]
    {
      var (code, entry) := translations[i];
      if entry.NotTable? {
        r := r[i := (code, Table([]))];
      } else if code != language {
        r := r[i := (code, Table(IntersectKeys(entry.entries, strings)))];
      }
      i := i + 1;
    }
    assert r == PruneAll(translations, language, strings);
  }

  /** The `foreach` over the strings that collects the non-empty submitted values. */
  method CollectSubmitted(strings: Strings, input: seq<(string, string)>, san: Sanitizers) returns (r: seq<(string, string)>)
    ensures r == Submitted(strings, input, san)
  {
    r := [];
    var i := 0;
    while i < |strings|
      invariant 0 <= i <= |strings|
      invariant r == Submitted(strings[..i], input, san)
    {
      assert strings[..i + 1][..i] == strings[..i];
      var key := strings[i].0;
      var raw := Get(input, key);
      var value := if raw.Some? then san.kses(san.unslash(raw.value)) else "";
      if value != "" {
        r := Put(r, key, value);
      }
      i := i + 1;
    }
    assert strings[..|strings|] == strings;
  }
}
