/**
  The per-page language switcher: the meta box's save decision (save_meta_box,
  with prepare_spanish_content) and the switcher rendered around the page
  content (inject_language_switcher). Saving yields an outcome value standing
  for the post-meta write it performs.
 */
module MetaBoxSwitcher {
  import opened Wrappers
  import opened PhpText

  /** The submitted `kls_switcher` fields; None for a field that is absent. */
  datatype RawForm = RawForm(
    enabled: Option<string>,
    defaultLanguage: Option<string>,
    englishLabel: Option<string>,
    spanishLabel: Option<string>,
    spanishContent: Option<string>)

  /** The meta stored for a page. `defaultLanguage` is None when the form lacked the field. */
  datatype MetaData = MetaData(
    enabled: bool,
    defaultLanguage: Option<string>,
    englishLabel: string,
    spanishLabel: string,
    spanishContent: string)

  /** What save_meta_box does to the page's meta. */
  datatype SaveOutcome = NoChange | DeleteMeta | UpdateMeta(data: MetaData)

  /** The two languages the switcher offers. */
  predicate IsSwitcherLanguage(code: string) {
    code == "en" || code == "es"
  }

  /** `!$raw`: the form is absent or is an empty array. */
  predicate FormEmpty(raw: Option<RawForm>) {
    raw.None? || raw.value == RawForm(None, None, None, None, None)
  }

  /** `empty()` of an optional field: absent, or a value PHP reads as false. */
  predicate EmptyField(f: Option<string>) {
    f.None? || Falsy(f.value)
  }

  /** prepare_spanish_content: unslashed, then kept verbatim for users with unfiltered_html, else passed through `wp_kses_post`. */
  function PrepareSpanishContent(content: string, unfilteredHtml: bool, san: Sanitizers): (r: string)
    ensures unfilteredHtml ==> r == san.unslash(content)
    ensures !unfilteredHtml ==> r == san.kses(san.unslash(content))
  {
    var c := san.unslash(content);
    if unfilteredHtml then c else san.kses(c)
  }

  /**
    The stored default language: the submitted one when it is exactly "en" or
    "es", else "en" - except that an absent field passes the check through its
    "en" fallback and is then stored as absent.
   */
  function StoredDefault(submitted: Option<string>): (d: Option<string>)
    ensures d.Some? ==> IsSwitcherLanguage(d.value)
    ensures d.None? <==> submitted.None?
    ensures submitted.Some? && IsSwitcherLanguage(submitted.value) ==> d == submitted
    ensures submitted.Some? && !IsSwitcherLanguage(submitted.value) ==> d == Some("en")
  {
    if IsSwitcherLanguage(submitted.GetOr("en")) then submitted else Some("en")
  }

  /** save_meta_box for a page; `nonceOk` stands for the nonce being present and valid. */
  function SaveMetaBox(nonceOk: bool, autosave: bool, canEdit: bool, raw: Option<RawForm>,
                       unfilteredHtml: bool, san: Sanitizers): (out: SaveOutcome)
    ensures !nonceOk || autosave || !canEdit ==> out == NoChange
    ensures nonceOk && !autosave && canEdit && FormEmpty(raw) ==> out == DeleteMeta
    ensures nonceOk && !autosave && canEdit && !FormEmpty(raw) ==> out != NoChange
    ensures out.UpdateMeta? ==> out.data.enabled && !Falsy(out.data.spanishContent)
    ensures out.UpdateMeta? ==> out.data.defaultLanguage == StoredDefault(raw.value.defaultLanguage)
    ensures nonceOk && !autosave && canEdit && raw.Some? && EmptyField(raw.value.enabled) ==> out == DeleteMeta
    ensures nonceOk && !autosave && canEdit && !FormEmpty(raw) ==>
      (out.UpdateMeta? <==>
        !EmptyField(raw.value.enabled) &&
        !Falsy(PrepareSpanishContent(raw.value.spanishContent.GetOr(""), unfilteredHtml, san)))
    ensures out.UpdateMeta? ==>
      out.data.spanishContent == PrepareSpanishContent(raw.value.spanishContent.GetOr(""), unfilteredHtml, san) &&
      out.data.englishLabel == san.textField(raw.value.englishLabel.GetOr("English")) &&
      out.data.spanishLabel == san.textField(raw.value.spanishLabel.GetOr("Espa\U{F1}ol"))
  {
    if !nonceOk || autosave || !canEdit then NoChange
    else if FormEmpty(raw) then DeleteMeta
    else
      var f := raw.value;
      var enabled := !EmptyField(f.enabled);
      var content := PrepareSpanishContent(f.spanishContent.GetOr(""), unfilteredHtml, san);
      var data := MetaData(
        enabled,
        StoredDefault(f.defaultLanguage),
        san.textField(f.englishLabel.GetOr("English")),
        san.textField(f.spanishLabel.GetOr("Espa\U{F1}ol")),
        if enabled then content else "");
      if !data.enabled || Falsy(data.spanishContent) then DeleteMeta else UpdateMeta(data)
  }

  /** What inject_language_switcher returns: the content as it was, or the switcher around both versions. */
  datatype Rendered =
    | Unchanged(content: string)
    | Switcher(defaultLanguage: string, englishActive: bool, spanishActive: bool,
               englishLabel: string, spanishLabel: string, englishPanel: string, spanishPanel: string)

  /**
    inject_language_switcher: the content unchanged outside the main page loop or
    when no Spanish content is stored; otherwise both panels, with the default
    clamped to "en" or "es" and exactly its button and panel active.
   */
  function InjectLanguageSwitcher(content: string, mainPageLoop: bool, meta: Option<MetaData>): (r: Rendered)
    ensures !mainPageLoop || meta.None? || Falsy(meta.value.spanishContent) ==> r == Unchanged(content)
    ensures r.Switcher? ==> IsSwitcherLanguage(r.defaultLanguage)
    ensures r.Switcher? ==> r.englishActive != r.spanishActive
    ensures r.Switcher? ==> (r.englishActive <==> r.defaultLanguage == "en")
    ensures mainPageLoop && meta.Some? && !Falsy(meta.value.spanishContent) ==> r.Switcher?
    ensures r.Switcher? ==>
      r.defaultLanguage == (if IsSwitcherLanguage(meta.value.defaultLanguage.GetOr("en"))
                            then meta.value.defaultLanguage.GetOr("en") else "en")
    ensures r.Switcher? ==> r.englishPanel == content && r.spanishPanel == meta.value.spanishContent
    ensures r.Switcher? ==> r.englishLabel == meta.value.englishLabel && r.spanishLabel == meta.value.spanishLabel
  {
    if !mainPageLoop || meta.None? || Falsy(meta.value.spanishContent) then Unchanged(content)
    else
      var s := meta.value;
      var d := s.defaultLanguage.GetOr("en");
      var default := if IsSwitcherLanguage(d) then d else "en";
      Switcher(default, default == "en", default == "es", s.englishLabel, s.spanishLabel, content, s.spanishContent)
  }

  /**
    A saved switcher renders on its page, opening in Spanish exactly when "es" was
    submitted as the default, and showing the saved Spanish content.
   */
  lemma SaveThenRender(nonceOk: bool, autosave: bool, canEdit: bool, raw: Option<RawForm>,
                       unfilteredHtml: bool, san: Sanitizers, content: string)
    requires SaveMetaBox(nonceOk, autosave, canEdit, raw, unfilteredHtml, san).UpdateMeta?
    ensures var data := SaveMetaBox(nonceOk, autosave, canEdit, raw, unfilteredHtml, san).data;
      var r := InjectLanguageSwitcher(content, true, Some(data));
      r.Switcher? &&
      (r.defaultLanguage == "es" <==> raw.value.defaultLanguage == Some("es")) &&
      r.spanishPanel == PrepareSpanishContent(raw.value.spanishContent.GetOr(""), unfilteredHtml, san)
  {
    var data := SaveMetaBox(nonceOk, autosave, canEdit, raw, unfilteredHtml, san).data;
    assert data.defaultLanguage == StoredDefault(raw.value.defaultLanguage);
  }
}
