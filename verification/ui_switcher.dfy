/**
  The client-side switcher of the page-preview plugin: each container shows one
  page in an iframe, in one of the languages its page is available in, with a
  button per language. The container's state is an object updated in place by
  its handlers; the preference store is one object shared by every container.
 */
module UiSwitcher {
  import opened Wrappers
  import opened PhpText

  /** getQueryLang: the `lang` query parameter lower-cased when it is "en" or "es", else "". */
  function GetQueryLang(param: Option<string>): (lang: string)
    ensures lang == "" || lang == "en" || lang == "es"
    ensures lang != "" <==> param.Some? && (Lower(param.value) == "en" || Lower(param.value) == "es")
    ensures lang != "" ==> lang == Lower(param.value)
  {
    var l := Lower(param.GetOr(""));
    if l == "en" || l == "es" then l else ""
  }

  /** The query parameter is read without regard to case. */
  lemma QueryLangIgnoresCase(param: string)
    ensures GetQueryLang(Some(Upper(param))) == GetQueryLang(Some(param))
  {
    LowerOfUpper(param);
  }

  /** `available[lang]` is truthy: the page has a non-empty URL for the language. */
  predicate Available(available: map<string, string>, lang: string) {
    lang in available && available[lang] != ""
  }

  /** `iframe.src = available[lang]`; None stands for `undefined`. */
  function UrlOf(available: map<string, string>, lang: string): (url: Option<string>)
    ensures url.Some? <==> lang in available
    ensures Available(available, lang) ==> url == Some(available[lang]) && url.value != ""
  {
    if lang in available then Some(available[lang]) else None
  }

  /**
    The language a container starts in: the query language if the page has it,
    else the stored preference for the page if the page has it, else "es" when
    the container's default is "es", else "en"; and "en" whenever the chosen one
    is not available.
   */
  function InitialLanguage(queryLang: string, stored: Option<string>, defaultLang: Option<string>,
                           available: map<string, string>): (current: string)
    ensures Available(available, current) || current == "en"
    ensures QueryUsable(queryLang, available) ==> current == queryLang
    ensures !QueryUsable(queryLang, available) && StoredUsable(stored, available) ==> current == stored.value
    ensures !QueryUsable(queryLang, available) && !StoredUsable(stored, available) ==>
      current == if defaultLang == Some("es") && Available(available, "es") then "es" else "en"
  {
    var fromQuery := if QueryUsable(queryLang, available) then queryLang else "";
    var fromStore := if fromQuery == "" && StoredUsable(stored, available) then stored.value else fromQuery;
    var chosen := if fromStore == "" then (if defaultLang == Some("es") then "es" else "en") else fromStore;
    if Available(available, chosen) then chosen else "en"
  }

  /** `queryLang && available[queryLang]`. */
  predicate QueryUsable(queryLang: string, available: map<string, string>) {
    queryLang != "" && Available(available, queryLang)
  }

  /** `stored && available[stored]`. */
  predicate StoredUsable(stored: Option<string>, available: map<string, string>) {
    stored.Some? && stored.value != "" && Available(available, stored.value)
  }

  /** One `[data-lang]` button: its language, its `is-active` class and its `aria-pressed` attribute. */
  datatype Button = Button(lang: string, active: bool, ariaPressed: string)

  /** The stored preferences, page slug => language, shared by every container on the page. */
  class Prefs {
    var entries: map<string, string>

    constructor (entries: map<string, string>)
      ensures this.entries == entries
    {
      this.entries := entries;
    }
  }

  /** One `.ui-lang-switcher` container. */
  class Switcher {
    const slug: string
    const available: map<string, string>
    const baseTitle: string
    const buttons: array<Button>
    const prefs: Prefs
    var current: string
    var title: string
    var src: Option<string>

    /** After syncButtons(lang): a button is active, and pressed, exactly when its language is `lang`. */
    predicate Synced(lang: string)
      reads buttons
    {
      forall i :: 0 <= i < buttons.Length ==>
        buttons[i].active == (buttons[i].lang == lang) &&
        buttons[i].ariaPressed == (if buttons[i].lang == lang then "true" else "false")
    }

    /**
      The title applyTitle(lang) sets when there is a base title: the base title
      followed by the language in parentheses, upper-cased, so that it reads back
      as the language up to case and holds no lower-case letter.
     */
    function TitleFor(lang: string): (t: string)
      ensures |t| == |baseTitle| + |lang| + 3
      ensures t[..|baseTitle|] == baseTitle && t[|baseTitle|..|baseTitle| + 2] == " (" && t[|t| - 1] == ')'
      ensures Lower(t[|baseTitle| + 2..|t| - 1]) == Lower(lang)
      ensures forall k :: |baseTitle| + 2 <= k < |t| - 1 ==> !('a' <= t[k] <= 'z')
    {
      var t := baseTitle + " (" + Upper(lang) + ")";
      assert t[|baseTitle| + 2..|t| - 1] == Upper(lang);
      LowerOfUpper(lang);
      t
    }

    /**
      What every handler keeps: the current language is available or "en", the
      buttons, the title and the iframe all show it.
     */
    predicate Valid()
      reads this, buttons
    {
      (Available(available, current) || current == "en") &&
      Synced(current) &&
      (baseTitle != "" ==> title == TitleFor(current)) &&
      src == UrlOf(available, current)
    }

    /**
      The initial load of a container that has a page slug and at least one
      button: the starting language is shown and recorded as the page's
      preference.
     */
    constructor (slug: string, available: map<string, string>, titleBase: string, initialTitle: string,
                 buttons: array<Button>, prefs: Prefs, queryLang: string, defaultLang: Option<string>)
      requires slug != "" && buttons.Length > 0
      modifies buttons, prefs
      ensures this.slug == slug && this.available == available && this.buttons == buttons && this.prefs == prefs
      ensures baseTitle == if titleBase != "" then titleBase else initialTitle
      ensures baseTitle == "" ==> title == initialTitle
      ensures current == InitialLanguage(queryLang,
                                         if slug in old(prefs.entries) then Some(old(prefs.entries)[slug]) else None,
                                         defaultLang, available)
      ensures prefs.entries == old(prefs.entries)[slug := current]
      ensures forall i :: 0 <= i < buttons.Length ==> buttons[i].lang == old(buttons[i].lang)
      ensures Valid()
    {
      this.slug := slug;
      this.available := available;
      this.baseTitle := if titleBase != "" then titleBase else initialTitle;
      this.buttons := buttons;
      this.prefs := prefs;
      var stored := if slug in prefs.entries then Some(prefs.entries[slug]) else None;
      this.current := InitialLanguage(queryLang, stored, defaultLang, available);
      this.title := initialTitle;
      this.src := None;
      new;
      ApplyTitle(current);
      SyncButtons(current);
      prefs.entries := prefs.entries[slug := current];
      src := UrlOf(available, current);
    }

    /** applyTitle: the base title with the upper-cased language, or nothing when there is no base title. */
    method ApplyTitle(lang: string)
      modifies this
      ensures baseTitle != "" ==> title == TitleFor(lang)
      ensures baseTitle == "" ==> title == old(title)
      ensures current == old(current) && src == old(src)
    {
      if baseTitle == "" {
        return;
      }
      title := TitleFor(lang);
    }

    /** syncButtons: every button's state set from whether its language is `lang`. */
    method SyncButtons(lang: string)
      modifies buttons
      ensures Synced(lang)
      ensures forall i :: 0 <= i < buttons.Length ==> buttons[i].lang == old(buttons[i].lang)
    {
      var i := 0;
      while i < buttons.Length
        invariant 0 <= i <= buttons.Length
        invariant forall j :: 0 <= j < buttons.Length ==> buttons[j].lang == old(buttons[j].lang)
        invariant forall j :: 0 <= j < i ==>
          buttons[j].active == (buttons[j].lang == lang) &&
          buttons[j].ariaPressed == (if buttons[j].lang == lang then "true" else "false")
      {
        var isActive := buttons[i].lang == lang;
        buttons[i] := buttons[i].(active := isActive, ariaPressed := if isActive then "true" else "false");
        i := i + 1;
      }
    }

    /**
      setLanguage: nothing happens for an unavailable language or the current one;
      otherwise the container switches to it and the page's preference becomes it,
      every other page's preference staying as it was.
     */
    method SetLanguage(lang: string)
      requires Valid()
      modifies this, buttons, prefs
      ensures Valid()
      ensures forall i :: 0 <= i < buttons.Length ==> buttons[i].lang == old(buttons[i].lang)
      ensures !Available(available, lang) || lang == old(current) ==>
        current == old(current) && title == old(title) && src == old(src) &&
        prefs.entries == old(prefs.entries) && buttons[..] == old(buttons[..])
      ensures Available(available, lang) && lang != old(current) ==>
        current == lang && src == Some(available[lang]) && prefs.entries == old(prefs.entries)[slug := lang]
      ensures baseTitle == "" ==> title == old(title)
    {
      if !Available(available, lang) || lang == current {
        return;
      }
      current := lang;
      ApplyTitle(lang);
      src := UrlOf(available, lang);
      SyncButtons(lang);
      prefs.entries := prefs.entries[slug := lang];
    }
  }
}
