/**
  The language registry of the translation plugin: parsing the admin's language
  list (handle_save_languages), cleaning the stored settings
  (get_language_settings), the visitor's current language, and the labels shown
  in the language menu.
 */
module LanguageRegistry {
  import opened Wrappers
  import opened PhpText
  import opened SeqFacts
  import opened PhpArray

  /** Settings as the plugin uses them: the default code and the list code => label. */
  datatype LanguageSettings = LanguageSettings(defaultCode: string, languages: seq<(string, string)>)

  /** The built-in list used when nothing usable is stored. */
  const DefaultLanguages: seq<(string, string)> := [("en", "English"), ("es", "Espa\U{F1}ol")]

  /** The labels label_from_code knows. */
  const KnownLabels: seq<(string, string)> :=
    [("en", "English"), ("es", "Espa\U{F1}ol"), ("fr", "Fran\U{E7}ais"), ("de", "Deutsch"), ("it", "Italiano")]

  /** A language code as sanitize_key leaves it, and not one PHP reads as false. */
  predicate ValidCode(code: string) {
    !Falsy(code) && forall i :: 0 <= i < |code| ==> IsKeyChar(code[i])
  }

  /** What get_language_settings guarantees its callers. */
  predicate ValidSettings(s: LanguageSettings) {
    s.languages != [] && UniqueKeys(s.languages) && HasKey(s.languages, s.defaultCode) &&
    forall i :: 0 <= i < |s.languages| ==> ValidCode(s.languages[i].0)
  }

  /** infer_default_language: the lower-cased first two characters of the locale, else "en". */
  function InferDefaultLanguage(locale: string): (code: string)
    ensures !Falsy(code)
    ensures code == "en" || (|code| <= 2 && |code| <= |locale| && code == Lower(locale[..|code|]))
    ensures var p := Lower(locale[..if |locale| < 2 then |locale| else 2]);
      code == if Falsy(p) then "en" else p
  {
    if Falsy(locale) then "en"
    else
      var c := Lower(locale[..if |locale| < 2 then |locale| else 2]);
      if Falsy(c) then "en" else c
  }

  /** label_from_code: the known name of a code, compared lower-cased, else the code upper-cased. */
  function LabelFromCode(code: string): (name: string)
    ensures HasKey(KnownLabels, Lower(code)) ==> Get(KnownLabels, Lower(code)) == Some(name)
    ensures !HasKey(KnownLabels, Lower(code)) ==> name == Upper(Lower(code))
    ensures code != [] ==> name != []
  {
    match FindKey(KnownLabels, Lower(code))
    case Some(i) =>
      KnownLabelsNamed();
      KnownLabels[i].1
    case None => Upper(Lower(code))
  }

  /** Every known label is a non-empty name. */
  lemma KnownLabelsNamed()
    ensures forall i :: 0 <= i < |KnownLabels| ==> KnownLabels[i].1 != []
  {
  }

  /** label_from_code does not depend on the case of the code. */
  lemma LabelFromCodeIgnoresCase(code: string)
    ensures LabelFromCode(Upper(code)) == LabelFromCode(code)
  {
    LowerOfUpper(code);
  }

  /** The raw code and raw label of one trimmed line, before sanitising. */
  function SplitLine(line: string): (string, string) {
    match IndexOf(line, '|')
    case Some(p) => (Trim(line[..p]), Trim(line[p + 1..]))
    case None =>
      match FirstIn(line, PcreAsciiSpace)
      case None => (Trim(line), Upper(Trim(line)))
      case Some(p) => (Trim(line[..p]), Trim(TrimLeft(line[p..], PcreAsciiSpace)))
  }

  /**
    One `$languages[$code] = ...` step of both list loops: the sanitised code, and
    the sanitised label or, when the label is false, the upper-cased code; nothing
    when the code sanitises to a false value.
   */
  function Entry(rawCode: string, rawLabel: string, san: Sanitizers): (r: Option<(string, string)>)
    ensures r.Some? ==> ValidCode(r.value.0) && r.value.0 == SanitizeKey(rawCode)
    ensures r.None? <==> Falsy(SanitizeKey(rawCode))
  {
    var code := SanitizeKey(rawCode);
    if Falsy(code) then None
    else Some((code, if Falsy(rawLabel) then Upper(code) else san.textField(rawLabel)))
  }

  /** One line of the list: its code and label, or nothing when the code sanitises to a false value. */
  function ParseLine(line: string, san: Sanitizers): Option<(string, string)> {
    Entry(SplitLine(line).0, SplitLine(line).1, san)
  }

  /**
    A line written as the overview shows it, `code | label`, parses back to that
    code and the sanitised label.
   */
  lemma ParseFormattedLine(code: string, name: string, san: Sanitizers)
    requires ValidCode(code)
    requires name == Trim(name) && !Falsy(name)
    ensures ParseLine(code + " | " + name, san) == Some((code, san.textField(name)))
  {
    FormattedLineSplits(code, name);
  }

  /** A line holding only a code parses to that code, labelled with the code upper-cased. */
  lemma ParseBareCode(code: string, san: Sanitizers)
    requires ValidCode(code)
    ensures ParseLine(code, san) == Some((code, san.textField(Upper(code))))
  {
    KeyCharsSolid(code);
    TrimSolidEnds(code);
    assert !Falsy(Upper(code)) by {
      if |code| == 1 {
        assert IsKeyChar(code[0]) && code[0] != '0';
        assert Upper(code)[0] == UpperChar(code[0]) != '0';
      }
    }
  }

  /** A line `code label` without a bar parses to the code and the sanitised label. */
  lemma ParseCodeSpaceLabel(code: string, name: string, san: Sanitizers)
    requires ValidCode(code)
    requires !Falsy(name) && name == Trim(name) && '|' !in name && name[0] !in PcreAsciiSpace
    ensures ParseLine(code + " " + name, san) == Some((code, san.textField(name)))
  {
    SpaceSplitsLine(code, name);
    assert Entry(code, name, san) == Some((code, san.textField(name)));
  }

  /** A line `code label` without a bar splits at its first whitespace into the code and the label. */
  lemma SpaceSplitsLine(code: string, name: string)
    requires ValidCode(code)
    requires name != [] && name == Trim(name) && '|' !in name && name[0] !in PcreAsciiSpace
    ensures SplitLine(code + " " + name) == (code, name)
  {
    KeyCharsSolid(code);
    TrimSolidEnds(code);
    var line := code + [' '] + name;
    assert code + " " + name == line;
    NotInJoined(code, ' ', name, '|');
    FirstAfter(code, ' ', name, PcreAsciiSpace);
    SplitLineNoBar(line, |code|);
    RestAfter(code, ' ', name, PcreAsciiSpace);
    assert TrimLeft(name, PcreAsciiSpace) == name;
  }

  /** A line without a bar whose first whitespace is at `p` splits there into code and label. */
  lemma SplitLineNoBar(line: string, p: nat)
    requires '|' !in line && FirstIn(line, PcreAsciiSpace) == Some(p)
    ensures SplitLine(line) == (Trim(line[..p]), Trim(TrimLeft(line[p..], PcreAsciiSpace)))
  {
  }

  /** Before `c` lies `head`; after it, once the run of `w` is skipped, what is left of `tail`. */
  lemma RestAfter(head: string, c: char, tail: string, w: set<char>)
    requires c in w
    ensures (head + [c] + tail)[..|head|] == head
    ensures TrimLeft((head + [c] + tail)[|head|..], w) == TrimLeft(tail, w)
  {
    var line := head + [c] + tail;
    assert line[|head|..] == [c] + tail;
    assert ([c] + tail)[1..] == tail;
  }

  /** A character in neither part nor the separator is not in the joined text. */
  lemma NotInJoined(head: string, c: char, tail: string, x: char)
    requires x !in head && x !in tail && x != c
    ensures x !in head + [c] + tail
  {
  }

  /** In `head + [c] + tail`, with `c` in `w` and no character of `head` in `w`, the first character of `w` is `c`. */
  lemma FirstAfter(head: string, c: char, tail: string, w: set<char>)
    requires forall i :: 0 <= i < |head| ==> head[i] !in w
    ensures c in w ==> FirstIn(head + [c] + tail, w) == Some(|head|)
    ensures c !in w && (forall i :: 0 <= i < |tail| ==> tail[i] !in w) ==> FirstIn(head + [c] + tail, w) == None
  {
    var line := head + [c] + tail;
    assert forall i :: 0 <= i < |line| ==> line[i] == if i < |head| then head[i] else if i == |head| then c else tail[i - |head| - 1];
    if c in w {
      FirstInIs(line, w, |head|);
    }
  }

  /** The characters of a valid code are neither a bar nor any kind of whitespace. */
  lemma KeyCharsSolid(code: string)
    requires ValidCode(code)
    ensures '|' !in code
    ensures code != [] && code[0] !in PhpTrimChars && code[|code| - 1] !in PhpTrimChars
    ensures forall i :: 0 <= i < |code| ==> code[i] !in PcreAsciiSpace
  {
    forall i | 0 <= i < |code| ensures code[i] != '|' && code[i] !in PcreAsciiSpace && code[i] !in PhpTrimChars {
      assert IsKeyChar(code[i]);
    }
  }

  /** The formatted line splits at its bar into the code and the label. */
  lemma FormattedLineSplits(code: string, name: string)
    requires ValidCode(code)
    requires name == Trim(name)
    ensures SplitLine(code + " | " + name) == (code, name)
  {
    var head, tail := code + " ", " " + name;
    assert code + " | " + name == head + ['|'] + tail;
    assert '|' !in head by {
      forall i | 0 <= i < |code| ensures code[i] != '|' {
        assert IsKeyChar(code[i]);
      }
    }
    SplitAtBar(head, tail);
    TrimCodeSpace(code);
    TrimLeadingSpace(name);
  }

  /** A line whose first bar follows `head` splits into the trimmed text on either side of it. */
  lemma SplitAtBar(head: string, tail: string)
    requires '|' !in head
    ensures SplitLine(head + ['|'] + tail) == (Trim(head), Trim(tail))
  {
    var line := head + ['|'] + tail;
    FirstSeparator(head, '|', tail);
    assert line[..|head|] == head && line[|head| + 1..] == tail;
  }

  /** A leading space makes no difference to `trim`. */
  lemma TrimLeadingSpace(name: string)
    ensures Trim(" " + name) == Trim(name)
  {
    assert (" " + name)[1..] == name;
  }

  /** Trimming a valid code followed by a space gives the code. */
  lemma TrimCodeSpace(code: string)
    requires ValidCode(code)
    ensures Trim(code + " ") == code
  {
    assert TrimRight(code + " ", PhpTrimChars) == code by {
      assert (code + " ")[..|code|] == code;
    }
    assert TrimLeft(code, PhpTrimChars) == code by {
      assert code[0] !in PhpTrimChars by {
        assert IsKeyChar(code[0]);
      }
    }
    assert TrimRight(code, PhpTrimChars) == code by {
      assert code[|code| - 1] !in PhpTrimChars by {
        assert IsKeyChar(code[|code| - 1]);
      }
    }
  }

  /** `array_filter(array_map('trim', preg_split('/\r?\n/', $raw)))`: the trimmed lines that are not false. */
  function ListLines(raw: string): (lines: seq<string>)
    ensures forall i :: 0 <= i < |lines| ==> !Falsy(lines[i]) && Trim(lines[i]) == lines[i]
    ensures |lines| <= |Split(raw, '\n')|
    ensures forall i :: 0 <= i < |Split(raw, '\n')| && !Falsy(Trim(Split(raw, '\n')[i])) ==>
      Trim(Split(raw, '\n')[i]) in lines
  {
    var pieces := Split(raw, '\n');
    forall i | 0 <= i < |pieces| && !Falsy(Trim(pieces[i])) ensures Trim(pieces[i]) in FilterTrimmed(pieces) {
      FilterTrimmedAt(pieces, i);
    }
    FilterTrimmed(pieces)
  }

  /** Trims each piece (which also removes the `\r` of a `\r\n` line end) and drops the false ones. */
  function FilterTrimmed(pieces: seq<string>): (lines: seq<string>)
    ensures forall i :: 0 <= i < |lines| ==> !Falsy(lines[i]) && Trim(lines[i]) == lines[i]
    ensures |lines| <= |pieces|
    decreases |pieces|
  {
    if pieces == [] then []
    else
      var t := Trim(pieces[0]);
      TrimIdempotent(pieces[0]);
      (if Falsy(t) then [] else [t]) + FilterTrimmed(pieces[1..])
  }

  /** Filtering a concatenation filters each part. */
  lemma {:induction false} FilterTrimmedAppend(a: seq<string>, b: seq<string>)
    ensures FilterTrimmed(a + b) == FilterTrimmed(a) + FilterTrimmed(b)
    decreases |a|
  {
    if a == [] {
      assert a + b == b;
      assert FilterTrimmed(a) == [];
    } else {
      var head := if Falsy(Trim(a[0])) then [] else [Trim(a[0])];
      assert (a + b)[0] == a[0];
      assert (a + b)[1..] == a[1..] + b;
      assert FilterTrimmed(a + b) == head + FilterTrimmed(a[1..] + b);
      assert FilterTrimmed(a) == head + FilterTrimmed(a[1..]);
      FilterTrimmedAppend(a[1..], b);
      AppendAssoc(head, FilterTrimmed(a[1..]), FilterTrimmed(b));
    }
  }

  /**
    The lines in order: after the first i + 1 pieces, the list is the one after
    the first i with piece i's trimmed text appended when that text is not false.
   */
  lemma FilterTrimmedStep(pieces: seq<string>, i: nat)
    requires i < |pieces|
    ensures FilterTrimmed(pieces[..i + 1]) ==
      FilterTrimmed(pieces[..i]) + (if Falsy(Trim(pieces[i])) then [] else [Trim(pieces[i])])
  {
    assert pieces[..i + 1] == pieces[..i] + [pieces[i]];
    FilterTrimmedAppend(pieces[..i], [pieces[i]]);
    assert [pieces[i]][1..] == [];
  }

  /**
    Every piece whose trimmed text is not false is kept, as that trimmed text, at
    the position given by the number of lines kept before it.
   */
  lemma FilterTrimmedAt(pieces: seq<string>, i: nat)
    requires i < |pieces| && !Falsy(Trim(pieces[i]))
    ensures |FilterTrimmed(pieces[..i])| < |FilterTrimmed(pieces)|
    ensures FilterTrimmed(pieces)[|FilterTrimmed(pieces[..i])|] == Trim(pieces[i])
  {
    var before, line, after := FilterTrimmed(pieces[..i]), Trim(pieces[i]), FilterTrimmed(pieces[i + 1..]);
    SplitAt(pieces, i + 1);
    FilterTrimmedAppend(pieces[..i + 1], pieces[i + 1..]);
    FilterTrimmedStep(pieces, i);
    assert FilterTrimmed(pieces) == before + [line] + after;
    AppendedAt(before, line, after);
  }

  /** Kept lines stay in the order of their pieces: an earlier piece gives an earlier line. */
  lemma FilterTrimmedInOrder(pieces: seq<string>, i: nat, j: nat)
    requires i < j < |pieces| && !Falsy(Trim(pieces[i])) && !Falsy(Trim(pieces[j]))
    ensures var p, q := |FilterTrimmed(pieces[..i])|, |FilterTrimmed(pieces[..j])|;
      p < q < |FilterTrimmed(pieces)| &&
      FilterTrimmed(pieces)[p] == Trim(pieces[i]) && FilterTrimmed(pieces)[q] == Trim(pieces[j])
  {
    FilterTrimmedAt(pieces, i);
    FilterTrimmedAt(pieces, j);
    FilterTrimmedStep(pieces, i);
    FilterTrimmedGrows(pieces, i + 1, j);
  }

  /** A longer run of pieces keeps at least as many lines. */
  lemma FilterTrimmedGrows(pieces: seq<string>, k: nat, j: nat)
    requires k <= j <= |pieces|
    ensures |FilterTrimmed(pieces[..k])| <= |FilterTrimmed(pieces[..j])|
  {
    var front := pieces[..j];
    SplitAt(front, k);
    assert front[..k] == pieces[..k];
    FilterTrimmedAppend(front[..k], front[k..]);
  }

  lemma TrimIdempotent(s: string)
    ensures Trim(Trim(s)) == Trim(s)
  {
    var t := Trim(s);
    if t != [] {
      assert TrimLeft(t, PhpTrimChars) == t;
      assert TrimRight(t, PhpTrimChars) == t;
    }
  }

  /** The list a `foreach` builds by assigning each present entry in turn. */
  function Collect(entries: seq<Option<(string, string)>>): (langs: seq<(string, string)>)
    ensures UniqueKeys(langs)
    ensures (forall i :: 0 <= i < |entries| && entries[i].Some? ==> ValidCode(entries[i].value.0)) ==>
      forall i :: 0 <= i < |langs| ==> ValidCode(langs[i].0)
    decreases |entries|
  {
    if entries == [] then []
    else
      var init := entries[..|entries| - 1];
      assert forall i :: 0 <= i < |init| ==> init[i] == entries[i];
      var langs := Collect(init);
      match entries[|entries| - 1]
      case None => langs
      case Some(entry) =>
        PutKeepsKeysUnique(langs, entry.0, entry.1);
        PutCodes(langs, entry.0, entry.1);
        Put(langs, entry.0, entry.1)
  }

  /** One more entry of a `foreach`: assigned when present, skipped otherwise. */
  lemma CollectPrefix(entries: seq<Option<(string, string)>>, i: nat)
    requires i < |entries|
    ensures Collect(entries[..i + 1]) ==
      if entries[i].Some? then Put(Collect(entries[..i]), entries[i].value.0, entries[i].value.1)
      else Collect(entries[..i])
  {
    assert entries[..i + 1][..i] == entries[..i];
  }

  /** Putting a valid code into a list of valid codes keeps every code valid. */
  lemma PutCodes(langs: seq<(string, string)>, code: string, name: string)
    ensures (forall i :: 0 <= i < |langs| ==> ValidCode(langs[i].0)) && ValidCode(code) ==>
      forall i :: 0 <= i < |Put(langs, code, name)| ==> ValidCode(Put(langs, code, name)[i].0)
  {
    var r := Put(langs, code, name);
    if (forall i :: 0 <= i < |langs| ==> ValidCode(langs[i].0)) && ValidCode(code) {
      forall i | 0 <= i < |r| ensures ValidCode(r[i].0) {
        assert r[i].0 == KeysOf(r)[i];
        if HasKey(langs, code) || i < |langs| {
          assert KeysOf(r)[i] == KeysOf(langs)[i];
        }
      }
    }
  }

  /** A code is in the list exactly when some entry carries it. */
  lemma {:induction false} CollectKeys(entries: seq<Option<(string, string)>>, code: string)
    ensures HasKey(Collect(entries), code) <==> exists i :: 0 <= i < |entries| && entries[i].Some? && entries[i].value.0 == code
    decreases |entries|
  {
    if entries != [] {
      var n := |entries| - 1;
      var init := entries[..n];
      CollectKeys(init, code);
      CollectPrefix(entries, n);
      assert entries[..n + 1] == entries;
      if entries[n].Some? {
        PutHasKey(Collect(init), entries[n].value.0, entries[n].value.1, code);
      }
      EntriesSnoc(entries, init, code);
    }
  }

  /** Some entry of a non-empty list has the code exactly when one before the last does or the last does. */
  lemma EntriesSnoc(entries: seq<Option<(string, string)>>, init: seq<Option<(string, string)>>, code: string)
    requires entries != [] && init == entries[..|entries| - 1]
    ensures (exists i :: 0 <= i < |entries| && entries[i].Some? && entries[i].value.0 == code) <==>
      (exists i :: 0 <= i < |init| && init[i].Some? && init[i].value.0 == code) ||
      (entries[|entries| - 1].Some? && entries[|entries| - 1].value.0 == code)
  {
    assert forall i :: 0 <= i < |init| ==> init[i] == entries[i];
  }

  /** A code's label is the one of the last entry with that code. */
  lemma {:induction false} CollectLastWins(entries: seq<Option<(string, string)>>, i: nat)
    requires i < |entries| && entries[i].Some?
    requires forall j :: i < j < |entries| && entries[j].Some? ==> entries[j].value.0 != entries[i].value.0
    ensures Get(Collect(entries), entries[i].value.0) == Some(entries[i].value.1)
    decreases |entries|
  {
    var init := entries[..|entries| - 1];
    if i < |entries| - 1 {
      assert init[i] == entries[i];
      assert forall j :: i < j < |init| ==> init[j] == entries[j];
      CollectLastWins(init, i);
      match entries[|entries| - 1]
      case None =>
      case Some(entry) =>
        PutOthers(Collect(init), entry.0, entry.1, entries[i].value.0);
    }
  }

  /** Every line parsed, in order. */
  function ParseAll(lines: seq<string>, san: Sanitizers): (entries: seq<Option<(string, string)>>)
    ensures |entries| == |lines|
    ensures forall i :: 0 <= i < |lines| ==> entries[i] == ParseLine(lines[i], san)
    ensures forall i :: 0 <= i < |lines| && entries[i].Some? ==> ValidCode(entries[i].value.0)
  {
    seq(|lines|, i requires 0 <= i < |lines| => ParseLine(lines[i], san))
  }

  /** The language list handle_save_languages builds from the lines. */
  function ParsedLanguages(lines: seq<string>, san: Sanitizers): (langs: seq<(string, string)>)
    ensures UniqueKeys(langs)
    ensures forall i :: 0 <= i < |langs| ==> ValidCode(langs[i].0)
  {
    Collect(ParseAll(lines, san))
  }

  /** A code is listed after saving exactly when some line parses to it. */
  lemma ParsedKeys(lines: seq<string>, san: Sanitizers, code: string)
    ensures HasKey(ParsedLanguages(lines, san), code) <==>
      exists i :: 0 <= i < |lines| && ParseLine(lines[i], san).Some? && ParseLine(lines[i], san).value.0 == code
  {
    CollectKeys(ParseAll(lines, san), code);
  }

  /** When several lines give the same code, the last of them sets its label. */
  lemma LastLineWins(lines: seq<string>, san: Sanitizers, i: nat)
    requires i < |lines| && ParseLine(lines[i], san).Some?
    requires forall j :: i < j < |lines| && ParseLine(lines[j], san).Some? ==>
      ParseLine(lines[j], san).value.0 != ParseLine(lines[i], san).value.0
    ensures Get(ParsedLanguages(lines, san), ParseLine(lines[i], san).value.0) == Some(ParseLine(lines[i], san).value.1)
  {
    CollectLastWins(ParseAll(lines, san), i);
  }

  /** A label the language list keeps as it is: trimmed, on one line, not false, and left alone by sanitize_text_field. */
  predicate PlainLabel(name: string, san: Sanitizers) {
    !Falsy(name) && Trim(name) == name && '\n' !in name && san.textField(name) == name
  }

  /** One line of the overview's language list. */
  function FormatLine(code: string, name: string): string {
    code + " | " + name
  }

  /** Every language formatted as a line, in order. */
  function FormatAll(langs: seq<(string, string)>): (lines: seq<string>)
    ensures |lines| == |langs|
    ensures forall i :: 0 <= i < |langs| ==> lines[i] == FormatLine(langs[i].0, langs[i].1)
  {
    seq(|langs|, i requires 0 <= i < |langs| => FormatLine(langs[i].0, langs[i].1))
  }

  /** The text render_overview's `foreach` builds before trimming: each line followed by a line break. */
  function OverviewLines(langs: seq<(string, string)>): string
    decreases |langs|
  {
    if langs == [] then ""
    else OverviewLines(langs[..|langs| - 1]) + FormatLine(langs[|langs| - 1].0, langs[|langs| - 1].1) + "\n"
  }

  /** The text render_overview puts in the language list's textarea. */
  function OverviewText(langs: seq<(string, string)>): string {
    Trim(OverviewLines(langs))
  }

  /** render_overview's `foreach` and `trim` building the textarea text. */
  method RenderOverviewText(langs: seq<(string, string)>) returns (text: string)
    ensures text == OverviewText(langs)
  {
    text := "";
    var i := 0;
    while i < |langs|
      invariant 0 <= i <= |langs|
      invariant text == OverviewLines(langs[..i])
    {
      assert langs[..i + 1][..i] == langs[..i];
      var (code, name) := langs[i];
      text := text + code + " | " + name + "\n";
      i := i + 1;
    }
    assert langs[..|langs|] == langs;
    text := Trim(text);
  }

  /**
    The list as the overview shows it saves back to the same list, when every
    code is valid and every label is plain.
   */
  lemma OverviewRoundTrip(langs: seq<(string, string)>, san: Sanitizers)
    requires UniqueKeys(langs)
    requires forall i :: 0 <= i < |langs| ==> ValidCode(langs[i].0) && PlainLabel(langs[i].1, san)
    ensures ParsedLanguages(ListLines(OverviewText(langs)), san) == langs
  {
    OverviewListsLines(langs, san);
    var lines := FormatAll(langs);
    var entries := ParseAll(lines, san);
    forall i | 0 <= i < |langs| ensures entries[i] == Some(langs[i]) {
      ParseFormattedLine(langs[i].0, langs[i].1, san);
    }
    CollectDistinct(langs, entries);
  }

  /** The lines read back from the overview's text are its formatted lines. */
  lemma OverviewListsLines(langs: seq<(string, string)>, san: Sanitizers)
    requires forall i :: 0 <= i < |langs| ==> ValidCode(langs[i].0) && PlainLabel(langs[i].1, san)
    ensures ListLines(OverviewText(langs)) == FormatAll(langs)
  {
    if langs == [] {
      assert Split("", '\n') == [""];
      assert ListLines(OverviewText(langs)) == [];
    } else {
      var lines := FormatAll(langs);
      forall i | 0 <= i < |langs| ensures !Falsy(lines[i]) && Trim(lines[i]) == lines[i] && '\n' !in lines[i] {
        FormatLineShape(langs[i].0, langs[i].1, san);
      }
      OverviewTextIsJoin(langs, san);
      SplitJoin(lines, '\n');
      FilterTrimmedKeeps(lines);
    }
  }

  /** For a non-empty list of valid codes and plain labels, the textarea text is the lines joined by line breaks. */
  lemma OverviewTextIsJoin(langs: seq<(string, string)>, san: Sanitizers)
    requires langs != []
    requires forall i :: 0 <= i < |langs| ==> ValidCode(langs[i].0) && PlainLabel(langs[i].1, san)
    ensures OverviewText(langs) == Join(FormatAll(langs), '\n')
  {
    var lines := FormatAll(langs);
    OverviewLinesJoin(langs);
    var first, last := langs[0], langs[|langs| - 1];
    FormatLineShape(first.0, first.1, san);
    FormatLineShape(last.0, last.1, san);
    assert lines[0] == FormatLine(first.0, first.1);
    assert lines[|lines| - 1] == FormatLine(last.0, last.1);
    JoinTrim(lines);
  }

  /** Joined lines whose outer ends are not whitespace, plus a final line break, trim back to the joined lines. */
  lemma JoinTrim(lines: seq<string>)
    requires |lines| >= 1 && lines[0] != [] && lines[|lines| - 1] != []
    requires lines[0][0] !in PhpTrimChars && lines[|lines| - 1][|lines[|lines| - 1]| - 1] !in PhpTrimChars
    ensures Trim(Join(lines, '\n') + "\n") == Join(lines, '\n')
  {
    JoinEnds(lines, '\n');
    TrimLastBreak(Join(lines, '\n'));
  }

  /** Saving the overview's list with the current default gives back the settings it shows. */
  lemma OverviewSaveKeepsSettings(s: LanguageSettings, locale: string, san: Sanitizers)
    requires ValidSettings(s)
    requires forall i :: 0 <= i < |s.languages| ==> PlainLabel(s.languages[i].1, san)
    ensures ChooseDefault(s.defaultCode, ParsedLanguages(ListLines(OverviewText(s.languages)), san), locale) == s
  {
    OverviewRoundTrip(s.languages, san);
    var i :| 0 <= i < |s.languages| && s.languages[i].0 == s.defaultCode;
    assert ValidCode(s.languages[i].0);
  }

  /** A formatted line of a valid code and a plain label is trimmed, on one line, and not false. */
  lemma FormatLineShape(code: string, name: string, san: Sanitizers)
    requires ValidCode(code) && PlainLabel(name, san)
    ensures !Falsy(FormatLine(code, name)) && Trim(FormatLine(code, name)) == FormatLine(code, name)
    ensures '\n' !in FormatLine(code, name)
    ensures FormatLine(code, name) != [] && FormatLine(code, name)[0] !in PhpTrimChars
    ensures FormatLine(code, name)[|FormatLine(code, name)| - 1] !in PhpTrimChars
  {
    var line := FormatLine(code, name);
    assert IsKeyChar(code[0]);
    assert name[|name| - 1] !in PhpTrimChars;
    assert '\n' !in code by {
      forall i | 0 <= i < |code| ensures code[i] != '\n' {
        assert IsKeyChar(code[i]);
      }
    }
    assert line[0] == code[0] && line[|line| - 1] == name[|name| - 1];
    TrimSolidEnds(line);
  }

  /** The textarea text before trimming is the lines joined by line breaks, plus a final one. */
  lemma {:induction false} OverviewLinesJoin(langs: seq<(string, string)>)
    requires langs != []
    ensures OverviewLines(langs) == Join(FormatAll(langs), '\n') + "\n"
    decreases |langs|
  {
    var init := langs[..|langs| - 1];
    var last := FormatLine(langs[|langs| - 1].0, langs[|langs| - 1].1);
    if init == [] {
      assert FormatAll(langs) == [last];
    } else {
      OverviewLinesJoin(init);
      assert FormatAll(langs) == FormatAll(init) + [last];
      JoinSnoc(FormatAll(init), last, '\n');
    }
  }

  /** A joined text starts with the first piece's first character and ends with the last piece's last one. */
  lemma {:induction false} JoinEnds(parts: seq<string>, c: char)
    requires |parts| >= 1 && parts[0] != [] && parts[|parts| - 1] != []
    ensures Join(parts, c) != []
    ensures Join(parts, c)[0] == parts[0][0]
    ensures Join(parts, c)[|Join(parts, c)| - 1] == parts[|parts| - 1][|parts[|parts| - 1]| - 1]
  {
    if |parts| > 1 {
      var init := parts[..|parts| - 1];
      assert parts == init + [parts[|parts| - 1]];
      JoinSnoc(init, parts[|parts| - 1], c);
      assert init[0] == parts[0];
      assert Join(parts, c) == parts[0] + [c] + Join(parts[1..], c);
    }
  }

  /** Trimming a text whose ends are not whitespace, followed by a line break, gives the text. */
  lemma TrimLastBreak(j: string)
    requires j != [] && j[0] !in PhpTrimChars && j[|j| - 1] !in PhpTrimChars
    ensures Trim(j + "\n") == j
  {
    assert TrimLeft(j + "\n", PhpTrimChars) == j + "\n";
    assert (j + "\n")[..|j|] == j;
    assert TrimRight(j + "\n", PhpTrimChars) == j;
  }

  /** Lines that are already trimmed and not false pass the filter unchanged. */
  lemma {:induction false} FilterTrimmedKeeps(lines: seq<string>)
    requires forall i :: 0 <= i < |lines| ==> !Falsy(lines[i]) && Trim(lines[i]) == lines[i]
    ensures FilterTrimmed(lines) == lines
  {
    if lines != [] {
      var rest := lines[1..];
      assert forall i :: 0 <= i < |rest| ==> rest[i] == lines[i + 1];
      FilterTrimmedKeeps(rest);
      assert Trim(lines[0]) == lines[0] && !Falsy(lines[0]);
      assert FilterTrimmed(lines) == [lines[0]] + FilterTrimmed(rest);
      HeadAndRest(lines);
    }
  }

  /** Collecting one present entry per element of a list with distinct codes rebuilds the list. */
  lemma {:induction false} CollectDistinct(langs: seq<(string, string)>, entries: seq<Option<(string, string)>>)
    requires UniqueKeys(langs) && |entries| == |langs|
    requires forall i :: 0 <= i < |langs| ==> entries[i] == Some(langs[i])
    ensures Collect(entries) == langs
    decreases |langs|
  {
    if langs != [] {
      var init := langs[..|langs| - 1];
      var last := langs[|langs| - 1];
      CollectDistinct(init, entries[..|entries| - 1]);
      assert !HasKey(init, last.0);
      PutNew(init, last.0, last.1);
    }
  }

  /**
    The default after saving: the submitted code when it is listed, else the first
    listed code; with an empty list, the code inferred from the locale, added to
    the list under its known label.
   */
  function ChooseDefault(submitted: string, languages: seq<(string, string)>, locale: string): (s: LanguageSettings)
    requires forall i :: 0 <= i < |languages| ==> ValidCode(languages[i].0)
    ensures s.languages != [] && HasKey(s.languages, s.defaultCode) && !Falsy(s.defaultCode)
    ensures !Falsy(submitted) && HasKey(languages, submitted) ==> s == LanguageSettings(submitted, languages)
    ensures (Falsy(submitted) || !HasKey(languages, submitted)) && languages != [] ==> s == LanguageSettings(languages[0].0, languages)
    ensures languages == [] ==> s.defaultCode == InferDefaultLanguage(locale) && s.languages == [(s.defaultCode, LabelFromCode(s.defaultCode))]
  {
    var picked := if Falsy(submitted) || !HasKey(languages, submitted) then FirstKey(languages) else Some(submitted);
    if picked.Some? && !Falsy(picked.value) then
      LanguageSettings(picked.value, languages)
    else
      assert languages != [] ==> ValidCode(languages[0].0);
      var code := InferDefaultLanguage(locale);
      LanguageSettings(code, Put(languages, code, Get(languages, code).GetOr(LabelFromCode(code))))
  }

  /** handle_save_languages: refused (None) without permission or with a bad nonce, else the settings it stores. */
  function SaveLanguagesSpec(canManage: bool, nonceValid: bool, rawDefault: Option<string>, rawList: Option<string>,
                             locale: string, san: Sanitizers): Option<LanguageSettings>
  {
    if !canManage || !nonceValid then None
    else
      var submitted := if rawDefault.Some? then SanitizeKey(san.unslash(rawDefault.value)) else "";
      var raw := if rawList.Some? then san.unslash(rawList.value) else "";
      Some(ChooseDefault(submitted, ParsedLanguages(ListLines(raw), san), locale))
  }

  /** handle_save_languages, with its `foreach` over the lines. */
  method SaveLanguages(canManage: bool, nonceValid: bool, rawDefault: Option<string>, rawList: Option<string>,
                       locale: string, san: Sanitizers) returns (r: Option<LanguageSettings>)
    ensures r == SaveLanguagesSpec(canManage, nonceValid, rawDefault, rawList, locale, san)
    ensures r.None? <==> !canManage || !nonceValid
    ensures r.Some? ==> r.value.languages != [] && HasKey(r.value.languages, r.value.defaultCode)
  {
    if !canManage || !nonceValid {
      return None;
    }
    var submitted := if rawDefault.Some? then SanitizeKey(san.unslash(rawDefault.value)) else "";
    var raw := if rawList.Some? then san.unslash(rawList.value) else "";
    var languages := CollectLines(ListLines(raw), san);
    r := Some(ChooseDefault(submitted, languages, locale));
  }

  /** The `foreach` of handle_save_languages: each line parsed and assigned in turn. */
  method CollectLines(lines: seq<string>, san: Sanitizers) returns (languages: seq<(string, string)>)
    ensures languages == ParsedLanguages(lines, san)
  {
    ghost var entries := ParseAll(lines, san);
    languages := [];
    var i := 0;
    while i < |lines|
      invariant 0 <= i <= |lines|
      invariant languages == Collect(entries[..i])
    {
      var parsed := ParseLine(lines[i], san);
      CollectPrefix(entries, i);
      if parsed.Some? {
        languages := Put(languages, parsed.value.0, parsed.value.1);
      }
      i := i + 1;
    }
    assert entries[..|lines|] == entries;
  }

  /** The option as stored: not an array, or an array whose entries may be missing or malformed. */
  datatype StoredLanguages =
    | NotArrayOption
    | OptionArray(defaultCode: Option<string>, languages: Field<seq<(string, string)>>)

  /** Every stored entry cleaned, in order. */
  function CleanAll(stored: seq<(string, string)>, san: Sanitizers): (entries: seq<Option<(string, string)>>)
    ensures |entries| == |stored|
    ensures forall i :: 0 <= i < |stored| ==> entries[i] == Entry(stored[i].0, stored[i].1, san)
    ensures forall i :: 0 <= i < |stored| && entries[i].Some? ==> ValidCode(entries[i].value.0)
  {
    seq(|stored|, i requires 0 <= i < |stored| => Entry(stored[i].0, stored[i].1, san))
  }

  /** The language list get_language_settings cleans from the stored one. */
  function CleanLanguages(stored: seq<(string, string)>, san: Sanitizers): (clean: seq<(string, string)>)
    ensures UniqueKeys(clean)
    ensures forall i :: 0 <= i < |clean| ==> ValidCode(clean[i].0)
  {
    Collect(CleanAll(stored, san))
  }

  /** The default and list get_language_settings starts from, after `wp_parse_args`. */
  function ParsedOption(stored: StoredLanguages, locale: string): (string, seq<(string, string)>) {
    match stored
    case NotArrayOption => (InferDefaultLanguage(locale), DefaultLanguages)
    case OptionArray(d, l) =>
      (d.GetOr(InferDefaultLanguage(locale)), if l.Arr? then l.value else DefaultLanguages)
  }

  /** The settings get_language_settings returns once its list is cleaned. */
  function SettingsFromClean(defaultCode: string, clean: seq<(string, string)>): (s: LanguageSettings)
    requires UniqueKeys(clean) && forall i :: 0 <= i < |clean| ==> ValidCode(clean[i].0)
    ensures ValidSettings(s)
  {
    var list := if clean == [] then DefaultLanguages else clean;
    assert ValidCode("en") && ValidCode("es");
    var name := Get(list, defaultCode);
    if name.None? || Falsy(name.value) then
      LanguageSettings(list[0].0, list)
    else
      LanguageSettings(defaultCode, list)
  }

  /** get_language_settings as a function of the stored option. */
  function LanguageSettingsSpec(stored: StoredLanguages, locale: string, san: Sanitizers): LanguageSettings {
    var (d, l) := ParsedOption(stored, locale);
    SettingsFromClean(d, CleanLanguages(l, san))
  }

  /** get_language_settings, with its cleaning `foreach`; the result is always valid. */
  method GetLanguageSettings(stored: StoredLanguages, locale: string, san: Sanitizers) returns (s: LanguageSettings)
    ensures s == LanguageSettingsSpec(stored, locale, san)
    ensures ValidSettings(s)
  {
    var (d, l) := ParsedOption(stored, locale);
    var clean := CleanStored(l, san);
    s := SettingsFromClean(d, clean);
  }

  /** The cleaning `foreach` of get_language_settings: each code sanitised, false ones skipped, each label cleaned. */
  method CleanStored(l: seq<(string, string)>, san: Sanitizers) returns (clean: seq<(string, string)>)
    ensures clean == CleanLanguages(l, san)
  {
    ghost var entries := CleanAll(l, san);
    clean := [];
    var i := 0;
    while i < |l|
      invariant 0 <= i <= |l|
      invariant clean == Collect(entries[..i])
    {
      var key, name := l[i].0, l[i].1;
      var code := SanitizeKey(key);
      assert entries[i] == Entry(key, name, san);
      CollectPrefix(entries, i);
      if !Falsy(code) {
        var cleanLabel := if Falsy(name) then Upper(code) else san.textField(name);
        assert entries[i] == Some((code, cleanLabel));
        clean := Put(clean, code, cleanLabel);
      } else {
        assert entries[i] == None;
      }
      i := i + 1;
    }
    assert entries[..|l|] == entries;
  }

  /** A stored default whose cleaned label is not false survives cleaning; any other default becomes the first code. */
  lemma DefaultSurvivesCleaning(stored: StoredLanguages, locale: string, san: Sanitizers)
    ensures var (d, l) := ParsedOption(stored, locale);
      var clean := CleanLanguages(l, san);
      var list := if clean == [] then DefaultLanguages else clean;
      var s := LanguageSettingsSpec(stored, locale, san);
      s.languages == list &&
      (Get(list, d).Some? && !Falsy(Get(list, d).value) ==> s.defaultCode == d) &&
      (Get(list, d).None? || Falsy(Get(list, d).value) ==> s.defaultCode == list[0].0)
  {
  }

  /** get_current_language: the cookie's code when it is listed, else the default. */
  function CurrentLanguage(s: LanguageSettings, cookie: Option<string>): (code: string)
    ensures HasKey(s.languages, s.defaultCode) ==> HasKey(s.languages, code)
    ensures cookie.Some? && !Falsy(SanitizeKey(cookie.value)) && HasKey(s.languages, SanitizeKey(cookie.value)) ==> code == SanitizeKey(cookie.value)
    ensures !(cookie.Some? && !Falsy(SanitizeKey(cookie.value)) && HasKey(s.languages, SanitizeKey(cookie.value))) ==> code == s.defaultCode
  {
    var selected := if cookie.Some? then SanitizeKey(cookie.value) else "";
    if Falsy(selected) || !HasKey(s.languages, selected) then s.defaultCode else selected
  }

  /** The characters language_short_label splits on: PCRE `\s` without `/u`, and the hyphen. */
  const LabelSeparators: set<char> := PcreAsciiSpace + {'-'}

  /**
    language_short_label: the name's first word when it is at most four bytes long,
    else the upper-cased code. `preg_split` never returns an empty array here, so
    the code's fallback for one is not reachable.
   */
  function ShortLabel(code: string, name: string): (short: string)
    ensures short == Upper(code) ||
      (ByteLength(short) <= 4 && |short| <= |name| && short == name[..|short|] &&
       forall i :: 0 <= i < |short| ==> short[i] !in LabelSeparators)
    ensures ByteLength(FirstWord(name)) <= 4 ==> short == FirstWord(name)
    ensures ByteLength(FirstWord(name)) > 4 ==> short == Upper(code)
  {
    var first := FirstWord(name);
    if ByteLength(first) <= 4 then first else Upper(code)
  }

  /**
    `reset(preg_split('/[\s\-]/', name))`: the longest prefix of the name without
    an ASCII whitespace or a hyphen.
   */
  function FirstWord(name: string): (first: string)
    ensures |first| <= |name| && first == name[..|first|]
    ensures forall i :: 0 <= i < |first| ==> first[i] !in LabelSeparators
    ensures |first| == |name| || name[|first|] in LabelSeparators
  {
    match FirstIn(name, LabelSeparators)
    case None => name
    case Some(p) => name[..p]
  }

  /** A label that is one short word is its own short label. */
  lemma ShortWordIsItsOwnLabel(code: string, name: string)
    requires forall i :: 0 <= i < |name| ==> name[i] !in LabelSeparators
    requires ByteLength(name) <= 4
    ensures ShortLabel(code, name) == name
  {
  }

  /** "Español" is a single word of more than four bytes, so its short label is the code. */
  lemma SpanishShortLabel(name: string)
    requires name == "Espa\U{F1}ol"
    ensures ShortLabel("es", name) == "ES"
  {
    assert forall i :: 0 <= i < |name| ==> name[i] !in LabelSeparators;
    assert |name| == 7;
  }
}
