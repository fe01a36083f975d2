# Page translation plugins for WordPress, modelled in Dafny

This project models the logic of three small WordPress plugins and proves properties of it.

**kovacic-translate.php** is a content-addressed translation pipeline for pages:
- A normaliser turns a text fragment into its lookup key.
- The extractor walks the text nodes of a page, in document order, and builds the page's strings table. The table maps the hash of each normalised text to the first raw text seen for it.
- The substitution engine rewrites every eligible text node whose key has a translation. The node becomes its own leading whitespace, then the translation, then its own trailing whitespace.
- Translations are stored per page and per language. Saving one language also prunes every other language to the page's current strings.
- A language registry:
  - parses the administrator's language list (`code | label` lines);
  - cleans the stored settings, so there is always a non-empty list that contains the default;
  - picks the visitor's language;
  - derives the short button labels.

**wp-language-switcher/language-switcher.php** decides what a page's meta-box save does: nothing, delete the meta, or update it. It also decides how the English/Spanish switcher is rendered around the page content.

**ui-language-switcher.js** runs one switcher container per page preview. It resolves the starting language (query parameter, then stored preference, then the container default, then "en"). Its handlers update the container's state and the shared preference store in place.

Modules, one per file:

| file | module | what it holds |
|---|---|---|
| `wrappers.dfy` | `Wrappers` | `Option` (an unset index, an undefined property, a null) |
| `seq_facts.dfy` | `SeqFacts` | small generic sequence facts |
| `php_text.dfy` | `PhpText` | PHP/PCRE string primitives: the three whitespace classes, `trim`, `strpos`, `explode`/`implode`, ASCII case mapping, `sanitize_key`, `strlen` as a UTF-8 byte count |
| `php_array.dfy` | `PhpArray` | PHP ordered arrays with string keys, as sequences of pairs: lookup, assignment, `key()`, `array_intersect_key` |
| `normalizer.dfy` | `Normalizer` | `normalize_string`, `leading_whitespace`, `trailing_whitespace` |
| `dom.dfy` | `Dom` | the parsed document as a node arena, and the eligibility test both walks share |
| `extractor.dfy` | `Extractor` | `extract_strings` |
| `substitution.dfy` | `Substitution` | `replace_strings_in_html` |
| `translation_store.dfy` | `TranslationStore` | `get_translation_data`, `get_translation_map`, `handle_save_translations` |
| `language_registry.dfy` | `LanguageRegistry` | `handle_save_languages`, `get_language_settings`, `get_current_language`, `language_short_label`, `label_from_code`, the overview's list text |
| `meta_box_switcher.dfy` | `MetaBoxSwitcher` | `save_meta_box`, `prepare_spanish_content`, `inject_language_switcher` |
| `ui_switcher.dfy` | `UiSwitcher` | the client-side switcher container as a class |

What the source does step by step is modelled as methods with loops. These are:
- the `foreach` loops of extraction, substitution, map building, pruning, collecting and list parsing;
- the in-place node rewrite over an `array<Node>`;
- the switcher's handlers over a `Switcher` object.

Each method is proved equal to a function, and the properties are lemmas about those functions.

## Behaviour worth knowing

- **Normalisation is not idempotent.**
  - normalize_string first applies PHP `trim`, which strips `" \t\n\r\0\x0B"`. It then collapses runs of PCRE `\s` under `/u`, which also matches form feed, U+0085 (next line), U+180E (Mongolian vowel separator), NBSP and the other Unicode separators (category Z).
  - A leading form feed therefore survives the trim and becomes a leading space, which a second normalisation strips: `"\fHi"` gives `" Hi"`, which gives `"Hi"` (`Normalizer.NormalizeNotIdempotentOnFormFeed`).
  - Idempotence is proved for the same steps when trim and collapse use one whitespace class (`Normalizer.NormalizeWithIdempotent`).
  - normalize_string trims before it collapses, and it decodes no entities: entity decoding is done by the HTML parser before the text reaches it.
- **The skip list.** Only the text node's immediate parent is tested, and only against `script`, `style` and `noscript`. Text nested deeper inside one of those elements is extracted and rewritten like any other text.
- **Selection happens before normalisation.** Nodes are selected by XPath `normalize-space()`, whose whitespace is only space, tab, CR and LF.
  - A node holding just a form feed is selected, and its key is `" "`. A translation for `" "` is then written between two copies of the form feed (`Substitution.FormFeedNodeDoubled`).
- **The key "0" is never translated.** A node whose text normalises to `"0"` is extracted like any other. Its translations are never applied, because get_translation_map drops every key PHP reads as false (`TranslationStore.TranslationMapSpec`).
- **String records** hold only the raw text and the normalised text. The boundary whitespace is taken from each node at substitution time.
- **Stored default language of the meta box.** When the form has no `default_language` field, the `?? 'en'` fallback passes the en/es check, but the missing value itself is what gets stored (`MetaBoxSwitcher.StoredDefault`).

## Model

| member | source | states |
|---|---|---|
| PhpText.TrimLeft | kovacic-translate.php:684-686 | the result is a suffix of the input; everything dropped is in the class; the result does not start with a character of the class (the longest prefix is dropped) |
| PhpText.TrimRight | kovacic-translate.php:691-693 | the result is a prefix of the input; everything dropped is in the class; the result does not end with a character of the class |
| PhpText.TrimWith | kovacic-translate.php:642 | `trim` with a class: neither end of the result is in the class, and the result is empty exactly when every character is in the class |
| PhpText.TrimWithKeepsOut | kovacic-translate.php:642 | trimming introduces no character that was not in the input |
| PhpText.TrimLeftStopsAt | kovacic-translate.php:642 | trimming the front drops exactly the characters before the first one outside the class |
| PhpText.TrimRightStopsAt | kovacic-translate.php:642 | trimming the back drops exactly the characters after the last one outside the class |
| PhpText.TrimStartsAt | kovacic-translate.php:642 | `trim` leaves the text starting with its first character outside the class |
| PhpText.TrimEndsAt | kovacic-translate.php:642 | `trim` leaves the text ending with its last character outside the class |
| PhpText.IndexOf | kovacic-translate.php:239-240 | `strpos`: None exactly when the character is absent, else its first position |
| PhpText.FirstIn | kovacic-translate.php:242 | None exactly when no character is in the class, else the first position of one |
| PhpText.Split | kovacic-translate.php:232 | `explode`: at least one piece, and no piece contains the separator |
| PhpText.JoinSplit | kovacic-translate.php:232 | joining the pieces of a split gives back the text |
| PhpText.SplitJoin | kovacic-translate.php:232 | splitting pieces without the separator once they are joined gives back the pieces |
| PhpText.JoinSnoc | kovacic-translate.php:82-84 | joining one more piece appends the separator and the piece |
| PhpText.FirstSeparator | kovacic-translate.php:240 | in `a + c + b` with no `c` in `a`, the first `c` is the one after `a` |
| PhpText.TrimSolidEnds | kovacic-translate.php:243 | a text whose two ends are not trimmed is its own `trim` |
| PhpText.Lower | kovacic-translate.php:551 | `strtolower`: same length, each character lower-cased (ASCII, as PHP 8 does) |
| PhpText.Upper | kovacic-translate.php:559 | `strtoupper`: same length, each character upper-cased |
| PhpText.LowerOfUpper | kovacic-translate.php:551 | lower-casing an upper-cased text gives the lower-cased text |
| PhpText.SanitizeKey | kovacic-translate.php:246 | `sanitize_key`: equal to `strtolower` followed by dropping every character outside `[a-z0-9_-]` (KeepKeyChars); only key characters, never longer; a text that lower-cases to key characters gives its lower-cased form, and a text of key characters is unchanged |
| PhpText.KeepKeyChars | kovacic-translate.php:246 | the `preg_replace` step of `sanitize_key`: only key characters remain, never longer, and a text of key characters is unchanged |
| PhpText.KeepKeyCharsKeeps | kovacic-translate.php:246 | every key character of the text is kept |
| PhpText.SanitizeKeyKeeps | kovacic-translate.php:246 | every character that lower-cases to a key character is kept, lower-cased |
| PhpText.SanitizeKeyIgnoresCase | kovacic-translate.php:246 | upper-casing the input first does not change the key |
| PhpText.Utf8Width | kovacic-translate.php:486 | one to four bytes per character, one exactly for ASCII |
| PhpText.ByteLength | kovacic-translate.php:486 | `strlen` counts bytes: between the character count and four times it, and equal to it exactly for ASCII text |
| PhpArray.FindKey | kovacic-translate.php:298 | None exactly when the key is absent, else the first position holding it |
| PhpArray.Get | kovacic-translate.php:587 | `isset($a[$k])`-style lookup: a value exactly when the key is present |
| PhpArray.GetAt | kovacic-translate.php:587-588 | in an array with distinct keys, looking up position i's key gives position i's value |
| PhpArray.Put | kovacic-translate.php:250 | `$a[$k] = $v`: an existing key stays where it is, a new key is appended, and the key then reads `v` |
| PhpArray.PutOthers | kovacic-translate.php:328 | assigning one key leaves every other key's value unchanged |
| PhpArray.PutHasKey | kovacic-translate.php:250 | after an assignment the keys are the old ones plus the assigned one |
| PhpArray.PutNew | kovacic-translate.php:250 | assigning a new key appends the pair |
| PhpArray.HasKeyAppend | kovacic-translate.php:628-631 | appending a pair adds exactly its key |
| PhpArray.PutKeepsKeysUnique | kovacic-translate.php:250 | assignment keeps the keys distinct |
| PhpArray.PutAt | kovacic-translate.php:514 | assigning an existing key replaces that element in place |
| PhpArray.FirstKey | kovacic-translate.php:254 | `key()` of a fresh array: null exactly for the empty array, else its first key |
| PhpArray.IntersectKeys | kovacic-translate.php:315 | `array_intersect_key`: a key reads its old value when the other array has it, and nothing otherwise; never longer |
| Normalizer.ReplaceNbsp | kovacic-translate.php:641 | every NBSP becomes a space, and nothing else changes |
| Normalizer.Collapse | kovacic-translate.php:642 | each whitespace run becomes one space: no NBSP added, every remaining whitespace is `' '`, no two whitespace characters are adjacent, the ends follow the input's ends |
| Normalizer.CollapseKeepsWords | kovacic-translate.php:642 | collapsing keeps the words: the maximal runs of non-whitespace are the same, in the same order, so no two words merge and none splits |
| Normalizer.CollapseKeepsNonSpace | kovacic-translate.php:642 | collapsing keeps every non-whitespace character, in order |
| Normalizer.CollapseFixpoint | kovacic-translate.php:642 | text already made of lone spaces is left alone |
| Normalizer.Normalize | kovacic-translate.php:640-644 | `normalize_string`: no NBSP, every whitespace is a single `' '`, no two adjacent; empty exactly when the value is only NBSP and `trim` characters; the key starts (ends) with the value's first (last) character that is neither a `trim` character nor NBSP, as a space when PCRE counts it as whitespace; for text without NUL, the non-whitespace characters are kept in order and the words of the key are exactly the words of the value |
| Normalizer.FoldTrimStart | kovacic-translate.php:641-642 | after the NBSP fold and `trim`, the text starts with the value's first character that neither removes |
| Normalizer.FoldTrimEnd | kovacic-translate.php:641-642 | after the NBSP fold and `trim`, the text ends with the value's last character that neither removes |
| Normalizer.NormalizedStart | kovacic-translate.php:640-644 | the key's first character is the value's first character that is not stripped, turned into a space when it is whitespace |
| Normalizer.NormalizedEnd | kovacic-translate.php:640-644 | the key's last character is the value's last character that is not stripped, turned into a space when it is whitespace |
| Normalizer.NormalizeSolidEnds | kovacic-translate.php:640-644 | when a value's only whitespace is `trim` characters and NBSP, its key neither starts nor ends with a space |
| Normalizer.NormalizeKeepsWords | kovacic-translate.php:641-642 | the NBSP fold and `trim` keep the words PCRE sees (for text without NUL) |
| Normalizer.WordsTrim | kovacic-translate.php:642 | trimming characters that are whitespace of the other class keeps that class's words |
| Normalizer.NormalizeKeepsNonSpace | kovacic-translate.php:641-642 | the NBSP fold and `trim` drop only characters PCRE counts as whitespace (for text without NUL) |
| Normalizer.TrimKeepsNonSpace | kovacic-translate.php:642 | trimming characters that are whitespace of the other class keeps that class's non-whitespace |
| Normalizer.NonSpaceReplaceNbsp | kovacic-translate.php:641 | the NBSP fold keeps the non-whitespace characters |
| Normalizer.NormalizeWithIdempotent | kovacic-translate.php:640-644 | normalising twice equals normalising once when `trim` and the collapse use one class |
| Normalizer.NormalizeNotIdempotentOnFormFeed | kovacic-translate.php:642 | with the real classes, `"\fHi"` normalises to `" Hi"` and then to `"Hi"` |
| Normalizer.FormFeedKeptBySingleNormalize | kovacic-translate.php:642 | a leading form feed survives `trim` and becomes a leading space |
| Normalizer.SpaceStrippedBySecondNormalize | kovacic-translate.php:642 | that leading space is stripped by the next normalisation |
| Normalizer.LeadingSpaceNormalizes | kovacic-translate.php:641-642 | a PCRE-only whitespace character before solid text becomes one space |
| Normalizer.LeadingTrimmedNormalizes | kovacic-translate.php:642 | a `trim` character before solid text disappears |
| Normalizer.FormFeedNormalizesToSpace | kovacic-translate.php:642 | a lone form feed normalises to `" "`, a non-empty key |
| Normalizer.LoneSpaceNormalizes | kovacic-translate.php:642 | any lone PCRE-only whitespace character normalises to `" "` |
| Normalizer.CollapseLeadingRun | kovacic-translate.php:642 | one whitespace character before non-whitespace collapses to a space |
| Normalizer.LeadingRun | kovacic-translate.php:683-688 | `leading_whitespace` is a prefix, all of it PCRE `\s` under `/u` (U+0085 and U+180E included), and maximal |
| Normalizer.TrailingRun | kovacic-translate.php:690-695 | `trailing_whitespace` is a suffix, all of it PCRE `\s` under `/u` (U+0085 and U+180E included), and maximal |
| Normalizer.BoundarySplit | kovacic-translate.php:683-695 | a value with some non-whitespace is its leading run, a middle that starts and ends with non-whitespace, and its trailing run |
| Normalizer.RunsEndBefore | kovacic-translate.php:683-695 | every non-whitespace character lies between the two runs |
| Dom.SameShapeSkips | kovacic-translate.php:614-619 | the skip test depends only on kinds, names and parents, not on text |
| Extractor.Extracted | kovacic-translate.php:612-633 | the table after n nodes has distinct keys and at most n entries |
| Extractor.ExtractedWellFormed | kovacic-translate.php:621-632 | every entry has a non-empty normalised text equal to the normaliser applied to its raw text, and is keyed by it |
| Extractor.ExtractStrings | kovacic-translate.php:597-638 | empty for false HTML or a failed parse, else the walk's table |
| Extractor.WalkTextNodes | kovacic-translate.php:612-634 | the `foreach` over an array of nodes builds exactly the walk's table |
| Extractor.VisitNode | kovacic-translate.php:613-632 | one node either appends its entry (eligible, non-empty key, key unseen) or leaves the table as it is |
| Extractor.ExtractedStep | kovacic-translate.php:623-632 | the step, stated on the key's presence |
| Extractor.ExtractedKeys | kovacic-translate.php:612-633 | a key is in the table exactly when some visited node that counts has it |
| Extractor.ExtractedPrefix | kovacic-translate.php:627-632 | the walk only appends: an earlier table is a prefix of a later one |
| Extractor.FirstWithKeyAppends | kovacic-translate.php:627-632 | the first node with a key appends its own raw text |
| Extractor.FirstOccurrenceKept | kovacic-translate.php:627-632 | a repeated key keeps the first occurrence's raw text, at the position it was added |
| Extractor.DocumentOrder | kovacic-translate.php:613-632 | entries appear in the document order of the nodes that introduced them |
| Extractor.EntryFromNode | kovacic-translate.php:621-632 | every entry's raw text is the text of a node that counts |
| Extractor.SkippedTextIgnored | kovacic-translate.php:614-619 | changing the text of a node under a skipped parent leaves the table unchanged |
| Extractor.SameContributions | kovacic-translate.php:612-633 | documents whose nodes count alike, with the same text where they count, give the same table |
| Substitution.Substituted | kovacic-translate.php:657-676 | same shape; each node's value is its rewritten value; nodes under skipped parents and nodes without a mapped key are unchanged |
| Substitution.EmptyMapChangesNothing | kovacic-translate.php:668-670 | an empty map changes no node |
| Substitution.RewrittenNodesAreExtracted | kovacic-translate.php:659-668 | a node that substitution changes counts, and its key is in the table extraction builds, because both walks apply one test |
| Substitution.BoundaryWhitespaceKept | kovacic-translate.php:672-674 | for a translation with non-whitespace ends, the new value's runs are the old value's runs |
| Substitution.LeadingRunIs | kovacic-translate.php:683-688 | a whitespace prefix followed by non-whitespace is the leading run |
| Substitution.TrailingRunIs | kovacic-translate.php:690-695 | a whitespace suffix preceded by non-whitespace is the trailing run |
| Substitution.FormFeedNodeDoubled | kovacic-translate.php:656-674 | a node holding one form feed, with `" "` mapped to `"X"`, becomes `"\fX\f"` |
| Substitution.LoneSpaceNodeDoubled | kovacic-translate.php:656-674 | a one-character node of PCRE-only whitespace gets the translation of `" "` between two copies of that character |
| Substitution.LoneSpaceRuns | kovacic-translate.php:683-695 | a lone whitespace character is both runs of its value |
| Substitution.RewriteTextNodes | kovacic-translate.php:657-676 | the in-place `foreach` leaves the array equal to the substituted document |
| Substitution.RewriteNode | kovacic-translate.php:658-674 | one pass writes node i's rewritten value and touches no other node |
| Substitution.ReplaceStringsInHtml | kovacic-translate.php:646-681 | a failed parse returns the HTML unchanged; otherwise the document is rewritten in place and serialised |
| TranslationStore.GetTranslationData | kovacic-translate.php:562-574 | non-array meta loads as empty data; a missing or non-array part loads as an empty array; the update time is kept |
| TranslationStore.LoadAfterStore | kovacic-translate.php:562-574 | saved data loads back unchanged |
| TranslationStore.MapOf | kovacic-translate.php:586-593 | no key of the map is a text PHP reads as false |
| TranslationStore.MapKeys | kovacic-translate.php:586-593 | a text is in the map exactly when some translation's hash key is a known string whose normalised text it is, and it is not false |
| TranslationStore.MapLastWins | kovacic-translate.php:590 | a text maps to the last translation whose key stands for it |
| TranslationStore.MapDropsUnknown | kovacic-translate.php:587 | a translation whose hash key is not a known string is dropped |
| TranslationStore.BuildMap | kovacic-translate.php:581-594 | the `foreach` builds exactly that map |
| TranslationStore.TranslationMapSpec | kovacic-translate.php:576-595 | an empty map when the language has no translations; no false key |
| TranslationStore.GetTranslationMap | kovacic-translate.php:576-595 | the method, with its re-extraction when the stored strings are empty, computes that map |
| TranslationStore.Absint | kovacic-translate.php:277 | `absint`: the magnitude |
| TranslationStore.PruneAll | kovacic-translate.php:306-317 | every language stays where it was; a non-array entry becomes an empty table, the language being saved is unchanged, and every other language keeps only the keys of the current strings table |
| TranslationStore.GetPruneAll | kovacic-translate.php:306-317 | looking a language up after pruning gives its pruned entry |
| TranslationStore.PruneTranslations | kovacic-translate.php:306-317 | the in-place prune `foreach` computes the pruned array |
| TranslationStore.Submitted | kovacic-translate.php:319-326 | the new table has distinct keys |
| TranslationStore.SubmittedExact | kovacic-translate.php:319-326 | the new table holds a key's submitted value exactly when the key is a current string with a non-empty value |
| TranslationStore.CollectSubmitted | kovacic-translate.php:320-326 | the `foreach` computes that table |
| TranslationStore.SavedTranslationsApply | kovacic-translate.php:319-328 | read back through the map, a saved value applies to its string's normalised text |
| TranslationStore.EditedLanguageExact | kovacic-translate.php:319-328 | after a save the edited language holds exactly the non-empty submitted values for current keys |
| TranslationStore.OthersRestricted | kovacic-translate.php:306-328 | after a save every other language is still there: reset to empty if it was not an array, else its old values for current keys only |
| TranslationStore.SaveKeepsLanguages | kovacic-translate.php:306-328 | a save keeps every language in order and appends the edited one when it is new |
| TranslationStore.SaveTranslationsSpec | kovacic-translate.php:272-331 | each check in the source's order: no permission, missing post id or language, bad nonce, not a page, the default language, an unlisted language each give their own error; a request that passes them all is saved under its post id with StoreTranslations of the stored data, the re-extracted strings and the submitted values; a save implies every check passed |
| TranslationStore.SaveTranslations | kovacic-translate.php:272-331 | the handler, with its two loops, has that outcome |
| LanguageRegistry.InferDefaultLanguage | kovacic-translate.php:541-548 | never false; exactly the lower-cased first two characters of the locale (the whole locale when shorter), or "en" when those are empty or "0" |
| LanguageRegistry.LabelFromCode | kovacic-translate.php:550-560 | the known label of the lower-cased code, else the code upper-cased; non-empty for a non-empty code |
| LanguageRegistry.KnownLabelsNamed | kovacic-translate.php:552-558 | every known label is non-empty |
| LanguageRegistry.LabelFromCodeIgnoresCase | kovacic-translate.php:551 | the label does not depend on the code's case |
| LanguageRegistry.Entry | kovacic-translate.php:246-250 | nothing exactly when the sanitised code is false; otherwise that code, which is valid |
| LanguageRegistry.ParseFormattedLine | kovacic-translate.php:239-250 | a `code \| label` line parses to the code and the sanitised label |
| LanguageRegistry.FormattedLineSplits | kovacic-translate.php:239-240 | such a line splits at its bar into the code and the label |
| LanguageRegistry.SplitAtBar | kovacic-translate.php:239-240 | a line splits at its first bar into the trimmed texts on either side |
| LanguageRegistry.ParseBareCode | kovacic-translate.php:241-250 | a line holding only a code parses to the code, labelled with the sanitised upper-cased code |
| LanguageRegistry.ParseCodeSpaceLabel | kovacic-translate.php:241-250 | a line `code label` without a bar parses to the code and the sanitised label |
| LanguageRegistry.SpaceSplitsLine | kovacic-translate.php:241-245 | such a line splits at its first whitespace |
| LanguageRegistry.SplitLineNoBar | kovacic-translate.php:241-245 | without a bar, a line splits at its first ASCII whitespace |
| LanguageRegistry.KeyCharsSolid | kovacic-translate.php:246 | a valid code has no bar and no whitespace |
| LanguageRegistry.TrimCodeSpace | kovacic-translate.php:240 | a valid code followed by a space trims to the code |
| LanguageRegistry.TrimLeadingSpace | kovacic-translate.php:240 | a leading space makes no difference to `trim` |
| LanguageRegistry.ListLines | kovacic-translate.php:232 | the lines are trimmed and never false, no more than the pieces of the split; the trimmed text of every piece that is not false is among them |
| LanguageRegistry.FilterTrimmed | kovacic-translate.php:232 | trimming and filtering leaves only trimmed, non-false lines, no more than there are pieces |
| LanguageRegistry.FilterTrimmedAppend | kovacic-translate.php:232 | filtering two runs of pieces is filtering each and joining the results |
| LanguageRegistry.FilterTrimmedStep | kovacic-translate.php:232 | one more piece appends its trimmed text exactly when that text is not false |
| LanguageRegistry.FilterTrimmedAt | kovacic-translate.php:232 | a piece whose trimmed text is not false is kept, as that text, after the lines kept from the pieces before it |
| LanguageRegistry.FilterTrimmedInOrder | kovacic-translate.php:232 | two kept pieces appear as lines in the order of the pieces |
| LanguageRegistry.FilterTrimmedGrows | kovacic-translate.php:232 | more pieces never give fewer lines |
| LanguageRegistry.TrimIdempotent | kovacic-translate.php:232 | `trim` is idempotent |
| LanguageRegistry.Collect | kovacic-translate.php:234-251 | the list a `foreach` of assignments builds has distinct keys, all valid when every entry's code is |
| LanguageRegistry.CollectPrefix | kovacic-translate.php:235-250 | one more line assigns its entry or is skipped |
| LanguageRegistry.PutCodes | kovacic-translate.php:250 | assigning a valid code keeps every code valid |
| LanguageRegistry.CollectKeys | kovacic-translate.php:235-251 | a code is listed exactly when some entry carries it |
| LanguageRegistry.CollectLastWins | kovacic-translate.php:250 | a code's label is the one of its last entry |
| LanguageRegistry.ParseAll | kovacic-translate.php:235-251 | each line parsed in order, with valid codes |
| LanguageRegistry.ParsedLanguages | kovacic-translate.php:234-251 | the parsed list has distinct, valid codes |
| LanguageRegistry.ParsedKeys | kovacic-translate.php:246-250 | a code is listed exactly when some line parses to it; codes that sanitise to false are dropped |
| LanguageRegistry.LastLineWins | kovacic-translate.php:250 | the last line with a code sets its label |
| LanguageRegistry.CollectLines | kovacic-translate.php:234-251 | the line `foreach` computes the parsed list |
| LanguageRegistry.ChooseDefault | kovacic-translate.php:253-259 | the submitted code if listed, else the first code; with no codes, the inferred one, added with its known label; the list is then non-empty and contains the default |
| LanguageRegistry.SaveLanguages | kovacic-translate.php:224-265 | refused exactly without permission or a valid nonce; otherwise the lines' parse with the chosen default, a non-empty list that contains it |
| LanguageRegistry.FormatAll | kovacic-translate.php:82-83 | one `code \| label` line per language, in order |
| LanguageRegistry.RenderOverviewText | kovacic-translate.php:81-85 | the overview's loop and `trim` build the textarea text |
| LanguageRegistry.OverviewRoundTrip | kovacic-translate.php:81-85 | the list the overview shows parses back to the same list, for valid codes and plain labels |
| LanguageRegistry.OverviewListsLines | kovacic-translate.php:85 | the lines read back from the textarea are its formatted lines |
| LanguageRegistry.OverviewTextIsJoin | kovacic-translate.php:81-85 | the textarea text is the lines joined by line breaks |
| LanguageRegistry.OverviewLinesJoin | kovacic-translate.php:82-84 | before `trim`, the text is the joined lines plus a final line break |
| LanguageRegistry.JoinTrim | kovacic-translate.php:85 | `trim` removes exactly that final line break |
| LanguageRegistry.JoinEnds | kovacic-translate.php:82-84 | joined text starts and ends where its outer pieces do |
| LanguageRegistry.TrimLastBreak | kovacic-translate.php:85 | trimming text with solid ends plus a line break gives the text |
| LanguageRegistry.FormatLineShape | kovacic-translate.php:83 | a formatted line is trimmed, on one line, and not false |
| LanguageRegistry.FilterTrimmedKeeps | kovacic-translate.php:232 | trimmed, non-false lines pass the filter unchanged |
| LanguageRegistry.CollectDistinct | kovacic-translate.php:234-251 | assigning a list with distinct codes in order rebuilds it |
| LanguageRegistry.OverviewSaveKeepsSettings | kovacic-translate.php:224-265 | saving the overview's list with the current default gives back the same settings |
| LanguageRegistry.CleanAll | kovacic-translate.php:509-515 | each stored pair cleaned in order, with valid codes |
| LanguageRegistry.CleanLanguages | kovacic-translate.php:508-515 | the cleaned list has distinct, valid codes |
| LanguageRegistry.CleanStored | kovacic-translate.php:508-515 | the cleaning `foreach` computes that list |
| LanguageRegistry.SettingsFromClean | kovacic-translate.php:516-523 | the settings always have a non-empty list that contains the default, and only valid codes |
| LanguageRegistry.GetLanguageSettings | kovacic-translate.php:492-524 | the method returns the settings function's value, which is valid |
| LanguageRegistry.DefaultSurvivesCleaning | kovacic-translate.php:516-521 | a stored default with a label that is not false is kept; any other default becomes the first code |
| LanguageRegistry.CurrentLanguage | kovacic-translate.php:465-473 | the sanitised cookie when it is not false and is listed, else the default; a listed code whenever the default is |
| LanguageRegistry.ShortLabel | kovacic-translate.php:480-490 | exactly the label's first word (up to the first ASCII whitespace or hyphen) when it is at most four bytes, and exactly the upper-cased code otherwise |
| LanguageRegistry.FirstWord | kovacic-translate.php:481-485 | `reset(preg_split(...))`: a prefix of the label with no separator, ending at the label's end or at a separator |
| LanguageRegistry.ShortWordIsItsOwnLabel | kovacic-translate.php:485-487 | a one-word label of at most four bytes is its own short label |
| LanguageRegistry.SpanishShortLabel | kovacic-translate.php:486-489 | "Español" is longer than four bytes, so its short label is "ES" |
| MetaBoxSwitcher.PrepareSpanishContent | wp-language-switcher/language-switcher.php:139-147 | unslashed content, kept verbatim with `unfiltered_html`, else passed through `wp_kses_post` |
| MetaBoxSwitcher.StoredDefault | wp-language-switcher/language-switcher.php:121 | a submitted "en" or "es" is kept, any other submitted value becomes "en", and an absent field is stored absent |
| MetaBoxSwitcher.SaveMetaBox | wp-language-switcher/language-switcher.php:99-137 | nothing without a valid nonce, during autosave or without permission; otherwise an empty form deletes, and a non-empty one updates exactly when the switcher is enabled and the prepared content is not false (else deletes); an update stores the prepared content, the sanitised labels with their "English"/"Español" defaults and the checked default language |
| MetaBoxSwitcher.InjectLanguageSwitcher | wp-language-switcher/language-switcher.php:149-194 | content unchanged outside the main loop or without Spanish content, and the switcher rendered otherwise; its default is the stored one when that is "en" or "es", else "en"; exactly that language's button and panel are active; the panels are the content and the Spanish content, the labels the stored ones |
| MetaBoxSwitcher.SaveThenRender | wp-language-switcher/language-switcher.php:118-170 | saved meta renders with the prepared content, opening in Spanish exactly when "es" was submitted |
| UiSwitcher.GetQueryLang | ui-language-switcher/assets/js/ui-language-switcher.js:28-39 | only "en", "es" or "", and non-empty exactly when the lower-cased parameter is one of them |
| UiSwitcher.QueryLangIgnoresCase | ui-language-switcher/assets/js/ui-language-switcher.js:31 | the parameter's case does not matter |
| UiSwitcher.UrlOf | ui-language-switcher/assets/js/ui-language-switcher.js:109 | the page's URL for the language, undefined when there is none |
| UiSwitcher.InitialLanguage | ui-language-switcher/assets/js/ui-language-switcher.js:89-101 | the query language if usable, else the stored preference if usable, else "es" for an "es" default and "en" otherwise; "en" when the choice is unavailable; always available or "en" |
| UiSwitcher.Prefs.constructor | ui-language-switcher/assets/js/ui-language-switcher.js:60 | the shared store starts with the preferences read |
| UiSwitcher.Switcher.TitleFor | ui-language-switcher/assets/js/ui-language-switcher.js:80 | the title is the base title, " (", the language and ")"; the part between the brackets reads back as the language up to case and holds no lower-case ASCII letter |
| UiSwitcher.Switcher.constructor | ui-language-switcher/assets/js/ui-language-switcher.js:74-101 | the container starts in the initial language with title, buttons and iframe in step, and records it as the page's preference (lines 131-136); without a base title the title stays the initial one |
| UiSwitcher.Switcher.ApplyTitle | ui-language-switcher/assets/js/ui-language-switcher.js:76-81 | sets the title for the language, or leaves it when there is no base title |
| UiSwitcher.Switcher.SyncButtons | ui-language-switcher/assets/js/ui-language-switcher.js:82-88 | afterwards a button is active and pressed exactly when its language is the given one; no button's language changes |
| UiSwitcher.Switcher.SetLanguage | ui-language-switcher/assets/js/ui-language-switcher.js:103-113 | nothing for an unavailable or current language; otherwise it switches, shows the page's URL and records the language for this page only, keeping every part of the container in step; without a base title the title is left as it was |

## Left out

- HTML parsing and serialisation (`DOMDocument::loadHTML`, `DOMXPath`, `saveHTML`) are foreign code. The model takes the parsed document as an arena of nodes in document order, and a failed parse as an absent document. `Substitution.ReplaceStringsInHtml` returns the rewritten nodes instead of a serialised string.
- `sha1` is stood in for by the identity on the normalised text. This keeps the one property the code relies on: distinct texts get distinct keys.
- `wp_unslash`, `sanitize_text_field` and `wp_kses_post` are function parameters whose internals are not modelled.
- `sanitize_key` is modelled as lower-casing and keeping `[a-z0-9_-]`.
- These are inputs rather than effects:
  - nonces, capabilities and `DOING_AUTOSAVE` are booleans;
  - the cookie, the locale, the stored option and the post meta are values;
  - the request fields are optional values;
  - `time()` is a parameter.
- The writes (`update_option`, `update_post_meta`, `delete_post_meta`) are returned as outcome values. Redirects, `exit`, `wp_die` messages, hooks and enqueued assets are not modelled.
- The admin screens are not modelled, except the language list's textarea text in `render_overview`.
- `filter_content`, `filter_title`, the menu-item `inject_language_switcher` of kovacic-translate.php and `language_url` are hook glue and URL building, and are not modelled.
- The inline client script of kovacic-translate.php is not modelled. It applies translations from a MutationObserver and a TreeWalker, which is event-driven DOM code.
- The `__()` default labels of the meta box are taken as their untranslated text.
- PHP turns numeric-string array keys into integers. Keys are modelled as strings throughout.
- Stored records of a malformed shape are not modelled. A strings entry is always a record, and a translation table always holds strings.
- In ui-language-switcher.js:
  - `localStorage` and JSON reading and writing become the shared `Prefs` object;
  - `URLSearchParams` becomes an optional parameter value;
  - the container's early exits (no slug, unknown page, no iframe, no buttons) are the constructor's precondition;
  - `resizeFrame`, timers, focus and the iframe `load` listener are layout, and are not modelled.
- The iframe's `src` is modelled as a field that holds the URL last assigned.
- ui-language-switcher/ui-language-switcher.php and wp-language-switcher/assets/js/translation-switcher.js are not part of this model. They hold asset glue and class toggling.
- UiSwitcher.Switcher.TitleFor: upper-cases ASCII letters only. JavaScript's `toUpperCase` also maps other letters, which matters only for a page whose language keys are not ASCII.
- Normalizer.Normalize: keeping the non-whitespace characters and the words is stated only for text without NUL. PHP `trim` strips NUL, but PCRE does not count it as whitespace, so a NUL at either end is dropped although it is not whitespace to the collapse.
- LanguageRegistry.InferDefaultLanguage: takes the first two characters of the locale, where `substr` takes two bytes. The two agree for the ASCII locales WordPress uses.
