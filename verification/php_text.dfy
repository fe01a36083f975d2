/**
  The PHP and PCRE string primitives the plugins rely on, over strings of Unicode
  scalar values (a valid UTF-8 PHP byte string read as code points).

  Three different whitespace classes are in play and they do NOT coincide:
  - PHP `trim` strips " \t\n\r\0\x0B";
  - PCRE `\s` under the `/u` modifier (PHP switches on Unicode properties with it)
    matches the characters of category Z (NBSP among them) and those of PCRE's
    horizontal and vertical space lists: \t \n \x0B \f \r, the space, U+0085
    (next line) and U+180E (Mongolian vowel separator);
  - PCRE `\s` without `/u` matches only the six ASCII characters.
 */
module PhpText {
  import opened Wrappers
  import opened SeqFacts

  /** The characters PHP's `trim` strips by default. */
  const PhpTrimChars: set<char> := {' ', '\t', '\n', '\r', '\U{0}', '\U{B}'}

  /** PCRE `\s` without the `/u` modifier. */
  const PcreAsciiSpace: set<char> := {' ', '\t', '\n', '\U{B}', '\U{C}', '\r'}

  /**
    PCRE `\s` with the `/u` modifier: ASCII whitespace, U+0085 and U+180E (which
    PCRE lists as vertical and horizontal space), and the Unicode separators.
   */
  const PcreUnicodeSpace: set<char> := PcreAsciiSpace + {
    '\U{85}', '\U{A0}', '\U{1680}', '\U{180E}',
    '\U{2000}', '\U{2001}', '\U{2002}', '\U{2003}', '\U{2004}', '\U{2005}',
    '\U{2006}', '\U{2007}', '\U{2008}', '\U{2009}', '\U{200A}',
    '\U{2028}', '\U{2029}', '\U{202F}', '\U{205F}', '\U{3000}'}

  /** The whitespace of XPath's normalize-space(). */
  const XPathSpace: set<char> := {' ', '\t', '\r', '\n'}

  /** The strings PHP treats as false in a boolean context: "" and "0". */
  predicate Falsy(s: string) {
    s == "" || s == "0"
  }

  /** Drops the longest prefix made of characters of `w`. */
  function TrimLeft(s: string, w: set<char>): (r: string)
    ensures |r| <= |s| && r == s[|s| - |r|..]
    ensures forall i :: 0 <= i < |s| - |r| ==> s[i] in w
    ensures r == [] || r[0] !in w
    decreases |s|
  {
    if s != [] && s[0] in w then
      var r := TrimLeft(s[1..], w);
      assert forall i :: 1 <= i < |s| ==> s[i] == s[1..][i - 1];
      r
    else s
  }

  /** Drops the longest suffix made of characters of `w`. */
  function TrimRight(s: string, w: set<char>): (r: string)
    ensures |r| <= |s| && r == s[..|r|]
    ensures forall i :: |r| <= i < |s| ==> s[i] in w
    ensures r == [] || r[|r| - 1] !in w
    decreases |s|
  {
    if s != [] && s[|s| - 1] in w then
      var r := TrimRight(s[..|s| - 1], w);
      assert forall i :: 0 <= i < |s| - 1 ==> s[i] == s[..|s| - 1][i];
      r
    else s
  }

  /** Strips characters of `w` from both ends. */
  function TrimWith(s: string, w: set<char>): (r: string)
    ensures |r| <= |s|
    ensures r == [] || (r[0] !in w && r[|r| - 1] !in w)
    ensures r == [] <==> forall i :: 0 <= i < |s| ==> s[i] in w
  {
    var l := TrimLeft(s, w);
    assert l == [] || l[0] == s[|s| - |l|];
    TrimRight(l, w)
  }

  /** Trimming from the front stops at the first character outside the class. */
  lemma TrimLeftStopsAt(s: string, w: set<char>, i: nat)
    requires i < |s| && s[i] !in w
    requires forall j :: 0 <= j < i ==> s[j] in w
    ensures TrimLeft(s, w) == s[i..]
  {
    var r := TrimLeft(s, w);
    var k := |s| - |r|;
    assert k <= i;
    assert r != [] ==> r[0] == s[k];
    assert k == i;
  }

  /** Trimming from the back stops at the last character outside the class. */
  lemma TrimRightStopsAt(s: string, w: set<char>, i: nat)
    requires i < |s| && s[i] !in w
    requires forall j :: i < j < |s| ==> s[j] in w
    ensures TrimRight(s, w) == s[..i + 1]
  {
    var r := TrimRight(s, w);
    assert |r| > i;
    assert r[|r| - 1] == s[|r| - 1];
    assert |r| == i + 1;
  }

  /** Trimming both ends keeps the text from its first character outside the class. */
  lemma TrimStartsAt(s: string, w: set<char>, i: nat)
    requires i < |s| && s[i] !in w
    requires forall j :: 0 <= j < i ==> s[j] in w
    ensures var r := TrimWith(s, w); r != [] && r[0] == s[i]
  {
    TrimLeftStopsAt(s, w, i);
    assert s[i..][0] == s[i];
  }

  /** Trimming both ends keeps the text up to its last character outside the class. */
  lemma TrimEndsAt(s: string, w: set<char>, i: nat)
    requires i < |s| && s[i] !in w
    requires forall j :: i < j < |s| ==> s[j] in w
    ensures var r := TrimWith(s, w); r != [] && r[|r| - 1] == s[i]
  {
    var k := |s| - |TrimLeft(s, w)|;
    assert k <= i;
    SuffixTrimRightStopsAt(s, k, w, i);
    assert s[k..i + 1][i - k] == s[i];
  }

  /** TrimRightStopsAt on the part of `s` from position k. */
  lemma SuffixTrimRightStopsAt(s: string, k: nat, w: set<char>, i: nat)
    requires k <= i < |s| && s[i] !in w
    requires forall j :: i < j < |s| ==> s[j] in w
    ensures TrimRight(s[k..], w) == s[k..i + 1]
  {
    var l := s[k..];
    forall j | i - k < j < |l| ensures l[j] in w {
      assert l[j] == s[j + k];
    }
    TrimRightStopsAt(l, w, i - k);
    assert l[..i - k + 1] == s[k..i + 1];
  }

  /** Trimming adds no character. */
  lemma TrimWithKeepsOut(s: string, w: set<char>, c: char)
    requires c !in s
    ensures c !in TrimWith(s, w)
  {
    var l := TrimLeft(s, w);
    assert c !in l by {
      assert forall i :: 0 <= i < |l| ==> l[i] == s[|s| - |l| + i];
    }
    var r := TrimRight(l, w);
    assert forall i :: 0 <= i < |r| ==> r[i] == l[i];
  }

  /** PHP `trim($s)`. */
  function Trim(s: string): string {
    TrimWith(s, PhpTrimChars)
  }

  /** Index of the first occurrence of `c` in `s`, if any. */
  function IndexOf(s: string, c: char): (r: Option<nat>)
    ensures r.None? <==> c !in s
    ensures r.Some? ==> r.value < |s| && s[r.value] == c && c !in s[..r.value]
  {
    if s == [] then None
    else if s[0] == c then Some(0)
    else match IndexOf(s[1..], c)
      case None => None
      case Some(k) =>
        assert s[..k + 1] == [s[0]] + s[1..][..k];
        Some(k + 1)
  }

  /** Index of the first character of `s` that lies in `w`, if any. */
  function FirstIn(s: string, w: set<char>): (r: Option<nat>)
    ensures r.None? <==> forall i :: 0 <= i < |s| ==> s[i] !in w
    ensures r.Some? ==> r.value < |s| && s[r.value] in w && forall i :: 0 <= i < r.value ==> s[i] !in w
  {
    if s == [] then None
    else if s[0] in w then Some(0)
    else match FirstIn(s[1..], w)
      case None => None
      case Some(k) =>
        assert forall i :: 1 <= i < |s| ==> s[i] == s[1..][i - 1];
        Some(k + 1)
  }

  /** The first position holding a character of `w` is what FirstIn finds. */
  lemma FirstInIs(s: string, w: set<char>, p: nat)
    requires p < |s| && s[p] in w && forall i :: 0 <= i < p ==> s[i] !in w
    ensures FirstIn(s, w) == Some(p)
  {
  }

  /** `explode(c, s)`: the pieces between occurrences of `c`, empty pieces included. */
  function Split(s: string, c: char): (parts: seq<string>)
    ensures |parts| >= 1
    ensures forall i :: 0 <= i < |parts| ==> c !in parts[i]
    decreases |s|
  {
    match IndexOf(s, c)
    case None => [s]
    case Some(p) => [s[..p]] + Split(s[p + 1..], c)
  }

  /** `implode(c, parts)`. */
  function Join(parts: seq<string>, c: char): string
    requires |parts| >= 1
    decreases |parts|
  {
    if |parts| == 1 then parts[0] else parts[0] + [c] + Join(parts[1..], c)
  }

  /** Splitting and joining again on the same separator gives back the string. */
  lemma {:induction false} JoinSplit(s: string, c: char)
    ensures Join(Split(s, c), c) == s
    decreases |s|
  {
    match IndexOf(s, c)
    case None =>
    case Some(p) =>
      JoinSplit(s[p + 1..], c);
      assert Split(s, c)[1..] == Split(s[p + 1..], c);
      assert s == s[..p] + [c] + s[p + 1..];
  }

  /** Joining pieces that do not contain the separator and splitting again gives back the pieces. */
  lemma {:induction false} SplitJoin(parts: seq<string>, c: char)
    requires |parts| >= 1 && forall i :: 0 <= i < |parts| ==> c !in parts[i]
    ensures Split(Join(parts, c), c) == parts
    decreases |parts|
  {
    if |parts| > 1 {
      var s := Join(parts, c);
      var rest := Join(parts[1..], c);
      var tail := parts[1..];
      assert forall i :: 0 <= i < |tail| ==> c !in tail[i];
      FirstSeparator(parts[0], c, rest);
      AroundSeparator(parts[0], c, rest);
      SplitJoin(tail, c);
      HeadAndRest(parts);
    }
  }

  /** The text before and after the separator in `a + [c] + b`. */
  lemma AroundSeparator(a: string, c: char, b: string)
    ensures (a + [c] + b)[..|a|] == a && (a + [c] + b)[|a| + 1..] == b
  {
  }

  /** Joining one more piece adds the separator and the piece at the end. */
  lemma {:induction false} JoinSnoc(parts: seq<string>, x: string, c: char)
    requires |parts| >= 1
    ensures Join(parts + [x], c) == Join(parts, c) + [c] + x
    decreases |parts|
  {
    if |parts| > 1 {
      assert (parts + [x])[1..] == parts[1..] + [x];
      JoinSnoc(parts[1..], x, c);
    }
  }

  /** The first separator of `a + [c] + b` is the one after `a` when `a` has none. */
  lemma {:induction false} FirstSeparator(a: string, c: char, b: string)
    requires c !in a
    ensures IndexOf(a + [c] + b, c) == Some(|a|)
  {
    if a != [] {
      FirstSeparator(a[1..], c, b);
      assert (a + [c] + b)[1..] == a[1..] + [c] + b;
    }
  }

  /** A string whose first and last characters are not trimmed is its own `trim`. */
  lemma TrimSolidEnds(s: string)
    requires s != [] && s[0] !in PhpTrimChars && s[|s| - 1] !in PhpTrimChars
    ensures Trim(s) == s
  {
    assert TrimLeft(s, PhpTrimChars) == s;
    assert TrimRight(s, PhpTrimChars) == s;
  }

  /** ASCII lower-casing of one character (PHP 8 `strtolower` is locale-insensitive). */
  function LowerChar(c: char): char {
    if 'A' <= c <= 'Z' then (c as int + 32) as char else c
  }

  function UpperChar(c: char): char {
    if 'a' <= c <= 'z' then (c as int - 32) as char else c
  }

  /** `strtolower`. */
  function Lower(s: string): (r: string)
    ensures |r| == |s|
    ensures forall i :: 0 <= i < |s| ==> r[i] == LowerChar(s[i])
  {
    seq(|s|, i requires 0 <= i < |s| => LowerChar(s[i]))
  }

  /** `strtoupper`. */
  function Upper(s: string): (r: string)
    ensures |r| == |s|
    ensures forall i :: 0 <= i < |s| ==> r[i] == UpperChar(s[i])
  {
    seq(|s|, i requires 0 <= i < |s| => UpperChar(s[i]))
  }

  /** Lower-casing an upper-cased string gives the lower-cased string. */
  lemma LowerOfUpper(s: string)
    ensures Lower(Upper(s)) == Lower(s)
  {
    forall i | 0 <= i < |s| ensures Lower(Upper(s))[i] == Lower(s)[i] {
      assert LowerChar(UpperChar(s[i])) == LowerChar(s[i]);
    }
  }

  /** The characters WordPress keeps in a key. */
  predicate IsKeyChar(c: char) {
    ('a' <= c <= 'z') || ('0' <= c <= '9') || c == '_' || c == '-'
  }

  /** `preg_replace('/[^a-z0-9_\-]/', '', s)`: the key characters of `s`, in order. */
  function KeepKeyChars(s: string): (r: string)
    ensures |r| <= |s|
    ensures forall i :: 0 <= i < |r| ==> IsKeyChar(r[i])
    ensures (forall i :: 0 <= i < |s| ==> IsKeyChar(s[i])) ==> r == s
    decreases |s|
  {
    if s == [] then []
    else
      assert forall i :: 1 <= i < |s| ==> s[i] == s[1..][i - 1];
      (if IsKeyChar(s[0]) then [s[0]] else []) + KeepKeyChars(s[1..])
  }

  /** Every key character of `s` is kept. */
  lemma {:induction false} KeepKeyCharsKeeps(s: string)
    ensures forall i :: 0 <= i < |s| && IsKeyChar(s[i]) ==> s[i] in KeepKeyChars(s)
    decreases |s|
  {
    if s != [] {
      KeepKeyCharsKeeps(s[1..]);
      assert forall i :: 1 <= i < |s| ==> s[i] == s[1..][i - 1];
    }
  }

  /**
    WordPress `sanitize_key`, in one pass: each character lower-cased and kept when
    it is one of [a-z0-9_-]. It is `strtolower` followed by the `preg_replace`.
   */
  function SanitizeKey(s: string): (r: string)
    ensures r == KeepKeyChars(Lower(s))
    ensures |r| <= |s|
    ensures forall i :: 0 <= i < |r| ==> IsKeyChar(r[i])
    ensures (forall i :: 0 <= i < |s| ==> IsKeyChar(LowerChar(s[i]))) ==> r == Lower(s)
    ensures (forall i :: 0 <= i < |s| ==> IsKeyChar(s[i])) ==> r == s
    decreases |s|
  {
    if s == [] then []
    else
      var c := LowerChar(s[0]);
      assert Lower(s)[0] == c && Lower(s)[1..] == Lower(s[1..]);
      assert (forall i :: 0 <= i < |s| ==> IsKeyChar(s[i])) ==> Lower(s) == s;
      (if IsKeyChar(c) then [c] else []) + SanitizeKey(s[1..])
  }

  /** `sanitize_key` keeps every character that lower-cases to a key character, lower-cased. */
  lemma SanitizeKeyKeeps(s: string)
    ensures forall i :: 0 <= i < |s| && IsKeyChar(LowerChar(s[i])) ==> LowerChar(s[i]) in SanitizeKey(s)
  {
    KeepKeyCharsKeeps(Lower(s));
  }

  /** Case does not matter to `sanitize_key`. */
  lemma SanitizeKeyIgnoresCase(s: string)
    ensures SanitizeKey(Upper(s)) == SanitizeKey(s)
  {
    LowerOfUpper(s);
  }

  /** Number of bytes `c` takes in UTF-8. */
  function Utf8Width(c: char): (n: nat)
    ensures 1 <= n <= 4
    ensures n == 1 <==> c as int < 0x80
  {
    if c as int < 0x80 then 1
    else if c as int < 0x800 then 2
    else if c as int < 0x10000 then 3
    else 4
  }

  /** PHP `strlen` of the UTF-8 encoding of `s`: a byte count, not a character count. */
  function ByteLength(s: string): (n: nat)
    ensures |s| <= n <= 4 * |s|
    ensures n == |s| <==> forall i :: 0 <= i < |s| ==> s[i] as int < 0x80
  {
    if s == [] then 0 else Utf8Width(s[0]) + ByteLength(s[1..])
  }

  /**
    The WordPress sanitisers whose internals are not part of this model:
    `wp_unslash`, `sanitize_text_field` and `wp_kses_post`.
   */
  datatype Sanitizers = Sanitizers(unslash: string -> string, textField: string -> string, kses: string -> string)
}
