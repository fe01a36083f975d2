/**
  The normaliser that turns a text fragment into its lookup key, and the
  boundary-whitespace splitter the substitution engine uses to keep a node's own
  leading and trailing whitespace (kovacic-translate.php, normalize_string,
  leading_whitespace, trailing_whitespace).
 */
module Normalizer {
  import opened PhpText

  /** U+00A0, the code point of the UTF-8 bytes C2 A0 that normalize_string replaces. */
  const Nbsp: char := '\U{A0}'

  /** `str_replace("\xC2\xA0", ' ', s)`. */
  function ReplaceNbsp(s: string): (r: string)
    ensures |r| == |s|
    ensures Nbsp !in r
    ensures forall i :: 0 <= i < |s| ==> r[i] == (if s[i] == Nbsp then ' ' else s[i])
  {
    seq(|s|, i requires 0 <= i < |s| => if s[i] == Nbsp then ' ' else s[i])
  }

  /** The characters of `s` outside the class `w`, in order. */
  function NonSpace(s: string, w: set<char>): string
    decreases |s|
  {
    if s == [] then [] else (if s[0] in w then [] else [s[0]]) + NonSpace(s[1..], w)
  }

  lemma {:induction false} NonSpaceConcat(a: string, b: string, w: set<char>)
    ensures NonSpace(a + b, w) == NonSpace(a, w) + NonSpace(b, w)
    decreases |a|
  {
    if a != [] {
      assert (a + b)[0] == a[0];
      assert (a + b)[1..] == a[1..] + b;
      NonSpaceConcat(a[1..], b, w);
    } else {
      assert a + b == b;
    }
  }

  lemma {:induction false} NonSpaceOfSpaces(s: string, w: set<char>)
    requires forall i :: 0 <= i < |s| ==> s[i] in w
    ensures NonSpace(s, w) == []
    decreases |s|
  {
    if s != [] {
      NonSpaceOfSpaces(s[1..], w);
    }
  }

  /**
    What a collapsed text keeps when one character is put in front of it: the
    character is a space if it is whitespace at all, and it does not sit next
    to another whitespace character.
   */
  lemma PrependCollapsed(c: char, rest: string, w: set<char>)
    requires c in w ==> c == ' '
    requires c in w && rest != [] ==> rest[0] !in w
    requires forall i :: 0 <= i < |rest| ==> rest[i] in w ==> rest[i] == ' '
    requires forall i :: 0 <= i < |rest| - 1 ==> !(rest[i] in w && rest[i + 1] in w)
    ensures var r := [c] + rest;
      (forall i :: 0 <= i < |r| ==> r[i] in w ==> r[i] == ' ') &&
      (forall i :: 0 <= i < |r| - 1 ==> !(r[i] in w && r[i + 1] in w)) &&
      r[0] == c && r[|r| - 1] == (if rest == [] then c else rest[|rest| - 1]) &&
      (c != Nbsp && Nbsp !in rest ==> Nbsp !in r)
  {
    var r := [c] + rest;
    assert forall i :: 1 <= i < |r| ==> r[i] == rest[i - 1];
  }

  /** What is left after dropping a leading whitespace character and the whitespace after it. */
  lemma TrimLeftOfTail(s: string, w: set<char>)
    requires s != [] && s[0] in w
    ensures var t := TrimLeft(s[1..], w);
      (t == [] ==> s[|s| - 1] in w) && (t != [] ==> t[|t| - 1] == s[|s| - 1]) &&
      (Nbsp !in s ==> Nbsp !in t)
  {
    var t := TrimLeft(s[1..], w);
    assert forall i :: 0 <= i < |t| ==> t[i] == s[|s| - |t| + i];
  }

  /**
    `preg_replace('/\s+/u', ' ', s)` with `\s` standing for the class `w`: every
    maximal run of characters of `w` becomes a single space, and every other
    character is kept, in order.
   */
  function Collapse(s: string, w: set<char>): (r: string)
    requires ' ' in w
    ensures Nbsp !in s ==> Nbsp !in r
    ensures forall i :: 0 <= i < |r| ==> r[i] in w ==> r[i] == ' '
    ensures forall i, j :: 0 <= i && j == i + 1 && j < |r| ==> !(r[i] in w && r[j] in w)
    ensures s == [] <==> r == []
    ensures s != [] ==> r[0] == (if s[0] in w then ' ' else s[0])
    ensures s != [] ==> r[|r| - 1] == (if s[|s| - 1] in w then ' ' else s[|s| - 1])
    decreases |s|
  {
    if s == [] then []
    else if s[0] in w then
      var t := TrimLeft(s[1..], w);
      TrimLeftOfTail(s, w);
      var rest := Collapse(t, w);
      PrependCollapsed(' ', rest, w);
      [' '] + rest
    else
      var rest := Collapse(s[1..], w);
      PrependCollapsed(s[0], rest, w);
      [s[0]] + rest
  }

  /** The last character of a collapsed text is the last one of the text, as a space when it is whitespace. */
  lemma CollapseLast(s: string, w: set<char>)
    requires ' ' in w && s != []
    ensures var r := Collapse(s, w); r != [] && r[|r| - 1] == (if s[|s| - 1] in w then ' ' else s[|s| - 1])
  {
  }

  /**
    Collapsing keeps the words: each maximal run of whitespace becomes one space,
    so no two words merge and no word splits.
   */
  lemma {:induction false} CollapseKeepsWords(s: string, w: set<char>)
    requires ' ' in w
    ensures Words(Collapse(s, w), w) == Words(s, w)
    decreases |s|
  {
    if s != [] {
      var r := Collapse(s, w);
      WordsStep(r, w);
      WordsStep(s, w);
      if s[0] in w {
        var t := TrimLeft(s[1..], w);
        assert r[1..] == Collapse(t, w);
        CollapseKeepsWords(t, w);
        WordsTrimLeft(s[1..], w);
      } else {
        assert r[1..] == Collapse(s[1..], w);
        CollapseKeepsWords(s[1..], w);
      }
    }
  }

  /** Whitespace dropped from the front does not change the words. */
  lemma {:induction false} WordsTrimLeft(s: string, w: set<char>)
    ensures Words(TrimLeft(s, w), w) == Words(s, w)
    decreases |s|
  {
    if s != [] && s[0] in w {
      WordsTrimLeft(s[1..], w);
    }
  }

  /** Collapsing keeps every non-whitespace character, in order. */
  lemma {:induction false} CollapseKeepsNonSpace(s: string, w: set<char>)
    requires ' ' in w
    ensures NonSpace(Collapse(s, w), w) == NonSpace(s, w)
    decreases |s|
  {
    if s != [] {
      if s[0] in w {
        var t := TrimLeft(s[1..], w);
        var k := |s| - 1 - |t|;
        assert s[1..] == s[1..][..k] + t;
        NonSpaceOfSpaces(s[1..][..k], w);
        NonSpaceConcat(s[1..][..k], t, w);
        CollapseKeepsNonSpace(t, w);
        NonSpaceConcat([' '], Collapse(t, w), w);
      } else {
        CollapseKeepsNonSpace(s[1..], w);
        NonSpaceConcat([s[0]], Collapse(s[1..], w), w);
      }
    }
  }

  /** A string whose every whitespace is a lone space is left alone by Collapse. */
  lemma {:induction false} CollapseFixpoint(s: string, w: set<char>)
    requires ' ' in w
    requires forall i :: 0 <= i < |s| ==> s[i] in w ==> s[i] == ' '
    requires forall i :: 0 <= i < |s| - 1 ==> !(s[i] in w && s[i + 1] in w)
    ensures Collapse(s, w) == s
    decreases |s|
  {
    if s != [] {
      CollapseFixpoint(s[1..], w);
      if s[0] in w {
        assert TrimLeft(s[1..], w) == s[1..];
      }
    }
  }

  /** Length of the longest prefix of `s` free of characters of `w`. */
  function WordLen(s: string, w: set<char>): (n: nat)
    ensures n <= |s|
    ensures forall i :: 0 <= i < n ==> s[i] !in w
    ensures n < |s| ==> s[n] in w
    decreases |s|
  {
    if s == [] || s[0] in w then 0 else 1 + WordLen(s[1..], w)
  }

  /** The words of `s`: its maximal runs of characters outside `w`, in order. */
  function Words(s: string, w: set<char>): seq<string>
    decreases |s|
  {
    if s == [] then []
    else if s[0] in w then Words(s[1..], w)
    else
      var n := WordLen(s, w);
      [s[..n]] + Words(s[n..], w)
  }

  /**
    The words of `[c] + x` for a `c` outside the class, given the words of `x`:
    `c` starts the first word of `x` when `x` begins with a word, else it is a
    word of its own.
   */
  function ConsWord(c: char, joins: bool, ws: seq<string>): seq<string> {
    if joins && ws != [] then [[c] + ws[0]] + ws[1..] else [[c]] + ws
  }

  /** Words, one character at a time. */
  lemma WordsStep(s: string, w: set<char>)
    requires s != []
    ensures Words(s, w) ==
      if s[0] in w then Words(s[1..], w) else ConsWord(s[0], |s| > 1 && s[1] !in w, Words(s[1..], w))
  {
    if s[0] !in w {
      var x := s[1..];
      var m := WordLen(x, w);
      assert WordLen(s, w) == 1 + m;
      if |s| > 1 && s[1] !in w {
        assert Words(x, w) == [x[..m]] + Words(x[m..], w);
        assert s[..1 + m] == [s[0]] + x[..m];
        assert s[1 + m..] == x[m..];
      } else {
        assert s[..1] == [s[0]];
      }
    }
  }

  /** Text made only of whitespace has no words. */
  lemma {:induction false} WordsOfSpaces(s: string, w: set<char>)
    requires forall i :: 0 <= i < |s| ==> s[i] in w
    ensures Words(s, w) == []
    decreases |s|
  {
    if s != [] {
      WordsOfSpaces(s[1..], w);
    }
  }

  /** Whitespace in front of a text does not change its words. */
  lemma {:induction false} WordsDropLeading(x: string, y: string, w: set<char>)
    requires forall i :: 0 <= i < |x| ==> x[i] in w
    ensures Words(x + y, w) == Words(y, w)
    decreases |x|
  {
    if x == [] {
      assert x + y == y;
    } else {
      assert (x + y)[1..] == x[1..] + y;
      WordsDropLeading(x[1..], y, w);
    }
  }

  /** Whitespace after a text does not change its words. */
  lemma {:induction false} WordsDropTrailing(x: string, y: string, w: set<char>)
    requires forall i :: 0 <= i < |y| ==> y[i] in w
    ensures Words(x + y, w) == Words(x, w)
    decreases |x|
  {
    if x == [] {
      assert x + y == y;
      WordsOfSpaces(y, w);
    } else {
      WordsStep(x + y, w);
      WordsStep(x, w);
      assert (x + y)[1..] == x[1..] + y;
      WordsDropTrailing(x[1..], y, w);
    }
  }

  /**
    Two texts of one length, with whitespace at the same positions and the same
    characters elsewhere, have the same words.
   */
  lemma {:induction false} WordsAlike(s: string, r: string, w: set<char>)
    requires |s| == |r|
    requires forall i :: 0 <= i < |s| ==> (s[i] in w <==> r[i] in w) && (s[i] !in w ==> r[i] == s[i])
    ensures Words(r, w) == Words(s, w)
    decreases |s|
  {
    if s != [] {
      WordsStep(s, w);
      WordsStep(r, w);
      WordsAlike(s[1..], r[1..], w);
    }
  }

  /** Trimming characters that are whitespace of class `w` keeps the words of class `w`. */
  lemma WordsTrim(u: string, t: set<char>, w: set<char>)
    requires forall i :: 0 <= i < |u| ==> u[i] in t ==> u[i] in w
    ensures Words(TrimWith(u, t), w) == Words(u, w)
  {
    var l := TrimLeft(u, t);
    WordsTrimLeftWith(u, t, w);
    SliceWithin(u, |u| - |l|, t, w);
    WordsTrimRightWith(l, t, w);
  }

  /** Trimming `t` from the front drops a prefix made of characters of `w`. */
  lemma TrimLeftSplit(u: string, t: set<char>, w: set<char>)
    requires forall i :: 0 <= i < |u| ==> u[i] in t ==> u[i] in w
    ensures var k := |u| - |TrimLeft(u, t)|;
      u[..k] + TrimLeft(u, t) == u && forall i :: 0 <= i < k ==> u[..k][i] in w
  {
  }

  /** Trimming `t` from the back drops a suffix made of characters of `w`. */
  lemma TrimRightSplit(u: string, t: set<char>, w: set<char>)
    requires forall i :: 0 <= i < |u| ==> u[i] in t ==> u[i] in w
    ensures var k := |TrimRight(u, t)|;
      TrimRight(u, t) + u[k..] == u && forall i :: 0 <= i < |u| - k ==> u[k..][i] in w
  {
  }

  /** A slice keeps the property that characters of `t` are characters of `w`. */
  lemma SliceWithin(u: string, a: nat, t: set<char>, w: set<char>)
    requires a <= |u|
    requires forall i :: 0 <= i < |u| ==> u[i] in t ==> u[i] in w
    ensures forall i :: 0 <= i < |u[a..]| ==> u[a..][i] in t ==> u[a..][i] in w
  {
  }

  lemma WordsTrimLeftWith(u: string, t: set<char>, w: set<char>)
    requires forall i :: 0 <= i < |u| ==> u[i] in t ==> u[i] in w
    ensures Words(TrimLeft(u, t), w) == Words(u, w)
  {
    var l := TrimLeft(u, t);
    var k := |u| - |l|;
    TrimLeftSplit(u, t, w);
    WordsDropLeading(u[..k], l, w);
  }

  lemma WordsTrimRightWith(u: string, t: set<char>, w: set<char>)
    requires forall i :: 0 <= i < |u| ==> u[i] in t ==> u[i] in w
    ensures Words(TrimRight(u, t), w) == Words(u, w)
  {
    var r := TrimRight(u, t);
    TrimRightSplit(u, t, w);
    WordsDropTrailing(r, u[|r|..], w);
  }

  /**
    normalize_string with its two character classes as parameters: NBSP becomes a
    space, `trim` strips the class `trimSet`, and the regular expression collapses
    runs of the class `spaceSet`.
   */
  function NormalizeWith(s: string, trimSet: set<char>, spaceSet: set<char>): string
    requires ' ' in spaceSet
  {
    Collapse(TrimWith(ReplaceNbsp(s), trimSet), spaceSet)
  }

  /** A character normalize_string removes from the ends of a value: a `trim` character or NBSP. */
  predicate Stripped(c: char) {
    c in PhpTrimChars || c == Nbsp
  }

  /** Every character of `s` is stripped. */
  predicate AllStripped(s: string) {
    forall j :: 0 <= j < |s| ==> Stripped(s[j])
  }

  /**
    After the NBSP fold and `trim`, the text starts with the value's first
    character that is not stripped.
   */
  lemma FoldTrimStart(value: string, i: nat)
    requires i < |value| && !Stripped(value[i])
    requires AllStripped(value[..i])
    ensures var r := TrimWith(ReplaceNbsp(value), PhpTrimChars); r != [] && r[0] == value[i]
  {
    var u := ReplaceNbsp(value);
    assert u[i] == value[i] && u[i] !in PhpTrimChars;
    forall j | 0 <= j < i ensures u[j] in PhpTrimChars {
      assert Stripped(value[..i][j]);
    }
    TrimStartsAt(u, PhpTrimChars, i);
  }

  /**
    After the NBSP fold and `trim`, the text ends with the value's last character
    that is not stripped.
   */
  lemma FoldTrimEnd(value: string, i: nat)
    requires i < |value| && !Stripped(value[i])
    requires AllStripped(value[i + 1..])
    ensures var r := TrimWith(ReplaceNbsp(value), PhpTrimChars); r != [] && r[|r| - 1] == value[i]
  {
    var u := ReplaceNbsp(value);
    assert u[i] == value[i] && u[i] !in PhpTrimChars;
    forall j | i < j < |u| ensures u[j] in PhpTrimChars {
      assert Stripped(value[i + 1..][j - i - 1]);
    }
    TrimEndsAt(u, PhpTrimChars, i);
  }

  /**
    normalize_string's steps at the start: the key starts with the first character
    the NBSP fold and `trim` keep, turned into a space when it is whitespace to the
    collapse.
   */
  lemma NormalizedStart(value: string, w: set<char>)
    requires ' ' in w
    ensures var key := Collapse(TrimWith(ReplaceNbsp(value), PhpTrimChars), w);
      forall i :: 0 <= i < |value| && !Stripped(value[i]) && AllStripped(value[..i]) ==>
        key != [] && key[0] == (if value[i] in w then ' ' else value[i])
  {
    var key := Collapse(TrimWith(ReplaceNbsp(value), PhpTrimChars), w);
    forall i | 0 <= i < |value| && !Stripped(value[i]) && AllStripped(value[..i])
      ensures key != [] && key[0] == (if value[i] in w then ' ' else value[i])
    {
      FoldTrimStart(value, i);
    }
  }

  /** The same at the end: the key ends with the last character the fold and `trim` keep. */
  lemma NormalizedEnd(value: string, w: set<char>)
    requires ' ' in w
    ensures var key := Collapse(TrimWith(ReplaceNbsp(value), PhpTrimChars), w);
      forall i :: 0 <= i < |value| && !Stripped(value[i]) && AllStripped(value[i + 1..]) ==>
        key != [] && key[|key| - 1] == (if value[i] in w then ' ' else value[i])
  {
    var key := Collapse(TrimWith(ReplaceNbsp(value), PhpTrimChars), w);
    forall i | 0 <= i < |value| && !Stripped(value[i]) && AllStripped(value[i + 1..])
      ensures key != [] && key[|key| - 1] == (if value[i] in w then ' ' else value[i])
    {
      FoldTrimEnd(value, i);
      CollapseLast(TrimWith(ReplaceNbsp(value), PhpTrimChars), w);
    }
  }

  /** normalize_string as written: PHP's `trim` set and PCRE's Unicode `\s` class. */
  function Normalize(value: string): (key: string)
    ensures Nbsp !in key
    ensures forall i :: 0 <= i < |key| ==> key[i] in PcreUnicodeSpace ==> key[i] == ' '
    ensures forall i :: 0 <= i < |key| - 1 ==> !(key[i] in PcreUnicodeSpace && key[i + 1] in PcreUnicodeSpace)
    ensures key == [] <==> forall i :: 0 <= i < |value| ==> value[i] == Nbsp || value[i] in PhpTrimChars
    ensures '\U{0}' !in value ==> NonSpace(key, PcreUnicodeSpace) == NonSpace(value, PcreUnicodeSpace)
    ensures '\U{0}' !in value ==> Words(key, PcreUnicodeSpace) == Words(value, PcreUnicodeSpace)
    ensures forall i :: 0 <= i < |value| && !Stripped(value[i]) && AllStripped(value[..i]) ==>
      key != [] && key[0] == (if value[i] in PcreUnicodeSpace then ' ' else value[i])
    ensures forall i :: 0 <= i < |value| && !Stripped(value[i]) && AllStripped(value[i + 1..]) ==>
      key != [] && key[|key| - 1] == (if value[i] in PcreUnicodeSpace then ' ' else value[i])
  {
    var u := ReplaceNbsp(value);
    var t := TrimWith(u, PhpTrimChars);
    NormalizedStart(value, PcreUnicodeSpace);
    NormalizedEnd(value, PcreUnicodeSpace);
    NormalizeKeepsNonSpace(value);
    NormalizeKeepsWords(value);
    CollapseKeepsWords(t, PcreUnicodeSpace);
    CollapseKeepsNonSpace(t, PcreUnicodeSpace);
    TrimWithKeepsOut(u, PhpTrimChars, Nbsp);
    Collapse(t, PcreUnicodeSpace)
  }

  /** The position of the value's first character that is not stripped. */
  lemma {:induction false} FirstKept(value: string) returns (i: nat)
    requires exists k :: 0 <= k < |value| && !Stripped(value[k])
    ensures i < |value| && !Stripped(value[i]) && AllStripped(value[..i])
    decreases |value|
  {
    if !Stripped(value[0]) {
      i := 0;
    } else {
      var k :| 0 <= k < |value| && !Stripped(value[k]);
      assert value[1..][k - 1] == value[k];
      var rest := FirstKept(value[1..]);
      i := rest + 1;
      assert value[..i] == [value[0]] + value[1..][..rest];
    }
  }

  /** The position of the value's last character that is not stripped. */
  lemma {:induction false} LastKept(value: string) returns (i: nat)
    requires exists k :: 0 <= k < |value| && !Stripped(value[k])
    ensures i < |value| && !Stripped(value[i]) && AllStripped(value[i + 1..])
    decreases |value|
  {
    var n := |value| - 1;
    if !Stripped(value[n]) {
      i := n;
    } else {
      var k :| 0 <= k < |value| && !Stripped(value[k]);
      assert value[..n][k] == value[k];
      i := LastKept(value[..n]);
      assert value[i + 1..] == value[..n][i + 1..] + [value[n]];
    }
  }

  /**
    When the only whitespace of a value is what `trim` strips and NBSP, its key
    neither starts nor ends with a space: the boundary whitespace is gone.
   */
  lemma NormalizeSolidEnds(value: string)
    requires forall i :: 0 <= i < |value| ==> value[i] in PcreUnicodeSpace ==> Stripped(value[i])
    ensures var key := Normalize(value); key == [] || (key[0] != ' ' && key[|key| - 1] != ' ')
  {
    var key := Normalize(value);
    if key != [] {
      var first := FirstKept(value);
      var last := LastKept(value);
      assert ' ' in PhpTrimChars;
    }
  }

  /** Without NUL characters, every character trim and the NBSP fold touch is whitespace to PCRE. */
  lemma NormalizeKeepsNonSpace(value: string)
    ensures '\U{0}' !in value ==> NonSpace(TrimWith(ReplaceNbsp(value), PhpTrimChars), PcreUnicodeSpace) == NonSpace(value, PcreUnicodeSpace)
  {
    if '\U{0}' !in value {
      var u := ReplaceNbsp(value);
      NonSpaceReplaceNbsp(value);
      assert PhpTrimChars - {'\U{0}'} <= PcreUnicodeSpace;
      assert forall i :: 0 <= i < |u| ==> u[i] != '\U{0}';
      TrimKeepsNonSpace(u, PhpTrimChars, PcreUnicodeSpace);
    }
  }

  /** Without NUL characters, the NBSP fold and `trim` keep the words PCRE sees. */
  lemma NormalizeKeepsWords(value: string)
    ensures '\U{0}' !in value ==> Words(TrimWith(ReplaceNbsp(value), PhpTrimChars), PcreUnicodeSpace) == Words(value, PcreUnicodeSpace)
  {
    if '\U{0}' !in value {
      var u := ReplaceNbsp(value);
      assert Nbsp in PcreUnicodeSpace && ' ' in PcreUnicodeSpace;
      WordsAlike(value, u, PcreUnicodeSpace);
      assert PhpTrimChars - {'\U{0}'} <= PcreUnicodeSpace;
      assert forall i :: 0 <= i < |u| ==> u[i] != '\U{0}';
      WordsTrim(u, PhpTrimChars, PcreUnicodeSpace);
    }
  }

  /** Trimming characters that are all whitespace of class `w` keeps the non-whitespace of class `w`. */
  lemma TrimKeepsNonSpace(u: string, t: set<char>, w: set<char>)
    requires forall i :: 0 <= i < |u| ==> u[i] in t ==> u[i] in w
    ensures NonSpace(TrimWith(u, t), w) == NonSpace(u, w)
  {
    var l := TrimLeft(u, t);
    TrimLeftKeepsNonSpace(u, t, w);
    SliceWithin(u, |u| - |l|, t, w);
    TrimRightKeepsNonSpace(l, t, w);
  }

  lemma TrimLeftKeepsNonSpace(u: string, t: set<char>, w: set<char>)
    requires forall i :: 0 <= i < |u| ==> u[i] in t ==> u[i] in w
    ensures NonSpace(TrimLeft(u, t), w) == NonSpace(u, w)
  {
    var l := TrimLeft(u, t);
    var k := |u| - |l|;
    TrimLeftSplit(u, t, w);
    NonSpaceConcat(u[..k], l, w);
    NonSpaceOfSpaces(u[..k], w);
  }

  lemma TrimRightKeepsNonSpace(u: string, t: set<char>, w: set<char>)
    requires forall i :: 0 <= i < |u| ==> u[i] in t ==> u[i] in w
    ensures NonSpace(TrimRight(u, t), w) == NonSpace(u, w)
  {
    var r := TrimRight(u, t);
    TrimRightSplit(u, t, w);
    NonSpaceConcat(r, u[|r|..], w);
    NonSpaceOfSpaces(u[|r|..], w);
  }

  lemma {:induction false} NonSpaceReplaceNbsp(s: string)
    ensures NonSpace(ReplaceNbsp(s), PcreUnicodeSpace) == NonSpace(s, PcreUnicodeSpace)
    decreases |s|
  {
    if s != [] {
      assert ReplaceNbsp(s)[1..] == ReplaceNbsp(s[1..]);
      NonSpaceReplaceNbsp(s[1..]);
    }
  }

  /**
    Normalising twice gives the same key as normalising once, provided `trim` and
    the collapsing regular expression agree on what whitespace is.
   */
  lemma NormalizeWithIdempotent(s: string, w: set<char>)
    requires ' ' in w
    ensures NormalizeWith(NormalizeWith(s, w, w), w, w) == NormalizeWith(s, w, w)
  {
    var u := ReplaceNbsp(s);
    var t := TrimWith(u, w);
    var y := Collapse(t, w);
    if y != [] {
      TrimWithKeepsOut(u, w, Nbsp);
      assert ReplaceNbsp(y) == y;
      assert TrimLeft(y, w) == y;
      assert TrimRight(y, w) == y;
      assert TrimWith(y, w) == y;
      CollapseFixpoint(y, w);
    }
  }

  /**
    The classes normalize_string actually uses differ: a leading form feed survives
    `trim` and becomes a leading space, which a second pass then strips.
   */
  lemma NormalizeNotIdempotentOnFormFeed(v: string)
    requires v == "\U{C}Hi"
    ensures Normalize(v) == " Hi"
    ensures Normalize(Normalize(v)) == "Hi"
  {
    FormFeedKeptBySingleNormalize(v);
    SpaceStrippedBySecondNormalize(Normalize(v));
  }

  lemma FormFeedKeptBySingleNormalize(v: string)
    requires v == "\U{C}Hi"
    ensures Normalize(v) == " Hi"
  {
    SolidHi();
    assert v == ['\U{C}'] + "Hi";
    LeadingSpaceNormalizes('\U{C}', "Hi");
  }

  lemma SpaceStrippedBySecondNormalize(v: string)
    requires v == " Hi"
    ensures Normalize(v) == "Hi"
  {
    SolidHi();
    assert v == [' '] + "Hi";
    LeadingTrimmedNormalizes(' ', "Hi");
  }

  /** No character of "Hi" is whitespace of any of the classes. */
  lemma SolidHi()
    ensures Solid("Hi")
  {
    assert 'H' !in PcreUnicodeSpace && 'i' !in PcreUnicodeSpace;
  }

  /** A non-empty text none of whose characters is whitespace, NUL or NBSP. */
  predicate Solid(s: string) {
    s != [] && forall i :: 0 <= i < |s| ==> s[i] !in PcreUnicodeSpace && s[i] !in PhpTrimChars && s[i] != Nbsp
  }

  /** A whitespace character that `trim` keeps, before a solid text, becomes a space. */
  lemma LeadingSpaceNormalizes(c: char, s: string)
    requires c in PcreUnicodeSpace && c !in PhpTrimChars && c != Nbsp && Solid(s)
    ensures Normalize([c] + s) == [' '] + s
  {
    var v := [c] + s;
    NoNbsp(v);
    assert v[|v| - 1] == s[|s| - 1];
    TrimSolidEnds(v);
    CollapseLeadingRun(c, s, PcreUnicodeSpace);
    CollapseSolid(s, PcreUnicodeSpace);
  }

  /** A character `trim` strips, before a solid text, disappears. */
  lemma LeadingTrimmedNormalizes(c: char, s: string)
    requires c in PhpTrimChars && Solid(s)
    ensures Normalize([c] + s) == s
  {
    var v := [c] + s;
    NoNbsp(v);
    assert v[1..] == s;
    assert TrimLeft(v, PhpTrimChars) == s;
    TrimSolidEnds(s);
    CollapseSolid(s, PcreUnicodeSpace);
  }

  /** A lone form feed survives `trim` and is collapsed to a single space. */
  lemma FormFeedNormalizesToSpace(v: string)
    requires v == "\U{C}"
    ensures Normalize(v) == " "
  {
    LoneSpaceNormalizes('\U{C}');
  }

  /** A lone character that `trim` keeps but PCRE counts as whitespace normalises to a space. */
  lemma LoneSpaceNormalizes(c: char)
    requires c in PcreUnicodeSpace && c !in PhpTrimChars && c != Nbsp
    ensures Normalize([c]) == " "
  {
    NoNbsp([c]);
    TrimSolidEnds([c]);
    assert [c][1..] == [];
  }

  /** A text without NBSP is left alone by the NBSP fold. */
  lemma NoNbsp(s: string)
    requires Nbsp !in s
    ensures ReplaceNbsp(s) == s
  {
  }

  /** A text without whitespace is left alone by Collapse. */
  lemma CollapseSolid(s: string, w: set<char>)
    requires ' ' in w && forall i :: 0 <= i < |s| ==> s[i] !in w
    ensures Collapse(s, w) == s
  {
    CollapseFixpoint(s, w);
  }

  /** One whitespace character before a text that starts with non-whitespace collapses to a space. */
  lemma CollapseLeadingRun(c: char, s: string, w: set<char>)
    requires ' ' in w && c in w && s != [] && s[0] !in w
    ensures Collapse([c] + s, w) == [' '] + Collapse(s, w)
  {
    assert ([c] + s)[1..] == s;
    assert TrimLeft(s, w) == s;
  }

  /** `leading_whitespace`: the match of `/^\s+/u`, or "" when there is none. */
  function LeadingWhitespace(v: string): string {
    v[..|v| - |TrimLeft(v, PcreUnicodeSpace)|]
  }

  /** `trailing_whitespace`: the match of `/\s+$/u`, or "" when there is none. */
  function TrailingWhitespace(v: string): string {
    v[|TrimRight(v, PcreUnicodeSpace)|..]
  }

  /** The leading run is a prefix of whitespace that cannot be extended. */
  lemma LeadingRun(v: string)
    ensures |LeadingWhitespace(v)| <= |v| && LeadingWhitespace(v) == v[..|LeadingWhitespace(v)|]
    ensures forall i :: 0 <= i < |LeadingWhitespace(v)| ==> LeadingWhitespace(v)[i] in PcreUnicodeSpace
    ensures |LeadingWhitespace(v)| < |v| ==> v[|LeadingWhitespace(v)|] !in PcreUnicodeSpace
  {
    var l := TrimLeft(v, PcreUnicodeSpace);
    assert l == [] || l[0] == v[|v| - |l|];
  }

  /** The trailing run is a suffix of whitespace that cannot be extended. */
  lemma TrailingRun(v: string)
    ensures |TrailingWhitespace(v)| <= |v| && TrailingWhitespace(v) == v[|v| - |TrailingWhitespace(v)|..]
    ensures forall i :: 0 <= i < |TrailingWhitespace(v)| ==> TrailingWhitespace(v)[i] in PcreUnicodeSpace
    ensures |TrailingWhitespace(v)| < |v| ==> v[|v| - |TrailingWhitespace(v)| - 1] !in PcreUnicodeSpace
  {
    var r := TrimRight(v, PcreUnicodeSpace);
    assert r == [] || r[|r| - 1] == v[|r| - 1];
  }

  /**
    A value holding some non-whitespace character splits into its leading run, a
    middle that starts and ends with non-whitespace, and its trailing run.
   */
  lemma BoundarySplit(v: string)
    requires exists i :: 0 <= i < |v| && v[i] !in PcreUnicodeSpace
    ensures |LeadingWhitespace(v)| + |TrailingWhitespace(v)| < |v|
    ensures v == LeadingWhitespace(v) + v[|LeadingWhitespace(v)|..|v| - |TrailingWhitespace(v)|] + TrailingWhitespace(v)
    ensures v[|LeadingWhitespace(v)|] !in PcreUnicodeSpace
    ensures v[|v| - |TrailingWhitespace(v)| - 1] !in PcreUnicodeSpace
  {
    var i :| 0 <= i < |v| && v[i] !in PcreUnicodeSpace;
    LeadingRun(v);
    TrailingRun(v);
    RunsEndBefore(v, i);
    SliceThree(v, |LeadingWhitespace(v)|, |v| - |TrailingWhitespace(v)|);
  }

  /** A text is its three consecutive slices put back together. */
  lemma SliceThree(v: string, a: nat, b: nat)
    requires a <= b <= |v|
    ensures v == v[..a] + v[a..b] + v[b..]
  {
  }

  /** A non-whitespace character lies after the leading run and before the trailing run. */
  lemma RunsEndBefore(v: string, i: nat)
    requires i < |v| && v[i] !in PcreUnicodeSpace
    ensures |LeadingWhitespace(v)| <= i < |v| - |TrailingWhitespace(v)|
  {
    var l, r := TrimLeft(v, PcreUnicodeSpace), TrimRight(v, PcreUnicodeSpace);
    assert |LeadingWhitespace(v)| == |v| - |l|;
    assert |TrailingWhitespace(v)| == |v| - |r|;
  }
}
