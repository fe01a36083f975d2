/**
  replace_strings_in_html: every eligible text node whose normalised key has a
  translation is rewritten in place to its own leading whitespace, the
  translation, and its own trailing whitespace. The walk is defined for any
  normaliser `norm`; the plugin runs it with `Normalize`.
 */
module Substitution {
  import opened Wrappers
  import opened PhpText
  import opened Normalizer
  import opened Dom
  import opened PhpArray
  import opened Extractor

  /** The text node i holds after the walk. */
  function RewrittenValue(norm: string -> string, doc: seq<Node>, i: nat, m: map<string, string>): string
    requires i < |doc|
  {
    var key := NodeKey(norm, doc, i);
    if Counts(norm, doc, i) && key in m then
      LeadingWhitespace(doc[i].value) + m[key] + TrailingWhitespace(doc[i].value)
    else doc[i].value
  }

  /** The document after the walk: only the values of rewritten text nodes differ. */
  function Substituted(norm: string -> string, doc: seq<Node>, m: map<string, string>): (r: seq<Node>)
    ensures SameShape(r, doc)
    ensures forall i :: 0 <= i < |doc| ==> r[i].value == RewrittenValue(norm, doc, i, m)
    ensures forall i :: 0 <= i < |doc| && ParentSkipped(doc, i) ==> r[i] == doc[i]
    ensures forall i :: 0 <= i < |doc| && !(Counts(norm, doc, i) && NodeKey(norm, doc, i) in m) ==> r[i] == doc[i]
  {
    seq(|doc|, i requires 0 <= i < |doc| => doc[i].(value := RewrittenValue(norm, doc, i, m)))
  }

  /** An empty translation map changes no node. */
  lemma EmptyMapChangesNothing(norm: string -> string, doc: seq<Node>)
    ensures Substituted(norm, doc, map[]) == doc
  {
    var r := Substituted(norm, doc, map[]);
    assert forall i :: 0 <= i < |doc| ==> r[i] == doc[i];
  }

  /** Both walks apply the same test: a node the substitution changes has its key in the table the extractor builds. */
  lemma RewrittenNodesAreExtracted(norm: string -> string, doc: seq<Node>, m: map<string, string>, i: nat)
    requires i < |doc| && Substituted(norm, doc, m)[i] != doc[i]
    ensures Counts(norm, doc, i) && NodeKey(norm, doc, i) in m
    ensures HasKey(Extracted(norm, doc, |doc|), KeyOf(NodeKey(norm, doc, i)))
  {
    ExtractedKeys(norm, doc, |doc|, KeyOf(NodeKey(norm, doc, i)));
  }

  /**
    A translation that starts and ends with non-whitespace keeps the node's own
    boundary whitespace: splitting the new value again gives back the old runs
    and the translation between them.
   */
  lemma BoundaryWhitespaceKept(v: string, t: string)
    requires t != [] && t[0] !in PcreUnicodeSpace && t[|t| - 1] !in PcreUnicodeSpace
    ensures LeadingWhitespace(LeadingWhitespace(v) + t + TrailingWhitespace(v)) == LeadingWhitespace(v)
    ensures TrailingWhitespace(LeadingWhitespace(v) + t + TrailingWhitespace(v)) == TrailingWhitespace(v)
  {
    var lead, trail := LeadingWhitespace(v), TrailingWhitespace(v);
    var w := lead + t + trail;
    LeadingRun(v);
    TrailingRun(v);
    AroundMiddle(lead, t, trail);
    LeadingRunIs(w, lead);
    TrailingRunIs(w, trail);
  }

  /** Where the parts of `a + t + b` sit, for a non-empty middle `t`. */
  lemma AroundMiddle(a: string, t: string, b: string)
    requires t != []
    ensures (a + t + b)[..|a|] == a && (a + t + b)[|a|] == t[0]
    ensures (a + t + b)[|a + t + b| - |b|..] == b && (a + t + b)[|a + t + b| - |b| - 1] == t[|t| - 1]
  {
  }

  /** A whitespace prefix followed by a non-whitespace character is the leading run. */
  lemma LeadingRunIs(w: string, lead: string)
    requires |lead| < |w| && w[..|lead|] == lead && w[|lead|] !in PcreUnicodeSpace
    requires forall i :: 0 <= i < |lead| ==> lead[i] in PcreUnicodeSpace
    ensures LeadingWhitespace(w) == lead
  {
    var l := LeadingWhitespace(w);
    LeadingRun(w);
    forall k | 0 <= k < |lead| ensures w[k] in PcreUnicodeSpace {
      assert w[k] == lead[k];
    }
    assert |l| == |lead|;
  }

  /** A whitespace suffix preceded by a non-whitespace character is the trailing run. */
  lemma TrailingRunIs(w: string, trail: string)
    requires |trail| < |w| && w[|w| - |trail|..] == trail && w[|w| - |trail| - 1] !in PcreUnicodeSpace
    requires forall i :: 0 <= i < |trail| ==> trail[i] in PcreUnicodeSpace
    ensures TrailingWhitespace(w) == trail
  {
    var t := TrailingWhitespace(w);
    TrailingRun(w);
    forall k | |w| - |trail| <= k < |w| ensures w[k] in PcreUnicodeSpace {
      assert w[k] == trail[k - (|w| - |trail|)];
    }
    assert |t| == |trail|;
  }

  /**
    A node of whitespace only can still be selected: a lone form feed is not XPath
    whitespace, so the node is selected and its key is " ". Its leading and
    trailing runs are then both the whole value, so a translation of " " is
    written between two copies of it.
   */
  lemma FormFeedNodeDoubled(doc: seq<Node>, m: map<string, string>)
    requires doc == [Node(Text, "#text", "\U{C}", -1)] && m == map[" " := "X"]
    ensures Substituted(Normalize, doc, m)[0].value == "\U{C}X\U{C}"
  {
    assert '\U{C}' in PcreUnicodeSpace && '\U{C}' !in XPathSpace && '\U{C}' !in PhpTrimChars;
    LoneSpaceNodeDoubled(doc, m, '\U{C}', "X");
    FormFeedAroundX();
  }

  lemma FormFeedAroundX()
    ensures ['\U{C}'] + "X" + ['\U{C}'] == "\U{C}X\U{C}"
  {
  }

  /** A node holding one character that is whitespace to PCRE alone gets the translation of " " between two copies of it. */
  lemma LoneSpaceNodeDoubled(doc: seq<Node>, m: map<string, string>, c: char, t: string)
    requires c in PcreUnicodeSpace && c !in XPathSpace && c !in PhpTrimChars && c != Nbsp
    requires |doc| == 1 && doc[0].kind == Text && doc[0].value == [c] && doc[0].parent < 0
    requires m == map[" " := t]
    ensures Substituted(Normalize, doc, m)[0].value == [c] + t + [c]
  {
    LoneSpaceNormalizes(c);
    assert doc[0].value[0] !in XPathSpace;
    assert Counts(Normalize, doc, 0);
    LoneSpaceRuns(c);
  }

  /** A single whitespace character is both its value's leading run and its trailing run. */
  lemma LoneSpaceRuns(c: char)
    requires c in PcreUnicodeSpace
    ensures LeadingWhitespace([c]) == [c] && TrailingWhitespace([c]) == [c]
  {
    assert [c][1..] == [] && [c][..0] == [];
  }

  /** The document replace_strings_in_html produces: the input itself when parsing fails. */
  datatype Rendered = Unchanged(html: string) | Serialized(nodes: seq<Node>)

  /** The `foreach` of replace_strings_in_html, writing each node's value in place. */
  method RewriteTextNodes(norm: string -> string, a: array<Node>, m: map<string, string>)
    modifies a
    ensures a[..] == Substituted(norm, old(a[..]), m)
  {
    ghost var d := a[..];
    ghost var r := Substituted(norm, d, m);
    var i := 0;
    while i < a.Length
      invariant 0 <= i <= a.Length
      invariant a[..i] == r[..i]
      invariant forall j :: i <= j < a.Length ==> a[j] == d[j]
    {
      forall j | 0 <= j < a.Length ensures a[j].name == d[j].name {
        if j < i {
          assert a[j] == a[..i][j] == r[j];
        }
      }
      RewriteNode(norm, a, m, i, d);
      assert a[..i + 1] == a[..i] + [a[i]];
      assert r[..i + 1] == r[..i] + [r[i]];
      i := i + 1;
    }
    assert a[..] == r;
  }

  /** One pass of the loop: node i gets the value the walk gives it, and no other node changes. */
  method RewriteNode(norm: string -> string, a: array<Node>, m: map<string, string>, i: nat, ghost d: seq<Node>)
    requires i < a.Length == |d| && a[i] == d[i]
    requires forall j :: 0 <= j < a.Length ==> a[j].name == d[j].name
    modifies a
    ensures a[i] == d[i].(value := RewrittenValue(norm, d, i, m))
    ensures forall j :: 0 <= j < a.Length && j != i ==> a[j] == old(a[j])
  {
    var node := a[i];
    var p := node.parent;
    var skipped := 0 <= p < a.Length && Lower(a[p].name) in SkipTags;
    assert skipped == ParentSkipped(d, i);
    if Selected(node) && !skipped {
      var original := node.value;
      var normalized := norm(original);
      if normalized != "" && normalized in m {
        a[i] := node.(value := LeadingWhitespace(original) + m[normalized] + TrailingWhitespace(original));
      }
    }
  }

  /** replace_strings_in_html: the HTML unchanged on a parse failure, else the rewritten document. */
  method ReplaceStringsInHtml(html: string, doc: Option<array<Node>>, m: map<string, string>) returns (out: Rendered)
    modifies if doc.Some? then {doc.value} else {}
    ensures doc.None? ==> out == Unchanged(html)
    ensures doc.Some? ==> doc.value[..] == Substituted(Normalize, old(doc.value[..]), m) && out == Serialized(doc.value[..])
  {
    if doc.None? {
      return Unchanged(html);
    }
    RewriteTextNodes(Normalize, doc.value, m);
    out := Serialized(doc.value[..]);
  }
}
