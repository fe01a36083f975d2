/**
  extract_strings: the table of translatable strings of a page, keyed by the hash
  of each normalised text, holding the first raw text seen for that key.

  The walk is defined, and its properties proved, for any normaliser `norm`;
  the plugin runs it with `Normalize` (normalize_string). None of the walk's
  properties depends on what the normaliser does.
 */
module Extractor {
  import opened Wrappers
  import opened PhpText
  import opened PhpArray
  import opened Normalizer
  import opened Dom
  import opened SeqFacts

  /**
    One entry of the strings table: the raw text and its normalised form. Entries
    read back from storage may lack 'normalized'; the extractor always fills it.
   */
  datatype StringInfo = StringInfo(original: string, normalized: Option<string>)

  /** The strings table: a PHP array from hash key to entry. */
  type Strings = seq<(string, StringInfo)>

  /**
    The hash key of a normalised text. `sha1` is stood in for by the identity, which
    keeps the one property the code relies on: distinct texts get distinct keys.
   */
  function KeyOf(normalized: string): string {
    normalized
  }

  /** The lookup key of node i under the normaliser `norm`. */
  function NodeKey(norm: string -> string, doc: seq<Node>, i: nat): string
    requires i < |doc|
  {
    norm(doc[i].value)
  }

  /** Node i contributes a string: it is eligible and its key is not empty. */
  predicate Counts(norm: string -> string, doc: seq<Node>, i: nat)
    requires i < |doc|
  {
    Eligible(doc, i) && NodeKey(norm, doc, i) != ""
  }

  /** An entry as the extractor writes it. */
  predicate WellFormed(norm: string -> string, e: (string, StringInfo)) {
    norm(e.1.original) != "" &&
    e.1.normalized == Some(norm(e.1.original)) &&
    e.0 == KeyOf(norm(e.1.original))
  }

  /**
    The strings table after the walk has visited the first n nodes: a node that
    counts adds an entry unless its key is already present.
   */
  function Extracted(norm: string -> string, doc: seq<Node>, n: nat): (r: Strings)
    requires n <= |doc|
    ensures UniqueKeys(r)
    ensures |r| <= n
  {
    if n == 0 then []
    else
      var r := Extracted(norm, doc, n - 1);
      var key := KeyOf(NodeKey(norm, doc, n - 1));
      if Counts(norm, doc, n - 1) && Get(r, key).None? then
        var e := (key, StringInfo(doc[n - 1].value, Some(NodeKey(norm, doc, n - 1))));
        assert forall j :: 0 <= j < |r| ==> r[j].0 != key;
        r + [e]
      else r
  }

  /** Every entry of the table is keyed and filled as the extractor writes entries. */
  lemma {:induction false} ExtractedWellFormed(norm: string -> string, doc: seq<Node>, n: nat)
    requires n <= |doc|
    ensures forall j :: 0 <= j < |Extracted(norm, doc, n)| ==> WellFormed(norm, Extracted(norm, doc, n)[j])
  {
    if n > 0 {
      ExtractedWellFormed(norm, doc, n - 1);
      ExtractedStep(norm, doc, n - 1);
      var r := Extracted(norm, doc, n - 1);
      if Counts(norm, doc, n - 1) && !HasKey(r, KeyOf(NodeKey(norm, doc, n - 1))) {
        var e := (KeyOf(NodeKey(norm, doc, n - 1)), StringInfo(doc[n - 1].value, Some(NodeKey(norm, doc, n - 1))));
        assert WellFormed(norm, e);
        AllAppended(r, e, x => WellFormed(norm, x));
      }
    }
  }

  /** extract_strings on an HTML string and its parse (None when parsing fails). */
  function ExtractStringsSpec(html: string, doc: Option<seq<Node>>): Strings {
    if Falsy(html) then []
    else match doc
      case None => []
      case Some(d) => Extracted(Normalize, d, |d|)
  }

  /** extract_strings: nothing for a falsy HTML string or a failed parse, else the walk. */
  method ExtractStrings(html: string, doc: Option<array<Node>>) returns (strings: Strings)
    ensures strings == ExtractStringsSpec(html, if doc.Some? then Some(doc.value[..]) else None)
  {
    strings := [];
    if Falsy(html) {
      return;
    }
    if doc.None? {
      return;
    }
    strings := WalkTextNodes(Normalize, doc.value);
  }

  /** The `foreach` over the selected text nodes of extract_strings, in document order. */
  method WalkTextNodes(norm: string -> string, a: array<Node>) returns (strings: Strings)
    ensures strings == Extracted(norm, a[..], a.Length)
  {
    strings := [];
    var i := 0;
    while i < a.Length
      invariant 0 <= i <= a.Length
      invariant strings == Extracted(norm, a[..], i)
    {
      VisitNode(norm, a[..], i, strings);
      if Eligible(a[..], i) {
        var value := a[i].value;
        var normalized := norm(value);
        if normalized != "" {
          var key := KeyOf(normalized);
          if Get(strings, key).None? {
            strings := strings + [(key, StringInfo(value, Some(normalized)))];
          }
        }
      }
      i := i + 1;
    }
  }

  /** The loop body of the walk, stated on the values it reads. */
  lemma VisitNode(norm: string -> string, doc: seq<Node>, i: nat, strings: Strings)
    requires i < |doc| && strings == Extracted(norm, doc, i)
    ensures Extracted(norm, doc, i + 1) ==
      if Eligible(doc, i) && norm(doc[i].value) != "" && Get(strings, KeyOf(norm(doc[i].value))).None?
      then strings + [(KeyOf(norm(doc[i].value)), StringInfo(doc[i].value, Some(norm(doc[i].value))))]
      else strings
  {
  }

  /** One step of the walk, as the loop body takes it. */
  lemma ExtractedStep(norm: string -> string, doc: seq<Node>, i: nat)
    requires i < |doc|
    ensures !Counts(norm, doc, i) ==> Extracted(norm, doc, i + 1) == Extracted(norm, doc, i)
    ensures Counts(norm, doc, i) && HasKey(Extracted(norm, doc, i), KeyOf(NodeKey(norm, doc, i))) ==> Extracted(norm, doc, i + 1) == Extracted(norm, doc, i)
    ensures Counts(norm, doc, i) && !HasKey(Extracted(norm, doc, i), KeyOf(NodeKey(norm, doc, i))) ==>
      Extracted(norm, doc, i + 1) == Extracted(norm, doc, i) + [(KeyOf(NodeKey(norm, doc, i)), StringInfo(doc[i].value, Some(NodeKey(norm, doc, i))))]
  {
  }

  /** A key is in the table exactly when some visited node that counts has it. */
  lemma {:induction false} ExtractedKeys(norm: string -> string, doc: seq<Node>, n: nat, k: string)
    requires n <= |doc|
    ensures HasKey(Extracted(norm, doc, n), k) <==> exists i :: 0 <= i < n && Counts(norm, doc, i) && KeyOf(NodeKey(norm, doc, i)) == k
  {
    if n > 0 {
      ExtractedKeys(norm, doc, n - 1, k);
      ExtractedStep(norm, doc, n - 1);
      var r := Extracted(norm, doc, n - 1);
      var key := KeyOf(NodeKey(norm, doc, n - 1));
      if Counts(norm, doc, n - 1) && !HasKey(r, key) {
        HasKeyAppend(r, (key, StringInfo(doc[n - 1].value, Some(NodeKey(norm, doc, n - 1)))), k);
      }
    }
  }

  /** The walk only ever appends: the table after m nodes is a prefix of the table after n >= m nodes. */
  lemma {:induction false} ExtractedPrefix(norm: string -> string, doc: seq<Node>, m: nat, n: nat)
    requires m <= n <= |doc|
    ensures |Extracted(norm, doc, m)| <= |Extracted(norm, doc, n)|
    ensures Extracted(norm, doc, m) == Extracted(norm, doc, n)[..|Extracted(norm, doc, m)|]
    decreases n - m
  {
    if m < n {
      ExtractedPrefix(norm, doc, m, n - 1);
      ExtractedStep(norm, doc, n - 1);
      var r := Extracted(norm, doc, n - 1);
      var s := Extracted(norm, doc, n);
      assert s[..|r|] == r by {
        if s != r {
          AppendedPrefix(r, s[|r|..]);
        }
      }
      PrefixOfPrefix(Extracted(norm, doc, m), r, s);
    }
  }

  /** Node i is the first node that counts with its key. */
  predicate FirstWithKey(norm: string -> string, doc: seq<Node>, i: nat)
    requires i < |doc|
  {
    Counts(norm, doc, i) && forall h :: 0 <= h < i && Counts(norm, doc, h) ==> NodeKey(norm, doc, h) != NodeKey(norm, doc, i)
  }

  /** The first node with a key adds its own raw text, at the end of the table built so far. */
  lemma FirstWithKeyAppends(norm: string -> string, doc: seq<Node>, i: nat)
    requires i < |doc| && FirstWithKey(norm, doc, i)
    ensures Extracted(norm, doc, i + 1) == Extracted(norm, doc, i) + [(KeyOf(NodeKey(norm, doc, i)), StringInfo(doc[i].value, Some(NodeKey(norm, doc, i))))]
  {
    ExtractedKeys(norm, doc, i, KeyOf(NodeKey(norm, doc, i)));
  }

  /**
    For a repeated key the table keeps the raw text of the first occurrence, at the
    position it had when that node was visited.
   */
  lemma FirstOccurrenceKept(norm: string -> string, doc: seq<Node>, i: nat)
    requires i < |doc| && FirstWithKey(norm, doc, i)
    ensures |Extracted(norm, doc, i)| < |Extracted(norm, doc, |doc|)|
    ensures Extracted(norm, doc, |doc|)[|Extracted(norm, doc, i)|] == (KeyOf(NodeKey(norm, doc, i)), StringInfo(doc[i].value, Some(NodeKey(norm, doc, i))))
    ensures Get(Extracted(norm, doc, |doc|), KeyOf(NodeKey(norm, doc, i))) == Some(StringInfo(doc[i].value, Some(NodeKey(norm, doc, i))))
  {
    FirstWithKeyAppends(norm, doc, i);
    ExtractedPrefix(norm, doc, i + 1, |doc|);
    var r := Extracted(norm, doc, |doc|);
    var p := |Extracted(norm, doc, i)|;
    assert r[p] == Extracted(norm, doc, i + 1)[p];
    GetAt(r, p);
  }

  /** Entries appear in the document order of the nodes that introduced them. */
  lemma DocumentOrder(norm: string -> string, doc: seq<Node>, i: nat, j: nat)
    requires i < j < |doc| && FirstWithKey(norm, doc, i) && FirstWithKey(norm, doc, j)
    ensures |Extracted(norm, doc, i)| < |Extracted(norm, doc, j)| < |Extracted(norm, doc, |doc|)|
    ensures Extracted(norm, doc, |doc|)[|Extracted(norm, doc, i)|].1.original == doc[i].value
    ensures Extracted(norm, doc, |doc|)[|Extracted(norm, doc, j)|].1.original == doc[j].value
  {
    FirstWithKeyAppends(norm, doc, i);
    ExtractedPrefix(norm, doc, i + 1, j);
    FirstOccurrenceKept(norm, doc, i);
    FirstOccurrenceKept(norm, doc, j);
  }

  /** Every entry was introduced by a node that counts and carries the entry's raw text. */
  lemma {:induction false} EntryFromNode(norm: string -> string, doc: seq<Node>, n: nat, j: nat)
    requires n <= |doc| && j < |Extracted(norm, doc, n)|
    ensures exists i :: 0 <= i < n && Counts(norm, doc, i) && doc[i].value == Extracted(norm, doc, n)[j].1.original
  {
    var r := Extracted(norm, doc, n - 1);
    if j < |r| {
      EntryFromNode(norm, doc, n - 1, j);
      assert Extracted(norm, doc, n)[j] == r[j];
    } else {
      assert Counts(norm, doc, n - 1);
    }
  }

  /**
    Text under a skipped parent is never recorded: changing such a node's text
    leaves the table as it was.
   */
  lemma SkippedTextIgnored(norm: string -> string, doc: seq<Node>, i: nat, v: string, n: nat)
    requires i < |doc| && ParentSkipped(doc, i) && n <= |doc|
    ensures Extracted(norm, doc[i := doc[i].(value := v)], n) == Extracted(norm, doc, n)
  {
    var e := doc[i := doc[i].(value := v)];
    assert SameShape(doc, e);
    forall j | 0 <= j < n
      ensures Counts(norm, doc, j) == Counts(norm, e, j)
      ensures Counts(norm, doc, j) ==> doc[j].value == e[j].value
    {
      SameShapeSkips(doc, e, j);
      if j != i {
        assert e[j] == doc[j];
      }
    }
    SameContributions(norm, doc, e, n);
  }

  /** Two documents whose first n nodes count alike, with the same text where they count, give the same table. */
  lemma {:induction false} SameContributions(norm: string -> string, doc: seq<Node>, e: seq<Node>, n: nat)
    requires n <= |doc| == |e|
    requires forall j :: 0 <= j < n ==> Counts(norm, doc, j) == Counts(norm, e, j)
    requires forall j :: 0 <= j < n && Counts(norm, doc, j) ==> doc[j].value == e[j].value
    ensures Extracted(norm, e, n) == Extracted(norm, doc, n)
  {
    if n > 0 {
      SameContributions(norm, doc, e, n - 1);
      ExtractedStep(norm, doc, n - 1);
      ExtractedStep(norm, e, n - 1);
    }
  }
}
