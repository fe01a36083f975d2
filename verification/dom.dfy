/**
  An already-parsed HTML document as a node arena in document order: each node
  has a kind, a tag name, a text value and the index of its parent. A parent
  index outside the arena stands for the document node itself (or no parent),
  whose name is never one of the skipped tags.
 */
module Dom {
  import opened PhpText

  datatype NodeKind = Element | Text | Comment | OtherKind

  datatype Node = Node(kind: NodeKind, name: string, value: string, parent: int)

  /** The parent tags whose text is neither extracted nor rewritten. */
  const SkipTags: seq<string> := ["script", "style", "noscript"]

  /** XPath `normalize-space()` is non-empty: some character is not XPath whitespace. */
  predicate HasVisibleText(v: string) {
    exists i :: 0 <= i < |v| && v[i] !in XPathSpace
  }

  /** A node matched by the query `//text()[normalize-space()]`. */
  predicate Selected(n: Node) {
    n.kind == Text && HasVisibleText(n.value)
  }

  /** The node's immediate parent is a `script`, `style` or `noscript` element (compared lower-cased). */
  predicate ParentSkipped(doc: seq<Node>, i: nat)
    requires i < |doc|
  {
    0 <= doc[i].parent < |doc| && Lower(doc[doc[i].parent].name) in SkipTags
  }

  /** The one eligibility test both the extractor and the substitution engine apply. */
  predicate Eligible(doc: seq<Node>, i: nat)
    requires i < |doc|
  {
    Selected(doc[i]) && !ParentSkipped(doc, i)
  }

  /** Two arenas with the same kinds, names and parents, position by position. */
  predicate SameShape(d: seq<Node>, e: seq<Node>) {
    |d| == |e| &&
    forall i :: 0 <= i < |d| ==> d[i].kind == e[i].kind && d[i].name == e[i].name && d[i].parent == e[i].parent
  }

  /** Only values differ between arenas of the same shape, so the skip test agrees on them. */
  lemma SameShapeSkips(d: seq<Node>, e: seq<Node>, i: nat)
    requires SameShape(d, e) && i < |d|
    ensures ParentSkipped(d, i) == ParentSkipped(e, i)
  {
    var p := d[i].parent;
    if 0 <= p < |d| {
      assert d[p].name == e[p].name;
    }
  }
}
