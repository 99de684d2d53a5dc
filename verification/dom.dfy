/** The slice of the DOM the content script touches: elements with the
    attributes the protection guard reads, text nodes, and every other node
    kind lumped together; `textContent`; and `Node.normalize()` as the WHATWG
    DOM Standard defines it (section 4.4, "Interface Node"). */
module Dom {
  import opened Js

  /** `element.className`: a string for HTML elements, an `SVGAnimatedString`
      object for SVG elements. */
  datatype ClassName = StringClass(value: JsString) | NonStringClass

  /** What the content script can observe of an element other than its children. */
  datatype ElemInfo = ElemInfo(
    tagName: JsString,
    id: JsString,
    className: ClassName,
    classList: seq<JsString>,
    isContentEditable: bool,
    contentEditableAttr: Option<JsString>,
    isDocumentBody: bool)

  datatype Node =
    | Text(data: JsString)
    | Elem(info: ElemInfo, children: seq<Node>)
      /** comments, processing instructions, CDATA: neither element nor text */
    | OtherNode(data: JsString)

  /** The class that marks a wrapper span. */
  function MarkerClass(): JsString
  {
    Lit("urdu-nastaleeq")
  }

  /** A span created by `document.createElement('span')` with `className = 'urdu-nastaleeq'`. */
  function SpanInfo(): ElemInfo
  {
    ElemInfo(Lit("SPAN"), [], StringClass(MarkerClass()), [MarkerClass()], false, None, false)
  }

  /** The wrapper span holding one run as its text content. */
  function Span(run: JsString): Node
  {
    Elem(SpanInfo(), [Text(run)])
  }

  /** Matches the selector `span.urdu-nastaleeq`. */
  predicate IsMarkerSpan(n: Node)
  {
    n.Elem? && n.info.tagName == Lit("SPAN") && MarkerClass() in n.info.classList
  }

  /** `node.textContent` (comments contribute nothing to an element's text). */
  function TextContent(n: Node): JsString
    decreases n, 1
  {
    match n
    case Text(d) => d
    case Elem(_, kids) => TextContentSeq(kids)
    case OtherNode(_) => []
  }

  /** The text content of a sequence of siblings, in order. */
  function TextContentSeq(ns: seq<Node>): JsString
    decreases ns, 0
  {
    if ns == [] then [] else TextContent(ns[0]) + TextContentSeq(ns[1..])
  }

  lemma {:induction false} TextContentSeqAppend(a: seq<Node>, b: seq<Node>)
    ensures TextContentSeq(a + b) == TextContentSeq(a) + TextContentSeq(b)
  {
    if a == [] {
      assert a + b == b;
    } else {
      assert (a + b)[0] == a[0];
      assert (a + b)[1..] == a[1..] + b;
      TextContentSeqAppend(a[1..], b);
    }
  }

  lemma TextContentSingle(x: Node)
    ensures TextContentSeq([x]) == TextContent(x)
  {
    assert [x][1..] == [];
  }

  lemma SpanTextContent(run: JsString)
    ensures TextContent(Span(run)) == run
  {
    TextContentSingle(Text(run));
  }

  // ---------------------------------------------------------------------------
  // Node.normalize()
  // ---------------------------------------------------------------------------

  /** No empty Text node and no two adjacent Text nodes among these siblings. */
  predicate TopNormalized(ns: seq<Node>)
  {
    && (forall i :: 0 <= i < |ns| && ns[i].Text? ==> ns[i].data != [])
    && (forall i :: 0 <= i < |ns| - 1 && ns[i].Text? ==> !ns[i + 1].Text?)
  }

  /** The state `normalize()` leaves behind, at every level of the subtree. */
  predicate Normalized(ns: seq<Node>)
    decreases ns
  {
    && TopNormalized(ns)
    && forall i :: 0 <= i < |ns| && ns[i].Elem? ==> Normalized(ns[i].children)
  }

  /** Prepends one node to an already merged sibling list: a Text node absorbs
      the Text node that follows it, and an empty Text node disappears. */
  function Cons(x: Node, m: seq<Node>): seq<Node>
  {
    if x.Text? && |m| > 0 && m[0].Text? then [Text(x.data + m[0].data)] + m[1..]
    else if x.Text? && x.data == [] then m
    else [x] + m
  }

  /** Merges every maximal run of adjacent Text siblings into one Text node
      holding their concatenated data, dropping it when that data is empty.
      The standard walks the Text nodes left to right: the first non-empty
      node of a run absorbs the rest and the empty ones before it are
      removed, which leaves the same list as this right fold. */
  function Merge(ns: seq<Node>): seq<Node>
  {
    if ns == [] then [] else Cons(ns[0], Merge(ns[1..]))
  }

  /** `n.normalize()` seen from n's parent: the node with its subtree normalized. */
  function NormalizeNode(n: Node): Node
    decreases n, 2
  {
    match n
    case Elem(info, kids) => Elem(info, NormalizeChildren(kids))
    case _ => n
  }

  /** `parent.normalize()` applied to parent's children. */
  function NormalizeChildren(ns: seq<Node>): seq<Node>
    decreases ns, 1
  {
    Merge(NormalizeEach(ns))
  }

  function NormalizeEach(ns: seq<Node>): (r: seq<Node>)
    decreases ns, 0
    ensures |r| == |ns|
  {
    if ns == [] then [] else [NormalizeNode(ns[0])] + NormalizeEach(ns[1..])
  }

  // --- Merge: content and shape ----------------------------------------------

  lemma ConsTextContent(x: Node, m: seq<Node>)
    ensures TextContentSeq(Cons(x, m)) == TextContent(x) + TextContentSeq(m)
  {
    if x.Text? && |m| > 0 && m[0].Text? {
      assert m == [m[0]] + m[1..];
      TextContentSeqAppend([m[0]], m[1..]);
      TextContentSeqAppend([Text(x.data + m[0].data)], m[1..]);
    } else if x.Text? && x.data == [] {
    } else {
      TextContentSeqAppend([x], m);
    }
  }

  lemma {:induction false} MergeTextContent(ns: seq<Node>)
    ensures TextContentSeq(Merge(ns)) == TextContentSeq(ns)
  {
    if ns != [] {
      MergeTextContent(ns[1..]);
      ConsTextContent(ns[0], Merge(ns[1..]));
    }
  }

  lemma ConsTopNormalized(x: Node, m: seq<Node>)
    requires TopNormalized(m)
    ensures TopNormalized(Cons(x, m))
  {
    var r := Cons(x, m);
    if x.Text? && |m| > 0 && m[0].Text? {
      forall i | 0 <= i < |r| - 1 && r[i].Text?
        ensures !r[i + 1].Text?
      {
        if i > 0 {
          assert r[i] == m[i] && r[i + 1] == m[i + 1];
        } else {
          assert r[1] == m[1];
        }
      }
      forall i | 0 <= i < |r| && r[i].Text?
        ensures r[i].data != []
      {
        if i > 0 {
          assert r[i] == m[i];
        } else {
          assert |m[0].data| > 0;
        }
      }
    } else if x.Text? && x.data == [] {
    } else {
      forall i | 0 <= i < |r| - 1 && r[i].Text?
        ensures !r[i + 1].Text?
      {
        if i > 0 {
          assert r[i] == m[i - 1] && r[i + 1] == m[i];
        }
      }
      forall i | 0 <= i < |r| && r[i].Text?
        ensures r[i].data != []
      {
        if i > 0 {
          assert r[i] == m[i - 1];
        }
      }
    }
  }

  /** Every element of `Cons(x, m)` is x or an element of m. */
  lemma ConsElements(x: Node, m: seq<Node>, i: nat)
    requires i < |Cons(x, m)| && Cons(x, m)[i].Elem?
    ensures Cons(x, m)[i] == x || Cons(x, m)[i] in m
  {
    var r := Cons(x, m);
    if x.Text? && |m| > 0 && m[0].Text? {
      assert r[i] == m[i];
    } else if x.Text? && x.data == [] {
    } else if i > 0 {
      assert r[i] == m[i - 1];
    }
  }

  lemma {:induction false} MergeTopNormalized(ns: seq<Node>)
    ensures TopNormalized(Merge(ns))
  {
    if ns != [] {
      MergeTopNormalized(ns[1..]);
      ConsTopNormalized(ns[0], Merge(ns[1..]));
    }
  }

  lemma {:induction false} MergeElements(ns: seq<Node>, i: nat)
    requires i < |Merge(ns)| && Merge(ns)[i].Elem?
    ensures Merge(ns)[i] in ns
  {
    if ns != [] {
      var m := Merge(ns[1..]);
      ConsElements(ns[0], m, i);
      if Merge(ns)[i] != ns[0] {
        var j :| 0 <= j < |m| && m[j] == Merge(ns)[i];
        MergeElements(ns[1..], j);
      }
    }
  }

  /** On a list that is already merged, Merge changes nothing. */
  lemma {:induction false} MergeOfTopNormalized(ns: seq<Node>)
    requires TopNormalized(ns)
    ensures Merge(ns) == ns
  {
    if ns != [] {
      assert TopNormalized(ns[1..]) by {
        forall i | 0 <= i < |ns[1..]| - 1 && ns[1..][i].Text?
          ensures !ns[1..][i + 1].Text?
        {
          assert ns[1..][i] == ns[i + 1];
        }
      }
      MergeOfTopNormalized(ns[1..]);
      if ns[0].Text? {
        assert ns[0].data != [];
        assert |ns| > 1 ==> !ns[1].Text?;
      }
      assert ns == [ns[0]] + ns[1..];
    }
  }

  /** Prepends the nodes of `a`, one `Cons` at a time, to a merged list. */
  function FoldCons(a: seq<Node>, m: seq<Node>): seq<Node>
  {
    if a == [] then m else Cons(a[0], FoldCons(a[1..], m))
  }

  lemma {:induction false} MergeAppend(a: seq<Node>, b: seq<Node>)
    ensures Merge(a + b) == FoldCons(a, Merge(b))
  {
    if a == [] {
      assert a + b == b;
    } else {
      assert (a + b)[0] == a[0];
      assert (a + b)[1..] == a[1..] + b;
      MergeAppend(a[1..], b);
    }
  }

  lemma {:induction false} FoldConsAppend(a: seq<Node>, b: seq<Node>, m: seq<Node>)
    ensures FoldCons(a + b, m) == FoldCons(a, FoldCons(b, m))
  {
    if a == [] {
      assert a + b == b;
    } else {
      assert (a + b)[0] == a[0];
      assert (a + b)[1..] == a[1..] + b;
      FoldConsAppend(a[1..], b, m);
    }
  }

  /** Two Text nodes in a row merge into one holding both texts. */
  lemma ConsTextText(x: JsString, y: JsString, m: seq<Node>)
    ensures Cons(Text(x), Cons(Text(y), m)) == Cons(Text(x + y), m)
  {
    if |m| > 0 && m[0].Text? {
      assert x + (y + m[0].data) == (x + y) + m[0].data;
    } else if y == [] {
      assert x + y == x;
    }
  }

  /** Prepending a run of Text nodes is prepending one Text node with their text. */
  lemma {:induction false} FoldConsTexts(a: seq<Node>, m: seq<Node>)
    requires forall i :: 0 <= i < |a| ==> a[i].Text?
    ensures FoldCons(a, m) == Cons(Text(TextContentSeq(a)), m)
  {
    if a == [] {
      if |m| > 0 && m[0].Text? {
        assert [] + m[0].data == m[0].data;
        assert m == [m[0]] + m[1..];
      }
    } else {
      FoldConsTexts(a[1..], m);
      ConsTextText(a[0].data, TextContentSeq(a[1..]), m);
    }
  }

  /** Every element among these siblings has a normalized subtree. */
  predicate ElemsNormalized(ns: seq<Node>)
  {
    forall i :: 0 <= i < |ns| && ns[i].Elem? ==> Normalized(ns[i].children)
  }

  lemma ElemsNormalizedAppend(a: seq<Node>, b: seq<Node>)
    requires ElemsNormalized(a) && ElemsNormalized(b)
    ensures ElemsNormalized(a + b)
  {
    forall i | 0 <= i < |a + b| && (a + b)[i].Elem?
      ensures Normalized((a + b)[i].children)
    {
      if i < |a| {
        assert (a + b)[i] == a[i];
      } else {
        assert (a + b)[i] == b[i - |a|];
      }
    }
  }

  lemma {:induction false} NormalizeEachIdentity(ns: seq<Node>)
    requires ElemsNormalized(ns)
    ensures NormalizeEach(ns) == ns
  {
    if ns != [] {
      if ns[0].Elem? {
        NormalizeOfNormalized(ns[0].children);
      }
      assert ElemsNormalized(ns[1..]) by {
        forall i | 0 <= i < |ns[1..]| && ns[1..][i].Elem?
          ensures Normalized(ns[1..][i].children)
        {
          assert ns[1..][i] == ns[i + 1];
        }
      }
      NormalizeEachIdentity(ns[1..]);
      assert ns == [ns[0]] + ns[1..];
    }
  }

  lemma NormalizedTail(ns: seq<Node>)
    requires Normalized(ns) && ns != []
    ensures Normalized(ns[1..])
  {
    forall i | 0 <= i < |ns[1..]| - 1 && ns[1..][i].Text?
      ensures !ns[1..][i + 1].Text?
    {
      assert ns[1..][i] == ns[i + 1];
    }
  }

  // --- normalize(): the three promises -----------------------------------------

  /** `normalize()` does not change the text a subtree holds. */
  lemma {:induction false} NormalizePreservesText(ns: seq<Node>)
    ensures TextContentSeq(NormalizeChildren(ns)) == TextContentSeq(ns)
    decreases ns, 1
  {
    NormalizeEachText(ns);
    MergeTextContent(NormalizeEach(ns));
  }

  lemma {:induction false} NormalizeEachText(ns: seq<Node>)
    ensures TextContentSeq(NormalizeEach(ns)) == TextContentSeq(ns)
    decreases ns, 0
  {
    if ns != [] {
      var n := ns[0];
      if n.Elem? {
        NormalizePreservesText(n.children);
      }
      assert TextContent(NormalizeNode(n)) == TextContent(n);
      NormalizeEachText(ns[1..]);
    }
  }

  /** After `normalize()` no Text node below the parent is empty and no two
      Text siblings are adjacent, at any depth. */
  lemma {:induction false} NormalizeIsNormalized(ns: seq<Node>)
    ensures Normalized(NormalizeChildren(ns))
    decreases ns, 1
  {
    var e := NormalizeEach(ns);
    NormalizeEachDeep(ns);
    MergeTopNormalized(e);
    var r := Merge(e);
    forall i | 0 <= i < |r| && r[i].Elem?
      ensures Normalized(r[i].children)
    {
      MergeElements(e, i);
    }
  }

  lemma {:induction false} NormalizeEachDeep(ns: seq<Node>)
    ensures forall i :: 0 <= i < |NormalizeEach(ns)| && NormalizeEach(ns)[i].Elem? ==>
      Normalized(NormalizeEach(ns)[i].children)
    decreases ns, 0
  {
    if ns != [] {
      if ns[0].Elem? {
        NormalizeIsNormalized(ns[0].children);
      }
      NormalizeEachDeep(ns[1..]);
      var e := NormalizeEach(ns);
      forall i | 0 <= i < |e| && e[i].Elem?
        ensures Normalized(e[i].children)
      {
        if i > 0 {
          assert e[i] == NormalizeEach(ns[1..])[i - 1];
        }
      }
    }
  }

  /** `normalize()` on an already normalized subtree changes nothing, so
      calling it twice is the same as calling it once. */
  lemma {:induction false} NormalizeOfNormalized(ns: seq<Node>)
    requires Normalized(ns)
    ensures NormalizeChildren(ns) == ns
    decreases ns, 1
  {
    NormalizeEachOfNormalized(ns);
    MergeOfTopNormalized(ns);
  }

  lemma {:induction false} NormalizeEachOfNormalized(ns: seq<Node>)
    requires Normalized(ns)
    ensures NormalizeEach(ns) == ns
    decreases ns, 0
  {
    if ns != [] {
      if ns[0].Elem? {
        NormalizeOfNormalized(ns[0].children);
      }
      assert Normalized(ns[1..]) by {
        forall i | 0 <= i < |ns[1..]| - 1 && ns[1..][i].Text?
          ensures !ns[1..][i + 1].Text?
        {
          assert ns[1..][i] == ns[i + 1];
        }
      }
      NormalizeEachOfNormalized(ns[1..]);
      assert ns == [ns[0]] + ns[1..];
    }
  }

  lemma NormalizeIdempotent(ns: seq<Node>)
    ensures NormalizeChildren(NormalizeChildren(ns)) == NormalizeChildren(ns)
  {
    NormalizeIsNormalized(ns);
    NormalizeOfNormalized(NormalizeChildren(ns));
  }
}
