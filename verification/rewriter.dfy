/** The enabled branch of `applyNastaleeq` (content.js:142-203): a text node
    whose parent is not protected is replaced by the fragment of plain text
    nodes and wrapper spans; an element that is not protected has its
    children processed in turn.

    Two versions of the element recursion are modelled. `LiveLoop` follows
    the code as written: it indexes the live `childNodes` list with a count
    taken before the loop, so once a text node has been replaced by several
    nodes the last original children are never visited; it is the version
    the dispatch, `updateStyles` and `init` use. `RewriteNode` visits every
    original child (the evidently intended traversal, as over a snapshot of
    the list); the fixed-point properties, `RoundTrip` and
    `UpdateStylesCorrected` are stated for it. */
module Rewriter {
  import opened Js
  import opened Dom
  import opened Protection
  import opened Segmentation

  // ---------------------------------------------------------------------------
  // The text branch
  // ---------------------------------------------------------------------------

  function PieceNode(p: Piece): Node
  {
    match p
    case Plain(t) => Text(t)
    case Wrapped(t) => Span(t)
  }

  function PieceNodes(ps: seq<Piece>): (r: seq<Node>)
    ensures |r| == |ps|
  {
    if ps == [] then [] else [PieceNode(ps[0])] + PieceNodes(ps[1..])
  }

  /** A wrapper span created by the text branch: one text child, nothing else. */
  predicate IsWrapper(n: Node)
  {
    n == Span(TextContent(n))
  }

  /** A plain text node of a fragment: non-empty, no Arabic-block unit. */
  predicate IsPlainPiece(n: Node)
  {
    n.Text? && n.data != [] && !HasArabic(n.data)
  }

  predicate FragmentShape(ns: seq<Node>)
  {
    forall i :: 0 <= i < |ns| ==> IsPlainPiece(ns[i]) || IsWrapper(ns[i])
  }

  /** The text branch for a text node holding `data` whose `parentElement`
      chain is `ctx` (nearest first; empty for a detached node). None: the
      node is left as it is. */
  function RewriteText(compat: bool, data: JsString, ctx: seq<ElemInfo>): Option<seq<Node>>
  {
    if |data| < 1 || !HasArabic(data) then None
    else if |ctx| == 0 || IsProtectedInfo(ctx[0], ctx[1..]) then None
    else
      match Fragment(InPhraseClass, data, compat)
      case None => None
      case Some(ps) => Some(PieceNodes(ps))
  }

  lemma {:induction false} PieceNodesFacts(ps: seq<Piece>)
    requires forall i :: 0 <= i < |ps| ==> PieceOk(InPhraseClass, ps[i])
    ensures TextContentSeq(PieceNodes(ps)) == Joined(ps)
    ensures FragmentShape(PieceNodes(ps))
    ensures forall i :: 0 <= i < |ps| && ps[i].Wrapped? ==> PieceNodes(ps)[i].Elem?
  {
    if ps != [] {
      PieceNodesFacts(ps[1..]);
      var r := PieceNodes(ps);
      assert r == [PieceNode(ps[0])] + PieceNodes(ps[1..]);
      TextContentSeqAppend([PieceNode(ps[0])], PieceNodes(ps[1..]));
      TextContentSingle(PieceNode(ps[0]));
      SpanTextContent(ps[0].text);
      forall i | 0 <= i < |r|
        ensures IsPlainPiece(r[i]) || IsWrapper(r[i])
      {
        if i > 0 {
          assert r[i] == PieceNodes(ps[1..])[i - 1];
        } else {
          assert PieceOk(InPhraseClass, ps[0]);
        }
      }
      forall i | 0 <= i < |ps| && ps[i].Wrapped?
        ensures r[i].Elem?
      {
        if i > 0 {
          assert r[i] == PieceNodes(ps[1..])[i - 1];
        }
      }
    }
  }

  /** The text node is replaced exactly when it holds an Arabic-block unit and
      has a parent element that is not protected. */
  lemma RewriteTextWhen(compat: bool, data: JsString, ctx: seq<ElemInfo>)
    ensures RewriteText(compat, data, ctx).Some? <==>
      HasArabic(data) && |ctx| > 0 && !IsProtectedInfo(ctx[0], ctx[1..])
  {
    PhraseClassCoversArabic();
    FragmentSpec(InPhraseClass, data, compat);
  }

  /** The replacement spells the same text and is made of plain text nodes
      without Arabic-block units and wrapper spans, at least one span. */
  lemma RewriteTextShape(compat: bool, data: JsString, ctx: seq<ElemInfo>)
    requires RewriteText(compat, data, ctx).Some?
    ensures var ns := RewriteText(compat, data, ctx).value;
      && TextContentSeq(ns) == data
      && FragmentShape(ns)
      && exists i :: 0 <= i < |ns| && ns[i].Elem?
  {
    PhraseClassCoversArabic();
    FragmentSpec(InPhraseClass, data, compat);
    var ps := Fragment(InPhraseClass, data, compat).value;
    PieceNodesFacts(ps);
    var i :| 0 <= i < |ps| && ps[i].Wrapped?;
    assert PieceNodes(ps)[i].Elem?;
  }

  /** The spans of the replacement are exactly the maximal runs of
      `phraseRegex`'s class that contain an Arabic-block unit. */
  lemma RewriteTextRuns(compat: bool, data: JsString, ctx: seq<ElemInfo>)
    requires RewriteText(compat, data, ctx).Some?
    ensures exists ps :: && RewriteText(compat, data, ctx).value == PieceNodes(ps)
                         && Joined(ps) == data
                         && WellSegmented(InPhraseClass, ps)
  {
    PhraseClassCoversArabic();
    FragmentSpec(InPhraseClass, data, compat);
  }

  // ---------------------------------------------------------------------------
  // The element recursion, visiting every original child
  // ---------------------------------------------------------------------------

  /** What `applyNastaleeq(n)` leaves in n's place, for a node whose
      `parentElement` chain is `ctx`, when every child is visited. */
  function RewriteNode(compat: bool, n: Node, ctx: seq<ElemInfo>): seq<Node>
    decreases n, 1
  {
    match n
    case Text(d) =>
      (match RewriteText(compat, d, ctx)
       case None => [n]
       case Some(ns) => ns)
    case Elem(info, kids) =>
      if IsProtectedInfo(info, ctx) then [n]
      else [Elem(info, RewriteChildren(compat, kids, [info] + ctx))]
    case OtherNode(_) => [n]
  }

  function RewriteChildren(compat: bool, kids: seq<Node>, ctx: seq<ElemInfo>): seq<Node>
    decreases kids, 0
  {
    if kids == [] then [] else RewriteNode(compat, kids[0], ctx) + RewriteChildren(compat, kids[1..], ctx)
  }

  /** Nothing left to wrap: no text node holding an Arabic-block unit sits
      under an unprotected parent, unless it is itself under a protected
      element. */
  predicate Settled(n: Node, ctx: seq<ElemInfo>)
    decreases n
  {
    match n
    case Text(d) => !HasArabic(d) || |ctx| == 0 || IsProtectedInfo(ctx[0], ctx[1..])
    case Elem(info, kids) =>
      IsProtectedInfo(info, ctx) || forall i :: 0 <= i < |kids| ==> Settled(kids[i], [info] + ctx)
    case OtherNode(_) => true
  }

  predicate AllSettled(ns: seq<Node>, ctx: seq<ElemInfo>)
  {
    forall i :: 0 <= i < |ns| ==> Settled(ns[i], ctx)
  }

  lemma AllSettledAppend(a: seq<Node>, b: seq<Node>, ctx: seq<ElemInfo>)
    ensures AllSettled(a + b, ctx) <==> AllSettled(a, ctx) && AllSettled(b, ctx)
  {
    if AllSettled(a + b, ctx) {
      forall i | 0 <= i < |a| ensures Settled(a[i], ctx) {
        assert (a + b)[i] == a[i];
      }
      forall i | 0 <= i < |b| ensures Settled(b[i], ctx) {
        assert (a + b)[|a| + i] == b[i];
      }
    }
  }

  /** The text case of the rewrite: the text is kept, the result is settled
      and never empty, and it is the node itself exactly when that is settled. */
  lemma TextCase(compat: bool, d: JsString, ctx: seq<ElemInfo>)
    ensures TextContentSeq(RewriteNode(compat, Text(d), ctx)) == d
    ensures AllSettled(RewriteNode(compat, Text(d), ctx), ctx)
    ensures |RewriteNode(compat, Text(d), ctx)| >= 1
    ensures RewriteNode(compat, Text(d), ctx) == [Text(d)] <==> Settled(Text(d), ctx)
  {
    RewriteTextWhen(compat, d, ctx);
    if RewriteText(compat, d, ctx).Some? {
      RewriteTextShape(compat, d, ctx);
      var ns := RewriteText(compat, d, ctx).value;
      forall i | 0 <= i < |ns| ensures Settled(ns[i], ctx) {
        if IsWrapper(ns[i]) {
          MarkedIsProtected(SpanInfo(), ctx);
        }
      }
      var i :| 0 <= i < |ns| && ns[i].Elem?;
      assert ns != [Text(d)];
    } else {
      TextContentSingle(Text(d));
    }
  }

  /** The rewrite keeps the text content. */
  lemma {:induction false} RewritePreservesText(compat: bool, n: Node, ctx: seq<ElemInfo>)
    ensures TextContentSeq(RewriteNode(compat, n, ctx)) == TextContent(n)
    decreases n, 1
  {
    match n
    case Text(d) =>
      TextCase(compat, d, ctx);
    case Elem(info, kids) =>
      if !IsProtectedInfo(info, ctx) {
        RewriteChildrenPreservesText(compat, kids, [info] + ctx);
      }
      TextContentSingle(RewriteNode(compat, n, ctx)[0]);
    case OtherNode(_) =>
      TextContentSingle(n);
  }

  lemma {:induction false} RewriteChildrenPreservesText(compat: bool, kids: seq<Node>, ctx: seq<ElemInfo>)
    ensures TextContentSeq(RewriteChildren(compat, kids, ctx)) == TextContentSeq(kids)
    decreases kids, 0
  {
    if kids != [] {
      RewritePreservesText(compat, kids[0], ctx);
      RewriteChildrenPreservesText(compat, kids[1..], ctx);
      TextContentSeqAppend(RewriteNode(compat, kids[0], ctx), RewriteChildren(compat, kids[1..], ctx));
    }
  }

  /** After the rewrite nothing is left to wrap. */
  lemma {:induction false} RewriteSettles(compat: bool, n: Node, ctx: seq<ElemInfo>)
    ensures AllSettled(RewriteNode(compat, n, ctx), ctx)
    decreases n, 1
  {
    match n
    case Text(d) =>
      TextCase(compat, d, ctx);
    case Elem(info, kids) =>
      if !IsProtectedInfo(info, ctx) {
        RewriteChildrenSettles(compat, kids, [info] + ctx);
      }
    case OtherNode(_) =>
  }

  lemma {:induction false} RewriteChildrenSettles(compat: bool, kids: seq<Node>, ctx: seq<ElemInfo>)
    ensures AllSettled(RewriteChildren(compat, kids, ctx), ctx)
    decreases kids, 0
  {
    if kids != [] {
      RewriteSettles(compat, kids[0], ctx);
      RewriteChildrenSettles(compat, kids[1..], ctx);
      AllSettledAppend(RewriteNode(compat, kids[0], ctx), RewriteChildren(compat, kids[1..], ctx), ctx);
    }
  }

  /** A settled node is left exactly as it is. */
  lemma {:induction false} RewriteOfSettled(compat: bool, n: Node, ctx: seq<ElemInfo>)
    requires Settled(n, ctx)
    ensures RewriteNode(compat, n, ctx) == [n]
    decreases n, 1
  {
    match n
    case Text(d) =>
      TextCase(compat, d, ctx);
    case Elem(info, kids) =>
      if !IsProtectedInfo(info, ctx) {
        RewriteChildrenOfSettled(compat, kids, [info] + ctx);
      }
    case OtherNode(_) =>
  }

  lemma {:induction false} RewriteChildrenOfSettled(compat: bool, kids: seq<Node>, ctx: seq<ElemInfo>)
    requires AllSettled(kids, ctx)
    ensures RewriteChildren(compat, kids, ctx) == kids
    decreases kids, 0
  {
    if kids != [] {
      RewriteOfSettled(compat, kids[0], ctx);
      RewriteChildrenOfSettled(compat, kids[1..], ctx);
      assert kids == [kids[0]] + kids[1..];
    }
  }

  lemma {:induction false} RewriteChildrenLength(compat: bool, kids: seq<Node>, ctx: seq<ElemInfo>)
    ensures |RewriteChildren(compat, kids, ctx)| >= |kids|
  {
    if kids != [] {
      if kids[0].Text? {
        TextCase(compat, kids[0].data, ctx);
      }
      RewriteChildrenLength(compat, kids[1..], ctx);
    }
  }

  /** Conversely, a node the rewrite leaves alone is settled: the settled
      nodes are exactly the fixed points of the rewrite. */
  lemma {:induction false} FixedPointIsSettled(compat: bool, n: Node, ctx: seq<ElemInfo>)
    requires RewriteNode(compat, n, ctx) == [n]
    ensures Settled(n, ctx)
    decreases n, 1
  {
    match n
    case Text(d) =>
      TextCase(compat, d, ctx);
    case Elem(info, kids) =>
      if !IsProtectedInfo(info, ctx) {
        FixedChildrenAreSettled(compat, kids, [info] + ctx);
      }
    case OtherNode(_) =>
  }

  lemma {:induction false} FixedChildrenAreSettled(compat: bool, kids: seq<Node>, ctx: seq<ElemInfo>)
    requires RewriteChildren(compat, kids, ctx) == kids
    ensures AllSettled(kids, ctx)
    decreases kids, 0
  {
    if kids != [] {
      var a := RewriteNode(compat, kids[0], ctx);
      var b := RewriteChildren(compat, kids[1..], ctx);
      assert |a| >= 1 by {
        if kids[0].Text? {
          TextCase(compat, kids[0].data, ctx);
        }
      }
      RewriteChildrenLength(compat, kids[1..], ctx);
      assert |a| == 1 && |b| == |kids| - 1;
      assert a == (a + b)[..1] && kids[..1] == [kids[0]];
      assert b == (a + b)[1..];
      FixedPointIsSettled(compat, kids[0], ctx);
      FixedChildrenAreSettled(compat, kids[1..], ctx);
      assert kids == [kids[0]] + kids[1..];
      AllSettledAppend([kids[0]], kids[1..], ctx);
    }
  }

  /** Running the rewrite a second time changes nothing. */
  lemma RewriteIdempotent(compat: bool, n: Node, ctx: seq<ElemInfo>)
    ensures RewriteChildren(compat, RewriteNode(compat, n, ctx), ctx) == RewriteNode(compat, n, ctx)
  {
    RewriteSettles(compat, n, ctx);
    RewriteChildrenOfSettled(compat, RewriteNode(compat, n, ctx), ctx);
  }

  // ---------------------------------------------------------------------------
  // The element recursion as written: a live child list and a fixed count
  // ---------------------------------------------------------------------------

  /** Every element at or after position i that the loop could descend into
      is one of the parent's original children; the nodes the loop inserted
      are text nodes and wrapper spans. */
  predicate OriginalOrFresh(kids: seq<Node>, i: nat, parent: Node)
    requires parent.Elem?
  {
    forall j :: i <= j < |kids| && kids[j].Elem? && kids[j].info != SpanInfo() ==>
      kids[j] in parent.children
  }

  /** `applyNastaleeq(n)` as written. */
  function LiveNode(compat: bool, n: Node, ctx: seq<ElemInfo>): seq<Node>
    decreases n, 1, 0
  {
    match n
    case Elem(info, kids) =>
      if IsProtectedInfo(info, ctx) then [n]
      else [Elem(info, LiveLoop(compat, kids, 0, |kids|, [info] + ctx, n))]
    case _ => RewriteNode(compat, n, ctx)
  }

  /** `for (let i = 0; i < count; i++) applyNastaleeq(children[i])` over the
      live list `kids` of `parent`'s children, from position i on; `ctx` is
      the chain of the children's ancestors. */
  function LiveLoop(compat: bool, kids: seq<Node>, i: nat, count: nat, ctx: seq<ElemInfo>, parent: Node): seq<Node>
    requires parent.Elem? && OriginalOrFresh(kids, i, parent)
    decreases parent, 0, count - i
  {
    if i >= count || i >= |kids| then kids
    else
      match kids[i]
      case Text(d) =>
        (match RewriteText(compat, d, ctx)
         case None => LiveLoop(compat, kids, i + 1, count, ctx, parent)
         case Some(ns) =>
           RewriteTextShape(compat, d, ctx);
           SpliceKeepsOriginal(kids, i, ns, parent);
           LiveLoop(compat, kids[..i] + ns + kids[i + 1..], i + 1, count, ctx, parent))
      case Elem(info, ch) =>
        if IsProtectedInfo(info, ctx) then LiveLoop(compat, kids, i + 1, count, ctx, parent)
        else
          assert info != SpanInfo();
          var e := Elem(info, LiveLoop(compat, ch, 0, |ch|, [info] + ctx, kids[i]));
          LiveLoop(compat, kids[i := e], i + 1, count, ctx, parent)
      case OtherNode(_) => LiveLoop(compat, kids, i + 1, count, ctx, parent)
  }

  /** Splicing a fragment in at `i` brings in wrapper spans and text only. */
  lemma SpliceKeepsOriginal(kids: seq<Node>, i: nat, ns: seq<Node>, parent: Node)
    requires parent.Elem? && i < |kids| && OriginalOrFresh(kids, i, parent) && FragmentShape(ns)
    ensures OriginalOrFresh(kids[..i] + ns + kids[i + 1..], i + 1, parent)
  {
    var spliced := kids[..i] + ns + kids[i + 1..];
    forall j | i + 1 <= j < |spliced| && spliced[j].Elem? && spliced[j].info != SpanInfo()
      ensures spliced[j] in parent.children
    {
      if j >= i + |ns| {
        assert spliced[j] == kids[j - |ns| + 1];
      }
    }
  }

  lemma SpliceText(kids: seq<Node>, i: nat, ns: seq<Node>)
    requires i < |kids| && TextContentSeq(ns) == TextContent(kids[i])
    ensures TextContentSeq(kids[..i] + ns + kids[i + 1..]) == TextContentSeq(kids)
  {
    assert kids == kids[..i] + [kids[i]] + kids[i + 1..];
    TextContentSeqAppend(kids[..i] + [kids[i]], kids[i + 1..]);
    TextContentSeqAppend(kids[..i], [kids[i]]);
    TextContentSeqAppend(kids[..i] + ns, kids[i + 1..]);
    TextContentSeqAppend(kids[..i], ns);
    TextContentSeqAppend([kids[i]], []);
  }

  /** The loop as written still never changes the text. */
  lemma {:induction false} LiveLoopPreservesText(compat: bool, kids: seq<Node>, i: nat, count: nat, ctx: seq<ElemInfo>, parent: Node)
    requires parent.Elem? && OriginalOrFresh(kids, i, parent)
    ensures TextContentSeq(LiveLoop(compat, kids, i, count, ctx, parent)) == TextContentSeq(kids)
    decreases parent, 0, count - i
  {
    if i >= count || i >= |kids| {
    } else {
      match kids[i]
      case Text(d) =>
        if RewriteText(compat, d, ctx).Some? {
          RewriteTextShape(compat, d, ctx);
          var ns := RewriteText(compat, d, ctx).value;
          var spliced := kids[..i] + ns + kids[i + 1..];
          SpliceText(kids, i, ns);
          LiveLoopPreservesText(compat, spliced, i + 1, count, ctx, parent);
        } else {
          LiveLoopPreservesText(compat, kids, i + 1, count, ctx, parent);
        }
      case Elem(info, ch) =>
        if IsProtectedInfo(info, ctx) {
          LiveLoopPreservesText(compat, kids, i + 1, count, ctx, parent);
        } else {
          assert info != SpanInfo();
          var e := Elem(info, LiveLoop(compat, ch, 0, |ch|, [info] + ctx, kids[i]));
          LiveLoopPreservesText(compat, ch, 0, |ch|, [info] + ctx, kids[i]);
          ReplaceText(kids, i, e);
          LiveLoopPreservesText(compat, kids[i := e], i + 1, count, ctx, parent);
        }
      case OtherNode(_) =>
        LiveLoopPreservesText(compat, kids, i + 1, count, ctx, parent);
    }
  }

  lemma ReplaceText(kids: seq<Node>, i: nat, e: Node)
    requires i < |kids| && TextContent(e) == TextContent(kids[i])
    ensures TextContentSeq(kids[i := e]) == TextContentSeq(kids)
  {
    assert kids[i := e] == kids[..i] + [e] + kids[i + 1..];
    TextContentSingle(e);
    SpliceText(kids, i, [e]);
  }

  /** `applyNastaleeq` as written keeps the text of the node it is given. */
  lemma LiveNodePreservesText(compat: bool, n: Node, ctx: seq<ElemInfo>)
    ensures TextContentSeq(LiveNode(compat, n, ctx)) == TextContent(n)
  {
    match n
    case Elem(info, kids) =>
      if !IsProtectedInfo(info, ctx) {
        LiveLoopPreservesText(compat, kids, 0, |kids|, [info] + ctx, n);
        TextContentSingle(LiveNode(compat, n, ctx)[0]);
      } else {
        TextContentSingle(n);
      }
    case _ =>
      RewritePreservesText(compat, n, ctx);
  }

  /** The replacements `f` gives each of `ks`, in order. */
  function ConcatMap(f: Node -> seq<Node>, ks: seq<Node>): seq<Node>
  {
    if ks == [] then [] else f(ks[0]) + ConcatMap(f, ks[1..])
  }

  lemma {:induction false} ConcatMapSnoc(f: Node -> seq<Node>, ks: seq<Node>, k: Node)
    ensures ConcatMap(f, ks + [k]) == ConcatMap(f, ks) + f(k)
  {
    if ks == [] {
      assert ks + [k] == [k] && [k][1..] == [];
    } else {
      assert (ks + [k])[0] == ks[0];
      assert (ks + [k])[1..] == ks[1..] + [k];
      ConcatMapSnoc(f, ks[1..], k);
    }
  }

  /** What the loop leaves in place of the original children `ks` it has
      reached: each one's replacement, in order. */
  function LiveSegs(compat: bool, ks: seq<Node>, ctx: seq<ElemInfo>): seq<Node>
  {
    ConcatMap(k => LiveNode(compat, k, ctx), ks)
  }

  lemma LiveSegsSnoc(compat: bool, ks: seq<Node>, k: Node, ctx: seq<ElemInfo>)
    ensures LiveSegs(compat, ks + [k], ctx) == LiveSegs(compat, ks, ctx) + LiveNode(compat, k, ctx)
  {
    ConcatMapSnoc(k => LiveNode(compat, k, ctx), ks, k);
  }

  /** A node the loop passes over without effect: a piece it inserted itself. */
  predicate Inserted(n: Node)
  {
    IsPlainPiece(n) || IsWrapper(n)
  }

  /** The loop invariant of `LiveLoop`: the list is the replacements of the
      first m original children followed by the other originals untouched,
      and the positions from i up to the end of the replacements hold nodes
      the loop itself inserted. Whatever the count, the loop ends in such a
      state: some prefix of the original children has been processed and
      the rest has not been touched. */
  lemma {:induction false} LiveLoopShape(compat: bool, orig: seq<Node>, m: nat, kids: seq<Node>, i: nat, count: nat, ctx: seq<ElemInfo>, parent: Node)
    requires parent.Elem? && OriginalOrFresh(kids, i, parent)
    requires m <= |orig| && kids == LiveSegs(compat, orig[..m], ctx) + orig[m..]
    requires i <= |LiveSegs(compat, orig[..m], ctx)|
    requires forall j :: i <= j < |LiveSegs(compat, orig[..m], ctx)| ==> Inserted(kids[j])
    ensures exists m' :: m <= m' <= |orig| && LiveLoop(compat, kids, i, count, ctx, parent) == LiveSegs(compat, orig[..m'], ctx) + orig[m'..]
    decreases count - i
  {
    if i >= count || i >= |kids| {
      assert LiveLoop(compat, kids, i, count, ctx, parent) == kids;
    } else if i < |LiveSegs(compat, orig[..m], ctx)| {
      LiveLoopPassesInserted(compat, kids, i, count, ctx, parent);
      LiveLoopShape(compat, orig, m, kids, i + 1, count, ctx, parent);
    } else {
      LiveLoopAdvance(compat, orig, m, kids, i, count, ctx, parent);
      LiveLoopShape(compat, orig, m + 1, LiveSegs(compat, orig[..m + 1], ctx) + orig[m + 1..], i + 1, count, ctx, parent);
    }
  }

  /** Reaching the next original child: afterwards one more child has been
      processed and the invariant of `LiveLoopShape` holds again one step on. */
  lemma LiveLoopAdvance(compat: bool, orig: seq<Node>, m: nat, kids: seq<Node>, i: nat, count: nat, ctx: seq<ElemInfo>, parent: Node)
    requires parent.Elem? && OriginalOrFresh(kids, i, parent)
    requires m <= |orig| && kids == LiveSegs(compat, orig[..m], ctx) + orig[m..]
    requires i < count && i < |kids| && i == |LiveSegs(compat, orig[..m], ctx)|
    ensures m < |orig|
    ensures var kids' := LiveSegs(compat, orig[..m + 1], ctx) + orig[m + 1..];
      && OriginalOrFresh(kids', i + 1, parent)
      && i + 1 <= |LiveSegs(compat, orig[..m + 1], ctx)|
      && (forall j :: i + 1 <= j < |LiveSegs(compat, orig[..m + 1], ctx)| ==> Inserted(kids'[j]))
      && LiveLoop(compat, kids, i, count, ctx, parent) == LiveLoop(compat, kids', i + 1, count, ctx, parent)
  {
    var pre := LiveSegs(compat, orig[..m], ctx);
    var rest := orig[m..];
    assert rest != [] && rest[0] == orig[m] && rest[1..] == orig[m + 1..];
    var seg := LiveNode(compat, orig[m], ctx);
    LiveLoopStep(compat, kids, i, count, ctx, parent, pre, seg, rest);
    assert orig[..m + 1] == orig[..m] + [orig[m]];
    LiveSegsSnoc(compat, orig[..m], orig[m], ctx);
    assert pre + seg + orig[m + 1..] == LiveSegs(compat, orig[..m + 1], ctx) + orig[m + 1..];
  }

  /** Passing over an inserted node changes nothing. */
  lemma LiveLoopPassesInserted(compat: bool, kids: seq<Node>, i: nat, count: nat, ctx: seq<ElemInfo>, parent: Node)
    requires parent.Elem? && OriginalOrFresh(kids, i, parent)
    requires i < count && i < |kids| && Inserted(kids[i])
    ensures OriginalOrFresh(kids, i + 1, parent)
    ensures LiveLoop(compat, kids, i, count, ctx, parent) == LiveLoop(compat, kids, i + 1, count, ctx, parent)
  {
    if kids[i].Elem? {
      MarkedIsProtected(SpanInfo(), ctx);
    }
  }

  /** Processing an original child puts its replacement in its place, and
      what follows the replacement's first node was inserted by the loop. */
  lemma LiveLoopStep(compat: bool, kids: seq<Node>, i: nat, count: nat, ctx: seq<ElemInfo>, parent: Node,
                     pre: seq<Node>, seg: seq<Node>, rest: seq<Node>)
    requires parent.Elem? && OriginalOrFresh(kids, i, parent)
    requires i < count && i == |pre| && rest != [] && kids == pre + rest
    requires seg == LiveNode(compat, rest[0], ctx)
    ensures |seg| >= 1
    ensures OriginalOrFresh(pre + seg + rest[1..], i + 1, parent)
    ensures forall j :: i + 1 <= j < |pre| + |seg| ==> Inserted((pre + seg + rest[1..])[j])
    ensures LiveLoop(compat, kids, i, count, ctx, parent) == LiveLoop(compat, pre + seg + rest[1..], i + 1, count, ctx, parent)
  {
    assert kids[i] == rest[0];
    assert kids[i + 1..] == rest[1..];
    assert kids[..i] == pre;
    if rest[0].Text? && RewriteText(compat, rest[0].data, ctx).Some? {
      LiveLoopSplice(compat, kids, i, count, ctx, parent, seg);
      SpliceInserted(pre, seg, rest[1..]);
    } else if rest[0].Elem? && !IsProtectedInfo(rest[0].info, ctx) {
      LiveLoopDescend(compat, kids, i, count, ctx, parent);
      assert kids[i := seg[0]] == pre + seg + rest[1..];
    } else {
      LiveLoopKeeps(compat, kids, i, count, ctx, parent);
      assert pre + seg + rest[1..] == kids;
    }
  }

  lemma SpliceInserted(pre: seq<Node>, ns: seq<Node>, post: seq<Node>)
    requires forall j :: 1 <= j < |ns| ==> Inserted(ns[j])
    ensures forall j :: |pre| + 1 <= j < |pre| + |ns| ==> Inserted((pre + ns + post)[j])
  {
    forall j | |pre| + 1 <= j < |pre| + |ns| ensures Inserted((pre + ns + post)[j]) {
      assert (pre + ns + post)[j] == ns[j - |pre|];
    }
  }

  /** A text node with something to wrap is replaced by its fragment. */
  lemma LiveLoopSplice(compat: bool, kids: seq<Node>, i: nat, count: nat, ctx: seq<ElemInfo>, parent: Node, ns: seq<Node>)
    requires parent.Elem? && OriginalOrFresh(kids, i, parent)
    requires i < count && i < |kids| && kids[i].Text? && RewriteText(compat, kids[i].data, ctx) == Some(ns)
    ensures |ns| >= 1 && ns == LiveNode(compat, kids[i], ctx)
    ensures OriginalOrFresh(kids[..i] + ns + kids[i + 1..], i + 1, parent)
    ensures forall j :: 1 <= j < |ns| ==> Inserted(ns[j])
    ensures LiveLoop(compat, kids, i, count, ctx, parent) == LiveLoop(compat, kids[..i] + ns + kids[i + 1..], i + 1, count, ctx, parent)
  {
    RewriteTextShape(compat, kids[i].data, ctx);
    SpliceKeepsOriginal(kids, i, ns, parent);
  }

  /** An unprotected element is replaced by itself with its children processed. */
  lemma LiveLoopDescend(compat: bool, kids: seq<Node>, i: nat, count: nat, ctx: seq<ElemInfo>, parent: Node)
    requires parent.Elem? && OriginalOrFresh(kids, i, parent)
    requires i < count && i < |kids| && kids[i].Elem? && !IsProtectedInfo(kids[i].info, ctx)
    ensures |LiveNode(compat, kids[i], ctx)| == 1
    ensures var e := LiveNode(compat, kids[i], ctx)[0];
      && OriginalOrFresh(kids[i := e], i + 1, parent)
      && LiveLoop(compat, kids, i, count, ctx, parent) == LiveLoop(compat, kids[i := e], i + 1, count, ctx, parent)
  {
  }

  /** Every other node stays as it is. */
  lemma LiveLoopKeeps(compat: bool, kids: seq<Node>, i: nat, count: nat, ctx: seq<ElemInfo>, parent: Node)
    requires parent.Elem? && OriginalOrFresh(kids, i, parent)
    requires i < count && i < |kids|
    requires kids[i].Text? ==> RewriteText(compat, kids[i].data, ctx).None?
    requires kids[i].Elem? ==> IsProtectedInfo(kids[i].info, ctx)
    ensures LiveNode(compat, kids[i], ctx) == [kids[i]]
    ensures OriginalOrFresh(kids, i + 1, parent)
    ensures LiveLoop(compat, kids, i, count, ctx, parent) == LiveLoop(compat, kids, i + 1, count, ctx, parent)
  {
  }

  /** The children of an unprotected element after `applyNastaleeq` as
      written: the replacements of some prefix of them, then the rest as
      they were. */
  lemma LiveNodeShape(compat: bool, n: Node, ctx: seq<ElemInfo>)
    requires n.Elem? && !IsProtectedInfo(n.info, ctx)
    ensures exists m :: 0 <= m <= |n.children| && LiveNode(compat, n, ctx) == [Elem(n.info, LiveSegs(compat, n.children[..m], [n.info] + ctx) + n.children[m..])]
  {
    var kids := n.children;
    assert kids[..0] == [] && kids[0..] == kids;
    LiveLoopShape(compat, kids, 0, kids, 0, |kids|, [n.info] + ctx, n);
  }

  // --- The wakeUp calls of the traversal as written ------------------------------

  /** How many text nodes `applyNastaleeq(n)` as written replaces. Each one
      calls `wakeUp()` once per valid match (content.js:163-164), so at
      least once; the other branches never call it. */
  function LiveWakes(compat: bool, n: Node, ctx: seq<ElemInfo>): nat
    decreases n, 1, 0
  {
    match n
    case Elem(info, kids) =>
      if IsProtectedInfo(info, ctx) then 0
      else LiveLoopWakes(compat, kids, 0, |kids|, [info] + ctx, n)
    case Text(d) => if RewriteText(compat, d, ctx).Some? then 1 else 0
    case OtherNode(_) => 0
  }

  /** The same count for the loop `LiveLoop` runs from position i on. */
  function LiveLoopWakes(compat: bool, kids: seq<Node>, i: nat, count: nat, ctx: seq<ElemInfo>, parent: Node): nat
    requires parent.Elem? && OriginalOrFresh(kids, i, parent)
    decreases parent, 0, count - i
  {
    if i >= count || i >= |kids| then 0
    else
      match kids[i]
      case Text(d) =>
        (match RewriteText(compat, d, ctx)
         case None => LiveLoopWakes(compat, kids, i + 1, count, ctx, parent)
         case Some(ns) =>
           RewriteTextShape(compat, d, ctx);
           SpliceKeepsOriginal(kids, i, ns, parent);
           1 + LiveLoopWakes(compat, kids[..i] + ns + kids[i + 1..], i + 1, count, ctx, parent))
      case Elem(info, ch) =>
        if IsProtectedInfo(info, ctx) then LiveLoopWakes(compat, kids, i + 1, count, ctx, parent)
        else
          assert info != SpanInfo();
          var e := Elem(info, LiveLoop(compat, ch, 0, |ch|, [info] + ctx, kids[i]));
          LiveLoopWakes(compat, ch, 0, |ch|, [info] + ctx, kids[i])
            + LiveLoopWakes(compat, kids[i := e], i + 1, count, ctx, parent)
      case OtherNode(_) => LiveLoopWakes(compat, kids, i + 1, count, ctx, parent)
  }

  /** The number of elements in a tree. */
  function ElemCount(n: Node): nat
  {
    match n
    case Elem(_, kids) => 1 + ElemCountSeq(kids)
    case _ => 0
  }

  function ElemCountSeq(ns: seq<Node>): nat
  {
    if ns == [] then 0 else ElemCount(ns[0]) + ElemCountSeq(ns[1..])
  }

  lemma {:induction false} ElemCountSeqAppend(a: seq<Node>, b: seq<Node>)
    ensures ElemCountSeq(a + b) == ElemCountSeq(a) + ElemCountSeq(b)
  {
    if a == [] {
      assert a + b == b;
    } else {
      assert (a + b)[1..] == a[1..] + b;
      ElemCountSeqAppend(a[1..], b);
    }
  }

  lemma ElemCountSplice(kids: seq<Node>, i: nat, ns: seq<Node>)
    requires i < |kids|
    ensures ElemCountSeq(kids[..i] + ns + kids[i + 1..]) + ElemCount(kids[i]) == ElemCountSeq(kids) + ElemCountSeq(ns)
  {
    assert kids == kids[..i] + [kids[i]] + kids[i + 1..];
    ElemCountSeqAppend(kids[..i] + [kids[i]], kids[i + 1..]);
    ElemCountSeqAppend(kids[..i], [kids[i]]);
    ElemCountSeqAppend(kids[..i] + ns, kids[i + 1..]);
    ElemCountSeqAppend(kids[..i], ns);
    assert ElemCountSeq([kids[i]]) == ElemCount(kids[i]) + ElemCountSeq([]);
  }

  /** Every element of a sequence counts towards its total. */
  lemma {:induction false} ElemCountSeqMember(ns: seq<Node>, j: nat)
    requires j < |ns| && ns[j].Elem?
    ensures ElemCountSeq(ns) >= 1
    decreases j
  {
    if j > 0 {
      assert ns[1..][j - 1] == ns[j];
      ElemCountSeqMember(ns[1..], j - 1);
    }
  }

  /** A replaced text node brings at least one new element (a wrapper span). */
  lemma RewriteTextAddsElement(compat: bool, d: JsString, ctx: seq<ElemInfo>)
    requires RewriteText(compat, d, ctx).Some?
    ensures ElemCountSeq(RewriteText(compat, d, ctx).value) >= 1
  {
    RewriteTextShape(compat, d, ctx);
    var ns := RewriteText(compat, d, ctx).value;
    var j :| 0 <= j < |ns| && ns[j].Elem?;
    ElemCountSeqMember(ns, j);
  }

  /** Every text node the loop replaces adds at least one element, and the
      loop never removes one. */
  lemma {:induction false} LiveLoopGrows(compat: bool, kids: seq<Node>, i: nat, count: nat, ctx: seq<ElemInfo>, parent: Node)
    requires parent.Elem? && OriginalOrFresh(kids, i, parent)
    ensures ElemCountSeq(LiveLoop(compat, kids, i, count, ctx, parent)) >= ElemCountSeq(kids) + LiveLoopWakes(compat, kids, i, count, ctx, parent)
    decreases parent, 0, count - i
  {
    if i >= count || i >= |kids| {
    } else {
      match kids[i]
      case Text(d) =>
        if RewriteText(compat, d, ctx).Some? {
          RewriteTextShape(compat, d, ctx);
          var ns := RewriteText(compat, d, ctx).value;
          SpliceKeepsOriginal(kids, i, ns, parent);
          RewriteTextAddsElement(compat, d, ctx);
          ElemCountSplice(kids, i, ns);
          LiveLoopGrows(compat, kids[..i] + ns + kids[i + 1..], i + 1, count, ctx, parent);
        } else {
          LiveLoopGrows(compat, kids, i + 1, count, ctx, parent);
        }
      case Elem(info, ch) =>
        if IsProtectedInfo(info, ctx) {
          LiveLoopGrows(compat, kids, i + 1, count, ctx, parent);
        } else {
          assert info != SpanInfo();
          var e := Elem(info, LiveLoop(compat, ch, 0, |ch|, [info] + ctx, kids[i]));
          LiveLoopGrows(compat, ch, 0, |ch|, [info] + ctx, kids[i]);
          assert kids[i := e] == kids[..i] + [e] + kids[i + 1..];
          ElemCountSplice(kids, i, [e]);
          assert ElemCountSeq([e]) == ElemCount(e) + ElemCountSeq([]);
          LiveLoopGrows(compat, kids[i := e], i + 1, count, ctx, parent);
        }
      case OtherNode(_) =>
        LiveLoopGrows(compat, kids, i + 1, count, ctx, parent);
    }
  }

  /** A loop that replaces no text node leaves the list as it was. */
  lemma {:induction false} LiveLoopQuiet(compat: bool, kids: seq<Node>, i: nat, count: nat, ctx: seq<ElemInfo>, parent: Node)
    requires parent.Elem? && OriginalOrFresh(kids, i, parent)
    requires LiveLoopWakes(compat, kids, i, count, ctx, parent) == 0
    ensures LiveLoop(compat, kids, i, count, ctx, parent) == kids
    decreases parent, 0, count - i
  {
    if i >= count || i >= |kids| {
    } else {
      match kids[i]
      case Text(d) =>
        LiveLoopQuiet(compat, kids, i + 1, count, ctx, parent);
      case Elem(info, ch) =>
        if IsProtectedInfo(info, ctx) {
          LiveLoopQuiet(compat, kids, i + 1, count, ctx, parent);
        } else {
          assert info != SpanInfo();
          LiveLoopQuiet(compat, ch, 0, |ch|, [info] + ctx, kids[i]);
          var e := Elem(info, LiveLoop(compat, ch, 0, |ch|, [info] + ctx, kids[i]));
          assert e == kids[i] && kids[i := e] == kids;
          LiveLoopQuiet(compat, kids, i + 1, count, ctx, parent);
        }
      case OtherNode(_) =>
        LiveLoopQuiet(compat, kids, i + 1, count, ctx, parent);
    }
  }

  /** `applyNastaleeq(n)` as written calls `wakeUp()` exactly when it changes
      something: when n is not left in its own place. */
  lemma LiveWakesIffChanged(compat: bool, n: Node, ctx: seq<ElemInfo>)
    ensures LiveWakes(compat, n, ctx) > 0 <==> LiveNode(compat, n, ctx) != [n]
  {
    match n
    case Elem(info, kids) =>
      if !IsProtectedInfo(info, ctx) {
        LiveLoopGrows(compat, kids, 0, |kids|, [info] + ctx, n);
        if LiveWakes(compat, n, ctx) == 0 {
          LiveLoopQuiet(compat, kids, 0, |kids|, [info] + ctx, n);
        }
      }
    case Text(d) =>
      if RewriteText(compat, d, ctx).Some? {
        RewriteTextAddsElement(compat, d, ctx);
        assert ElemCountSeq([n]) == 0;
      }
    case OtherNode(_) =>
  }

  // --- The skipped children, on a concrete page ----------------------------------

  function PlainInfo(tag: string): ElemInfo
  {
    ElemInfo(Lit(tag), [], StringClass([]), [], false, None, false)
  }

  function Alef(): JsString { [0x0627] }

  function Bang(): JsString { [0x21] }

  lemma PlainElementsUnprotected()
    ensures !IsProtectedInfo(PlainInfo("DIV"), [])
    ensures !IsProtectedInfo(PlainInfo("B"), [PlainInfo("DIV")])
  {
    assert Lit("DIV")[0] == 0x44 && Lit("PRE")[0] == 0x50 && Lit("SVG")[0] == 0x53;
    assert !KeywordHit(PlainInfo("DIV"));
  }

  /** "ا!" under the `<div>`: the alef is wrapped, the "!" stays plain. */
  lemma FirstTextRewrite()
    ensures RewriteText(false, Alef() + Bang(), [PlainInfo("DIV")]) == Some([Span(Alef()), Text(Bang())])
  {
    var s := Alef() + Bang();
    PlainElementsUnprotected();
    assert InPhraseClass(s[0]) && !InPhraseClass(s[1]);
    assert FirstIn(InPhraseClass, s, 0) == 0;
    assert RunEnd(InPhraseClass, s, 1) == 1;
    assert RunEnd(InPhraseClass, s, 0) == 1;
    assert Exec(InPhraseClass, s, 0) == Some(Match(0, 1));
    assert FirstIn(InPhraseClass, s, 2) == 2;
    assert FirstIn(InPhraseClass, s, 1) == 2;
    assert Exec(InPhraseClass, s, 1) == None;
    assert s[0..1] == Alef() && s[1..] == Bang();
    assert HasArabic(Alef()) by { assert IsArabicUnit(Alef()[0]); }
    assert ScanFrom(InPhraseClass, s, false, 0, 0) == Scan(true, [Wrapped(Alef())], 1);
    assert [Wrapped(Alef())] + [Plain(Bang())] == [Wrapped(Alef()), Plain(Bang())];
    assert Fragment(InPhraseClass, s, false) == Some([Wrapped(Alef()), Plain(Bang())]);
    assert HasArabic(s) by { assert IsArabicUnit(s[0]); }
    assert [PlainInfo("DIV")][1..] == [];
    assert PieceNodes([Plain(Bang())]) == [Text(Bang())];
    assert PieceNodes([Wrapped(Alef()), Plain(Bang())]) == [Span(Alef()), Text(Bang())];
  }

  /** "ا" under the `<b>`: the whole text is one wrapped run. */
  lemma SecondTextRewrite()
    ensures RewriteText(false, Alef(), [PlainInfo("B"), PlainInfo("DIV")]) == Some([Span(Alef())])
  {
    var s := Alef();
    PlainElementsUnprotected();
    assert InPhraseClass(s[0]);
    assert RunEnd(InPhraseClass, s, 1) == 1;
    assert RunEnd(InPhraseClass, s, 0) == 1;
    assert Exec(InPhraseClass, s, 0) == Some(Match(0, 1));
    assert Exec(InPhraseClass, s, 1) == None;
    assert s[0..1] == Alef();
    assert HasArabic(Alef()) by { assert IsArabicUnit(Alef()[0]); }
    assert ScanFrom(InPhraseClass, s, false, 0, 0) == Scan(true, [Wrapped(Alef())], 1);
    assert [Wrapped(Alef())] + [] == [Wrapped(Alef())];
    assert Fragment(InPhraseClass, s, false) == Some([Wrapped(Alef())]);
    assert [PlainInfo("B"), PlainInfo("DIV")][1..] == [PlainInfo("DIV")];
    assert PieceNodes([Wrapped(Alef())]) == [Span(Alef())];
  }

  function SampleB(): Node
  {
    Elem(PlainInfo("B"), [Text(Alef())])
  }

  /** `<div>ا!<b>ا</b></div>` */
  function SampleDiv(): Node
  {
    Elem(PlainInfo("DIV"), [Text(Alef() + Bang()), SampleB()])
  }

  /** `<div>ا!<b>ا</b></div>` with the feature on: the loop as written wraps
      the first alef, then spends its second (and last) iteration on the "!"
      text node it has just inserted, and never reaches the `<b>` element,
      whose alef stays unwrapped. */
  lemma LiveLoopSkipsLastChild()
    ensures LiveNode(false, SampleDiv(), []) ==
      [Elem(PlainInfo("DIV"), [Span(Alef()), Text(Bang()), SampleB()])]
    ensures !Settled(LiveNode(false, SampleDiv(), [])[0], [])
  {
    var s := Alef() + Bang();
    var b := SampleB();
    var div := SampleDiv();
    var dctx := [PlainInfo("DIV")];
    var bctx := [PlainInfo("B"), PlainInfo("DIV")];
    PlainElementsUnprotected();
    FirstTextRewrite();
    assert !HasArabic(Bang());
    assert RewriteText(false, Bang(), dctx) == None;

    var spliced := [Span(Alef()), Text(Bang()), b];
    assert [Text(s), b][..0] + [Span(Alef()), Text(Bang())] + [Text(s), b][1..] == spliced;
    assert LiveLoop(false, spliced, 2, 2, dctx, div) == spliced;
    assert LiveLoop(false, spliced, 1, 2, dctx, div) == spliced;
    assert LiveLoop(false, [Text(s), b], 0, 2, dctx, div) == spliced;
    assert [PlainInfo("DIV")] + [] == dctx;
    assert LiveNode(false, div, []) == [Elem(PlainInfo("DIV"), spliced)];

    assert HasArabic(Alef()) by { assert IsArabicUnit(Alef()[0]); }
    assert bctx[1..] == dctx && [PlainInfo("B")] + dctx == bctx;
    assert !Settled(Text(Alef()), bctx);
    assert spliced[2] == b;
    assert b.children[0] == Text(Alef()) && [b.info] + dctx == bctx;
    assert !Settled(b.children[0], [b.info] + dctx);
    assert !Settled(b, dctx);
  }

  /** Visiting every original child wraps both alefs of the same page. */
  lemma RewriteVisitsEveryChild()
    ensures RewriteNode(false, SampleDiv(), []) ==
      [Elem(PlainInfo("DIV"), [Span(Alef()), Text(Bang()), Elem(PlainInfo("B"), [Span(Alef())])])]
    ensures AllSettled(RewriteNode(false, SampleDiv(), []), [])
  {
    var s := Alef() + Bang();
    var b := SampleB();
    var dctx := [PlainInfo("DIV")];
    var bctx := [PlainInfo("B"), PlainInfo("DIV")];
    PlainElementsUnprotected();
    FirstTextRewrite();
    SecondTextRewrite();
    assert [PlainInfo("B")] + dctx == bctx;
    assert RewriteChildren(false, [Text(Alef())], bctx) == [Span(Alef())];
    assert RewriteNode(false, b, dctx) == [Elem(PlainInfo("B"), [Span(Alef())])];
    assert RewriteChildren(false, [b], dctx) == [Elem(PlainInfo("B"), [Span(Alef())])];
    assert [PlainInfo("DIV")] + [] == dctx;
    assert RewriteNode(false, Text(s), dctx) == [Span(Alef()), Text(Bang())];
    assert [Span(Alef()), Text(Bang())] + [Elem(PlainInfo("B"), [Span(Alef())])] ==
      [Span(Alef()), Text(Bang()), Elem(PlainInfo("B"), [Span(Alef())])];
    RewriteSettles(false, SampleDiv(), []);
  }
}
