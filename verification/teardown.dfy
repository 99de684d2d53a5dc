/** The disabled branch of `applyNastaleeq` (content.js:128-140): every wrapper
    span below an element is replaced by its own children and the span's
    former parent is normalized, which merges the text the rewrite had split.
    Then the whole `applyNastaleeq` dispatch, and the round trip: turning the
    feature off after it was on gives back the page as it was. */
module Teardown {
  import opened Js
  import opened Dom
  import opened Protection
  import opened Rewriter

  /** The siblings a list of children becomes, and whether a wrapper span
      among them was unwrapped (so that their parent gets normalized). */
  datatype Unwrapped = Unwrapped(nodes: seq<Node>, touched: bool)

  /** An element after the disabled branch has run on it. The node itself is
      never unwrapped: `querySelectorAll` only finds descendants. */
  function TeardownNode(n: Node): Node
    decreases n, 1
  {
    match n
    case Elem(info, kids) =>
      var u := TeardownChildren(kids);
      Elem(info, if u.touched then NormalizeChildren(u.nodes) else u.nodes)
    case _ => n
  }

  /** One child: a wrapper span is replaced by its (unwrapped) children, any
      other node stays, with its own subtree torn down. */
  function TeardownChild(k: Node): Unwrapped
    decreases k, 2
  {
    if IsMarkerSpan(k) then Unwrapped(TeardownChildren(k.children).nodes, true)
    else Unwrapped([TeardownNode(k)], false)
  }

  function TeardownChildren(ks: seq<Node>): Unwrapped
    decreases ks, 0
  {
    if ks == [] then Unwrapped([], false)
    else
      var a := TeardownChild(ks[0]);
      var b := TeardownChildren(ks[1..]);
      Unwrapped(a.nodes + b.nodes, a.touched || b.touched)
  }

  /** No wrapper span anywhere among these nodes or below them. */
  predicate MarkerFree(ns: seq<Node>)
    decreases ns
  {
    forall i :: 0 <= i < |ns| ==> !IsMarkerSpan(ns[i]) && (ns[i].Elem? ==> MarkerFree(ns[i].children))
  }

  lemma MarkerFreeAppend(a: seq<Node>, b: seq<Node>)
    ensures MarkerFree(a + b) <==> MarkerFree(a) && MarkerFree(b)
  {
    if MarkerFree(a) && MarkerFree(b) {
      forall i | 0 <= i < |a + b|
        ensures !IsMarkerSpan((a + b)[i]) && ((a + b)[i].Elem? ==> MarkerFree((a + b)[i].children))
      {
        if i < |a| {
          assert (a + b)[i] == a[i];
        } else {
          assert (a + b)[i] == b[i - |a|];
        }
      }
    }
    if MarkerFree(a + b) {
      forall i | 0 <= i < |a| ensures !IsMarkerSpan(a[i]) && (a[i].Elem? ==> MarkerFree(a[i].children)) {
        assert (a + b)[i] == a[i];
      }
      forall i | 0 <= i < |b| ensures !IsMarkerSpan(b[i]) && (b[i].Elem? ==> MarkerFree(b[i].children)) {
        assert (a + b)[|a| + i] == b[i];
      }
    }
  }

  lemma TeardownChildrenAppend(a: seq<Node>, b: seq<Node>)
    ensures TeardownChildren(a + b) ==
      Unwrapped(TeardownChildren(a).nodes + TeardownChildren(b).nodes,
                TeardownChildren(a).touched || TeardownChildren(b).touched)
  {
    if a == [] {
      assert a + b == b;
    } else {
      assert (a + b)[0] == a[0];
      assert (a + b)[1..] == a[1..] + b;
      TeardownChildrenAppend(a[1..], b);
      var x := TeardownChild(a[0]).nodes;
      assert x + (TeardownChildren(a[1..]).nodes + TeardownChildren(b).nodes)
          == (x + TeardownChildren(a[1..]).nodes) + TeardownChildren(b).nodes;
    }
  }

  // ---------------------------------------------------------------------------
  // What the teardown promises
  // ---------------------------------------------------------------------------

  /** Unwrapping and normalizing keep the text content. */
  lemma {:induction false} TeardownPreservesText(n: Node)
    ensures TextContent(TeardownNode(n)) == TextContent(n)
    decreases n, 1
  {
    if n.Elem? {
      var u := TeardownChildren(n.children);
      TeardownChildrenPreservesText(n.children);
      if u.touched {
        NormalizePreservesText(u.nodes);
      }
    }
  }

  lemma {:induction false} TeardownChildPreservesText(k: Node)
    ensures TextContentSeq(TeardownChild(k).nodes) == TextContent(k)
    decreases k, 2
  {
    if IsMarkerSpan(k) {
      TeardownChildrenPreservesText(k.children);
    } else {
      TeardownPreservesText(k);
      TextContentSingle(TeardownNode(k));
    }
  }

  lemma {:induction false} TeardownChildrenPreservesText(ks: seq<Node>)
    ensures TextContentSeq(TeardownChildren(ks).nodes) == TextContentSeq(ks)
    decreases ks, 0
  {
    if ks != [] {
      TeardownChildPreservesText(ks[0]);
      TeardownChildrenPreservesText(ks[1..]);
      TextContentSeqAppend(TeardownChild(ks[0]).nodes, TeardownChildren(ks[1..]).nodes);
    }
  }

  lemma {:induction false} MergeKeepsMarkerFree(ns: seq<Node>)
    requires MarkerFree(ns)
    ensures MarkerFree(Merge(ns))
  {
    var r := Merge(ns);
    forall i | 0 <= i < |r| && r[i].Elem?
      ensures !IsMarkerSpan(r[i]) && MarkerFree(r[i].children)
    {
      MergeElements(ns, i);
    }
  }

  /** `normalize()` never creates a wrapper span. */
  lemma {:induction false} NormalizeKeepsMarkerFree(ns: seq<Node>)
    requires MarkerFree(ns)
    ensures MarkerFree(NormalizeChildren(ns))
    decreases ns, 1
  {
    NormalizeEachKeepsMarkerFree(ns);
    MergeKeepsMarkerFree(NormalizeEach(ns));
  }

  lemma {:induction false} NormalizeEachKeepsMarkerFree(ns: seq<Node>)
    requires MarkerFree(ns)
    ensures MarkerFree(NormalizeEach(ns))
    decreases ns, 0
  {
    if ns != [] {
      if ns[0].Elem? {
        NormalizeKeepsMarkerFree(ns[0].children);
      }
      assert MarkerFree([NormalizeNode(ns[0])]);
      assert MarkerFree(ns[1..]) by {
        MarkerFreeAppend([ns[0]], ns[1..]);
        assert ns == [ns[0]] + ns[1..];
      }
      NormalizeEachKeepsMarkerFree(ns[1..]);
      MarkerFreeAppend([NormalizeNode(ns[0])], NormalizeEach(ns[1..]));
    }
  }

  /** No wrapper span is left anywhere below the element. */
  lemma {:induction false} TeardownRemovesMarkers(n: Node)
    requires n.Elem?
    ensures MarkerFree(TeardownNode(n).children)
    decreases n, 1
  {
    var u := TeardownChildren(n.children);
    TeardownChildrenRemoveMarkers(n.children);
    if u.touched {
      NormalizeKeepsMarkerFree(u.nodes);
    }
  }

  lemma {:induction false} TeardownChildRemovesMarkers(k: Node)
    ensures MarkerFree(TeardownChild(k).nodes)
    decreases k, 2
  {
    if IsMarkerSpan(k) {
      TeardownChildrenRemoveMarkers(k.children);
    } else if k.Elem? {
      TeardownRemovesMarkers(k);
      assert MarkerFree([TeardownNode(k)]);
    }
  }

  lemma {:induction false} TeardownChildrenRemoveMarkers(ks: seq<Node>)
    ensures MarkerFree(TeardownChildren(ks).nodes)
    decreases ks, 0
  {
    if ks != [] {
      TeardownChildRemovesMarkers(ks[0]);
      TeardownChildrenRemoveMarkers(ks[1..]);
      MarkerFreeAppend(TeardownChild(ks[0]).nodes, TeardownChildren(ks[1..]).nodes);
    }
  }

  /** Below an element without wrapper spans the teardown changes nothing. */
  lemma {:induction false} TeardownOfMarkerFree(n: Node)
    requires n.Elem? ==> MarkerFree(n.children)
    ensures TeardownNode(n) == n
    decreases n, 1
  {
    if n.Elem? {
      TeardownChildrenOfMarkerFree(n.children);
    }
  }

  lemma {:induction false} TeardownChildrenOfMarkerFree(ks: seq<Node>)
    requires MarkerFree(ks)
    ensures TeardownChildren(ks) == Unwrapped(ks, false)
    decreases ks, 0
  {
    if ks != [] {
      TeardownOfMarkerFree(ks[0]);
      assert MarkerFree(ks[1..]) by {
        MarkerFreeAppend([ks[0]], ks[1..]);
        assert ks == [ks[0]] + ks[1..];
      }
      TeardownChildrenOfMarkerFree(ks[1..]);
      assert ks == [ks[0]] + ks[1..];
    }
  }

  /** Turning the feature off twice is the same as turning it off once. */
  lemma TeardownIdempotent(n: Node)
    ensures TeardownNode(TeardownNode(n)) == TeardownNode(n)
  {
    if n.Elem? {
      TeardownRemovesMarkers(n);
    }
    TeardownOfMarkerFree(TeardownNode(n));
  }

  // ---------------------------------------------------------------------------
  // The round trip
  // ---------------------------------------------------------------------------

  predicate AllText(ns: seq<Node>)
  {
    forall i :: 0 <= i < |ns| ==> ns[i].Text?
  }

  /** Unwrapping the fragment of a text node gives back text nodes only, with
      the same text; some span was unwrapped. */
  lemma {:induction false} TeardownOfFragment(ns: seq<Node>)
    requires FragmentShape(ns)
    ensures AllText(TeardownChildren(ns).nodes)
    ensures TextContentSeq(TeardownChildren(ns).nodes) == TextContentSeq(ns)
    ensures TeardownChildren(ns).touched <==> exists i :: 0 <= i < |ns| && ns[i].Elem?
  {
    TeardownChildrenPreservesText(ns);
    if ns != [] {
      var x := ns[0];
      assert IsPlainPiece(x) || IsWrapper(x);
      if IsWrapper(x) {
        var t := TextContent(x);
        assert [Text(t)][1..] == [] && [Text(t)] + [] == [Text(t)];
        assert TeardownChild(Text(t)) == Unwrapped([Text(t)], false);
        assert TeardownChildren([Text(t)]) == Unwrapped([Text(t)], false);
        assert TeardownChild(x) == Unwrapped([Text(t)], true);
      } else {
        assert TeardownChild(x) == Unwrapped([x], false);
      }
      assert FragmentShape(ns[1..]) by {
        forall i | 0 <= i < |ns[1..]| ensures IsPlainPiece(ns[1..][i]) || IsWrapper(ns[1..][i]) {
          assert ns[1..][i] == ns[i + 1];
        }
      }
      TeardownOfFragment(ns[1..]);
      var a: seq<Node> := TeardownChild(x).nodes;
      var b: seq<Node> := TeardownChildren(ns[1..]).nodes;
      forall i | 0 <= i < |a + b| ensures (a + b)[i].Text? {
        if i >= |a| {
          assert (a + b)[i] == b[i - |a|];
        }
      }
      if exists i :: 0 <= i < |ns[1..]| && ns[1..][i].Elem? {
        var i :| 0 <= i < |ns[1..]| && ns[1..][i].Elem?;
        assert ns[i + 1].Elem?;
      }
      if exists i :: 0 <= i < |ns| && ns[i].Elem? {
        var i :| 0 <= i < |ns| && ns[i].Elem?;
        if i > 0 {
          assert ns[1..][i - 1].Elem?;
        }
      }
    }
  }

  /** The children a text node or element turns into under the rewrite, once
      unwrapped, prepend to merged siblings exactly as the node itself did. */
  lemma {:induction false} RoundTripChild(compat: bool, k: Node, ctx: seq<ElemInfo>, m: seq<Node>)
    requires !IsMarkerSpan(k)
    requires k.Text? ==> k.data != []
    requires k.Elem? ==> Normalized(k.children) && MarkerFree(k.children)
    ensures var u := TeardownChildren(RewriteNode(compat, k, ctx));
      && FoldCons(u.nodes, m) == Cons(k, m)
      && (!u.touched ==> u.nodes == [k])
      && ElemsNormalized(u.nodes)
    decreases k, 3
  {
    var r := RewriteNode(compat, k, ctx);
    if k.Text? && RewriteText(compat, k.data, ctx).Some? {
      RewriteTextShape(compat, k.data, ctx);
      TeardownOfFragment(r);
      FoldConsTexts(TeardownChildren(r).nodes, m);
    } else {
      if k.Elem? {
        RoundTrip(compat, k, ctx);
      } else {
        TeardownOfMarkerFree(k);
      }
      assert |r| == 1;
      var x := r[0];
      assert x.Elem? ==> x.info == k.info;
      assert TeardownNode(x) == k;
      assert TeardownChildren(r) == Unwrapped([k], false) by {
        assert r == [x];
        assert TeardownChild(x) == Unwrapped([k], false);
      }
      assert FoldCons([k], m) == Cons(k, FoldCons([], m));
    }
  }

  lemma {:induction false} RoundTripChildren(compat: bool, kids: seq<Node>, ctx: seq<ElemInfo>)
    requires Normalized(kids) && MarkerFree(kids)
    ensures var u := TeardownChildren(RewriteChildren(compat, kids, ctx));
      && Merge(u.nodes) == Merge(kids)
      && (!u.touched ==> u.nodes == kids)
      && ElemsNormalized(u.nodes)
    decreases kids, 1
  {
    if kids != [] {
      var k := kids[0];
      var a := RewriteNode(compat, k, ctx);
      var b := RewriteChildren(compat, kids[1..], ctx);
      NormalizedTail(kids);
      assert MarkerFree(kids[1..]) by {
        MarkerFreeAppend([kids[0]], kids[1..]);
        assert kids == [kids[0]] + kids[1..];
      }
      RoundTripChildren(compat, kids[1..], ctx);
      RoundTripChild(compat, k, ctx, Merge(kids[1..]));
      assert RewriteChildren(compat, kids, ctx) == a + b;
      TeardownChildrenAppend(a, b);
      var ua := TeardownChildren(a);
      var ub := TeardownChildren(b);
      MergeAppend(ua.nodes, ub.nodes);
      ElemsNormalizedAppend(ua.nodes, ub.nodes);
      assert Merge(kids) == Cons(k, Merge(kids[1..]));
      if !ua.touched && !ub.touched {
        assert ua.nodes + ub.nodes == [k] + kids[1..] == kids;
      }
    }
  }

  /** Rewriting an element whose subtree is normalized and holds no wrapper
      span, then tearing the result down, gives back the element unchanged. */
  lemma {:induction false} RoundTrip(compat: bool, n: Node, ctx: seq<ElemInfo>)
    requires n.Elem? && Normalized(n.children) && MarkerFree(n.children)
    ensures |RewriteNode(compat, n, ctx)| == 1
    ensures TeardownNode(RewriteNode(compat, n, ctx)[0]) == n
    decreases n, 2
  {
    if IsProtectedInfo(n.info, ctx) {
      TeardownOfMarkerFree(n);
    } else {
      var kids := n.children;
      RoundTripChildren(compat, kids, [n.info] + ctx);
      var u := TeardownChildren(RewriteChildren(compat, kids, [n.info] + ctx));
      if u.touched {
        NormalizeEachIdentity(u.nodes);
        MergeOfTopNormalized(kids);
      }
    }
  }

  /** The round trip for `applyNastaleeq` as written. The live loop may
      stop before the last original children (see `LiveLoopShape`), but a
      child it never reaches is left exactly as it was, so tearing the
      result down still gives back the element unchanged. */
  lemma {:induction false} RoundTripLive(compat: bool, n: Node, ctx: seq<ElemInfo>)
    requires n.Elem? && Normalized(n.children) && MarkerFree(n.children)
    ensures |LiveNode(compat, n, ctx)| == 1
    ensures TeardownNode(LiveNode(compat, n, ctx)[0]) == n
    decreases n, 2, 0
  {
    if IsProtectedInfo(n.info, ctx) {
      TeardownOfMarkerFree(n);
    } else {
      var kids := n.children;
      var ctx' := [n.info] + ctx;
      LiveNodeShape(compat, n, ctx);
      var m :| 0 <= m <= |kids| && LiveNode(compat, n, ctx) == [Elem(n.info, LiveSegs(compat, kids[..m], ctx') + kids[m..])];
      RoundTripPrefix(compat, n, ctx', m);
    }
  }

  /** Below an element: the replacements of its first m children followed by
      the others untouched tear down to the children it had. */
  lemma {:induction false} RoundTripPrefix(compat: bool, n: Node, ctx: seq<ElemInfo>, m: nat)
    requires n.Elem? && Normalized(n.children) && MarkerFree(n.children) && m <= |n.children|
    ensures var u := TeardownChildren(LiveSegs(compat, n.children[..m], ctx) + n.children[m..]);
      (if u.touched then NormalizeChildren(u.nodes) else u.nodes) == n.children
    decreases n, 1, |n.children| + 1
  {
    var kids := n.children;
    var pre, tail := kids[..m], kids[m..];
    assert kids == pre + tail;
    MarkerFreeAppend(pre, tail);
    forall i | 0 <= i < |pre| ensures Restorable(pre[i]) && pre[i] in n.children {
      assert pre[i] == kids[i];
    }
    RoundTripLiveSegs(compat, pre, ctx, Merge(tail), n);
    var ua := TeardownChildren(LiveSegs(compat, pre, ctx));
    TeardownChildrenOfMarkerFree(tail);
    TeardownChildrenAppend(LiveSegs(compat, pre, ctx), tail);
    MergeAppend(ua.nodes, tail);
    MergeAppend(pre, tail);
    MergeOfTopNormalized(kids);
    if ua.touched {
      assert ElemsNormalized(tail) by {
        forall i | 0 <= i < |tail| && tail[i].Elem? ensures Normalized(tail[i].children) {
          assert tail[i] == kids[m + i];
        }
      }
      ElemsNormalizedAppend(ua.nodes, tail);
      NormalizeEachIdentity(ua.nodes + tail);
    }
  }

  /** What the round trip asks of one original child. */
  predicate Restorable(k: Node)
  {
    && !IsMarkerSpan(k)
    && (k.Text? ==> k.data != [])
    && (k.Elem? ==> Normalized(k.children) && MarkerFree(k.children))
  }

  /** The replacements of children the live loop reached, once unwrapped,
      fold onto any merged tail exactly as the children themselves do. */
  lemma {:induction false} RoundTripLiveSegs(compat: bool, ks: seq<Node>, ctx: seq<ElemInfo>, m: seq<Node>, parent: Node)
    requires parent.Elem? && forall i :: 0 <= i < |ks| ==> ks[i] in parent.children
    requires forall i :: 0 <= i < |ks| ==> Restorable(ks[i])
    ensures var u := TeardownChildren(LiveSegs(compat, ks, ctx));
      && FoldCons(u.nodes, m) == FoldCons(ks, m)
      && (!u.touched ==> u.nodes == ks)
      && ElemsNormalized(u.nodes)
    decreases parent, 1, |ks|
  {
    if ks != [] {
      var a := LiveNode(compat, ks[0], ctx);
      var b := LiveSegs(compat, ks[1..], ctx);
      assert Restorable(ks[0]);
      assert forall i :: 0 <= i < |ks[1..]| ==> Restorable(ks[1..][i]) by {
        forall i | 0 <= i < |ks[1..]| ensures Restorable(ks[1..][i]) {
          assert ks[1..][i] == ks[i + 1];
        }
      }
      assert forall i :: 0 <= i < |ks[1..]| ==> ks[1..][i] in parent.children by {
        forall i | 0 <= i < |ks[1..]| ensures ks[1..][i] in parent.children {
          assert ks[1..][i] == ks[i + 1];
        }
      }
      assert ks[0] in parent.children;
      RoundTripLiveSegs(compat, ks[1..], ctx, m, parent);
      var ub := TeardownChildren(b);
      RoundTripLiveChild(compat, ks[0], ctx, FoldCons(ks[1..], m));
      var ua := TeardownChildren(a);
      TeardownChildrenAppend(a, b);
      FoldConsAppend(ua.nodes, ub.nodes, m);
      ElemsNormalizedAppend(ua.nodes, ub.nodes);
      if !ua.touched && !ub.touched {
        assert ua.nodes + ub.nodes == [ks[0]] + ks[1..] == ks;
      }
    }
  }

  lemma {:induction false} RoundTripLiveChild(compat: bool, k: Node, ctx: seq<ElemInfo>, m: seq<Node>)
    requires Restorable(k)
    ensures var u := TeardownChildren(LiveNode(compat, k, ctx));
      && FoldCons(u.nodes, m) == Cons(k, m)
      && (!u.touched ==> u.nodes == [k])
      && ElemsNormalized(u.nodes)
    decreases k, 3, 0
  {
    if k.Elem? {
      RoundTripLive(compat, k, ctx);
      var r := LiveNode(compat, k, ctx);
      var x := r[0];
      assert x.info == k.info;
      assert TeardownChildren(r) == Unwrapped([k], false) by {
        assert r == [x];
        assert TeardownChild(x) == Unwrapped([k], false);
      }
      assert FoldCons([k], m) == Cons(k, FoldCons([], m));
    } else {
      assert LiveNode(compat, k, ctx) == RewriteNode(compat, k, ctx);
      RoundTripChild(compat, k, ctx, m);
    }
  }

  // ---------------------------------------------------------------------------
  // The dispatch
  // ---------------------------------------------------------------------------

  /** `applyNastaleeq(node)`: what takes the node's place in its parent.
      `enabled` is `globalEnable && isSiteEnabled`. */
  function ApplyNastaleeq(enabled: bool, compat: bool, n: Node, ctx: seq<ElemInfo>): seq<Node>
  {
    if !enabled then (if n.Elem? then [TeardownNode(n)] else [n])
    else LiveNode(compat, n, ctx)
  }

  /** How many text nodes `applyNastaleeq(node)` replaces, each of which
      calls `wakeUp()` at least once; with the feature off the function
      returns before any text node is looked at. */
  function ApplyWakes(enabled: bool, compat: bool, n: Node, ctx: seq<ElemInfo>): nat
  {
    if enabled then LiveWakes(compat, n, ctx) else 0
  }

  /** A text node is replaced exactly when the feature is on, its text holds
      an Arabic-block unit and its parent element is not protected; in every
      other case it stays as it is. */
  lemma ApplyReplacesText(enabled: bool, compat: bool, d: JsString, ctx: seq<ElemInfo>)
    ensures ApplyNastaleeq(enabled, compat, Text(d), ctx) != [Text(d)] <==>
      enabled && HasArabic(d) && |ctx| > 0 && !IsProtectedInfo(ctx[0], ctx[1..])
  {
    TextCase(compat, d, ctx);
  }

  /** With the feature off a node keeps its place, its text and its own
      attributes, and no wrapper span remains below it. */
  lemma ApplyDisabled(compat: bool, n: Node, ctx: seq<ElemInfo>)
    ensures |ApplyNastaleeq(false, compat, n, ctx)| == 1
    ensures var r := ApplyNastaleeq(false, compat, n, ctx)[0];
      && TextContent(r) == TextContent(n)
      && r.Elem? == n.Elem?
      && (n.Elem? ==> r.info == n.info && MarkerFree(r.children))
      && (!n.Elem? ==> r == n)
  {
    TeardownPreservesText(n);
    if n.Elem? {
      TeardownRemovesMarkers(n);
    }
  }

  /** Turning the feature on and then off again over an element whose subtree
      is normalized and free of wrapper spans restores it exactly. */
  lemma ApplyRoundTrip(compat: bool, n: Node, ctx: seq<ElemInfo>)
    requires n.Elem? && Normalized(n.children) && MarkerFree(n.children)
    ensures var on := ApplyNastaleeq(true, compat, n, ctx);
      |on| == 1 && ApplyNastaleeq(false, compat, on[0], ctx) == [n]
  {
    RoundTripLive(compat, n, ctx);
  }
}
