/** The protection guard `isProtectedElement`: which elements the rewriter must
    never touch (content.js:17-67). */
module Protection {
  import opened Js
  import opened Dom

  /** `IGNORED_TAGS`: compared against `tagName`, which is upper-case for HTML
      elements only (an inline `<svg>` reports "svg" and so is not in the set). */
  function IgnoredTags(): set<JsString>
  {
    { Lit("SCRIPT"), Lit("STYLE"), Lit("NOSCRIPT"), Lit("CODE"), Lit("PRE"), Lit("IFRAME"),
      Lit("SVG"), Lit("VIDEO"), Lit("CANVAS"), Lit("OBJECT"), Lit("EMBED"), Lit("BR"),
      Lit("HR"), Lit("HEAD"), Lit("META"), Lit("LINK") }
  }

  /** The form-control tags. */
  function FormTags(): seq<JsString>
  {
    [Lit("INPUT"), Lit("TEXTAREA"), Lit("BUTTON"), Lit("SELECT"), Lit("OPTION")]
  }

  /** `KEYBOARD_KEYWORDS` */
  function Keywords(): seq<JsString>
  {
    [Lit("keyboard"), Lit("keypad"), Lit("virtual"), Lit("kb-"), Lit("-kb"), Lit("vk_")]
  }

  /** `el.isContentEditable || el.getAttribute('contenteditable') === 'true'` */
  predicate IsEditable(e: ElemInfo)
  {
    e.isContentEditable || e.contentEditableAttr == Some(Lit("true"))
  }

  /** `parent.id ? parent.id.toLowerCase() : ''` */
  function LowerId(e: ElemInfo): JsString
  {
    if e.id != [] then ToLower(e.id) else []
  }

  /** `typeof parent.className === 'string' ? parent.className.toLowerCase() : ''` */
  function LowerClass(e: ElemInfo): JsString
  {
    match e.className
    case StringClass(s) => ToLower(s)
    case NonStringClass => []
  }

  /** The `for (const keyword of KEYBOARD_KEYWORDS)` loop from keyword k on. */
  predicate AnyKeyword(id: JsString, cls: JsString, k: nat)
    decreases |Keywords()| - k
  {
    if k >= |Keywords()| then false
    else if Includes(id, Keywords()[k]) || Includes(cls, Keywords()[k]) then true
    else AnyKeyword(id, cls, k + 1)
  }

  /** The id/class test of one ancestor, guarded by `if (id || cls)`. */
  predicate KeywordHit(e: ElemInfo)
  {
    var id := LowerId(e);
    var cls := LowerClass(e);
    (id != [] || cls != []) && AnyKeyword(id, cls, 0)
  }

  /** The ancestor walk: `while (parent && levels < 4 && parent !== document.body)`.
      `ancestors` is the `parentElement` chain, nearest first. */
  predicate AncestorWalk(ancestors: seq<ElemInfo>, levels: nat)
    decreases |ancestors|
  {
    if ancestors == [] || levels >= 4 || ancestors[0].isDocumentBody then false
    else if KeywordHit(ancestors[0]) then true
    else if IsEditable(ancestors[0]) then true
    else AncestorWalk(ancestors[1..], levels + 1)
  }

  /** `isProtectedElement` on an element whose ancestors (nearest first) are given. */
  predicate IsProtectedInfo(e: ElemInfo, ancestors: seq<ElemInfo>)
  {
    if e.tagName in IgnoredTags() then true
    else if e.tagName in FormTags() then true
    else if IsEditable(e) then true
    else if MarkerClass() in e.classList then true
    else AncestorWalk(ancestors, 0)
  }

  /** `isProtectedElement(node)`: anything that is not an element is protected. */
  predicate IsProtectedElement(n: Node, ancestors: seq<ElemInfo>)
  {
    !n.Elem? || IsProtectedInfo(n.info, ancestors)
  }

  // ---------------------------------------------------------------------------
  // The guard in closed form
  // ---------------------------------------------------------------------------

  /** The lower-cased id or class string contains one of the keywords. */
  predicate MentionsKeyword(e: ElemInfo)
  {
    exists k :: 0 <= k < |Keywords()| &&
      (Includes(LowerId(e), Keywords()[k]) || Includes(LowerClass(e), Keywords()[k]))
  }

  /** How many ancestors the walk can look at: those strictly below `document.body`,
      and never more than four. */
  function WalkDepth(ancestors: seq<ElemInfo>, levels: nat): (d: nat)
    ensures d <= |ancestors|
    ensures levels + d <= 4 || d == 0
    ensures forall j :: 0 <= j < d ==> !ancestors[j].isDocumentBody
    ensures d < |ancestors| && levels + d < 4 ==> ancestors[d].isDocumentBody
    decreases |ancestors|
  {
    if ancestors == [] || levels >= 4 || ancestors[0].isDocumentBody then 0
    else 1 + WalkDepth(ancestors[1..], levels + 1)
  }

  lemma {:induction false} AnyKeywordMeans(id: JsString, cls: JsString, k: nat)
    ensures AnyKeyword(id, cls, k) <==>
      exists j :: k <= j < |Keywords()| && (Includes(id, Keywords()[j]) || Includes(cls, Keywords()[j]))
    decreases |Keywords()| - k
  {
    if k < |Keywords()| {
      AnyKeywordMeans(id, cls, k + 1);
    }
  }

  /** The `if (id || cls)` guard never hides a match: every keyword is non-empty,
      and an empty string contains no non-empty string. */
  lemma KeywordHitMeans(e: ElemInfo)
    ensures KeywordHit(e) <==> MentionsKeyword(e)
  {
    AnyKeywordMeans(LowerId(e), LowerClass(e), 0);
    if MentionsKeyword(e) {
      var k :| 0 <= k < |Keywords()| &&
        (Includes(LowerId(e), Keywords()[k]) || Includes(LowerClass(e), Keywords()[k]));
      assert |Keywords()[k]| >= 3;
      if Includes(LowerId(e), Keywords()[k]) {
        var i :| 0 <= i <= |LowerId(e)| && OccursAt(LowerId(e), Keywords()[k], i);
      } else {
        var i :| 0 <= i <= |LowerClass(e)| && OccursAt(LowerClass(e), Keywords()[k], i);
      }
    }
  }

  lemma {:induction false} AncestorWalkMeans(ancestors: seq<ElemInfo>, levels: nat)
    ensures AncestorWalk(ancestors, levels) <==>
      exists j :: 0 <= j < WalkDepth(ancestors, levels) &&
        (MentionsKeyword(ancestors[j]) || IsEditable(ancestors[j]))
    decreases |ancestors|
  {
    if ancestors == [] || levels >= 4 || ancestors[0].isDocumentBody {
    } else {
      var d := WalkDepth(ancestors, levels);
      KeywordHitMeans(ancestors[0]);
      AncestorWalkMeans(ancestors[1..], levels + 1);
      var tail := ancestors[1..];
      if exists j :: 0 <= j < d && (MentionsKeyword(ancestors[j]) || IsEditable(ancestors[j])) {
        var j :| 0 <= j < d && (MentionsKeyword(ancestors[j]) || IsEditable(ancestors[j]));
        if j > 0 {
          assert tail[j - 1] == ancestors[j];
        }
      }
      if exists j :: 0 <= j < WalkDepth(tail, levels + 1) && (MentionsKeyword(tail[j]) || IsEditable(tail[j])) {
        var j :| 0 <= j < WalkDepth(tail, levels + 1) && (MentionsKeyword(tail[j]) || IsEditable(tail[j]));
        assert ancestors[j + 1] == tail[j];
      }
    }
  }

  /** An element is protected exactly when it is not an element; or its tag is
      ignored or a form control; or it is editable; or it carries the marker
      class; or one of the first (at most four) ancestors strictly below
      `document.body` is editable or has a keyword in its lower-cased id or
      class string. The element's own id and class are never keyword-checked. */
  lemma ProtectedExactly(n: Node, ancestors: seq<ElemInfo>)
    ensures IsProtectedElement(n, ancestors) <==>
      || !n.Elem?
      || n.info.tagName in IgnoredTags()
      || n.info.tagName in FormTags()
      || IsEditable(n.info)
      || MarkerClass() in n.info.classList
      || exists j :: 0 <= j < WalkDepth(ancestors, 0) &&
           (MentionsKeyword(ancestors[j]) || IsEditable(ancestors[j]))
  {
    AncestorWalkMeans(ancestors, 0);
  }

  /** Anything carrying the marker class, in particular every wrapper span the
      rewriter creates, is protected wherever it sits. */
  lemma MarkedIsProtected(e: ElemInfo, ancestors: seq<ElemInfo>)
    requires MarkerClass() in e.classList
    ensures IsProtectedInfo(e, ancestors)
  {
  }
}
