/** The settings side of the content script: deriving `extensionSettings`
    from storage (content.js:294-311) and from an `updateSettings` message
    (content.js:315-321); the font-size policy and the skip-identical-write
    rule of `updateStyles` (content.js:225-291); the `wakeUp` latch
    (content.js:72-74); and the typing-detection class toggle
    (content.js:207-223). */
module Settings {
  import opened Js
  import opened Dom
  import opened Rewriter
  import opened Teardown

  /** `extensionSettings`: the five properties the content script reads, as
      the JavaScript values they hold. */
  datatype Settings = Settings(
    globalEnable: JsValue,
    fontFamily: JsValue,
    fontSize: JsValue,
    compatMode: JsValue,
    isSiteEnabled: JsValue)

  function DefaultFamily(): JsString
  {
    Lit("Jameel Noori Nastaleeq")
  }

  const DefaultSize: int := 20

  /** The value `extensionSettings` holds before storage answers. */
  function InitialSettings(): Settings
  {
    Settings(Bool(true), Str(DefaultFamily()), Num(DefaultSize), Bool(false), Bool(true))
  }

  /** Reading a key of a plain object; a missing key reads `undefined`. */
  function Get(o: map<JsString, JsValue>, key: JsString): JsValue
  {
    if key in o then o[key] else Undefined
  }

  /** `v[key]` on a truthy value. A primitive has no own property that could
      be `false` (a string's `length` and index properties are a number and
      strings), so reading it as `undefined` gives the same comparisons. The
      same holds for an array: its `length` is a number, and a host name is
      never an array index (a numeric host is read as an IPv4 address and
      written with dots). */
  function Prop(v: JsValue, key: JsString): JsValue
  {
    match v
    case Obj(p) => Get(p, key)
    case _ => Undefined
  }

  /** The callback of `chrome.storage.sync.get`: `result` is the answer
      object and `host` is `window.location.hostname`. The feature is on
      afterwards exactly when `globalEnable` is not stored as `false`,
      `siteSettings` is stored and truthy, and the host's entry in it is not
      `false`: a missing host entry means on, a missing `siteSettings` means
      off. Compatibility mode is on only for a stored `true`; a falsy stored
      size or family (0, "", absent) falls back to the default. */
  function FromStorage(result: map<JsString, JsValue>, host: JsString): (r: Settings)
    ensures var site := Get(result, Lit("siteSettings"));
      Enabled(r) <==>
        && Get(result, Lit("globalEnable")) != Bool(false)
        && Truthy(site)
        && Prop(site, host) != Bool(false)
    ensures CompatMode(r) <==> Get(result, Lit("compatMode")) == Bool(true)
    ensures Truthy(Get(result, Lit("fontSize"))) ==> r.fontSize == Get(result, Lit("fontSize"))
    ensures !Truthy(Get(result, Lit("fontSize"))) ==> r.fontSize == Num(DefaultSize)
    ensures Truthy(Get(result, Lit("fontFamily"))) ==> r.fontFamily == Get(result, Lit("fontFamily"))
    ensures !Truthy(Get(result, Lit("fontFamily"))) ==> r.fontFamily == Str(DefaultFamily())
  {
    var site := Get(result, Lit("siteSettings"));
    Settings(
      Bool(Get(result, Lit("globalEnable")) != Bool(false)),
      Or(Get(result, Lit("fontFamily")), Str(DefaultFamily())),
      Or(Get(result, Lit("fontSize")), Num(DefaultSize)),
      Bool(Get(result, Lit("compatMode")) == Bool(true)),
      if !Truthy(site) then site else Bool(Prop(site, host) != Bool(false)))
  }

  /** `extensionSettings.globalEnable && extensionSettings.isSiteEnabled` */
  predicate Enabled(s: Settings)
  {
    Truthy(s.globalEnable) && Truthy(s.isSiteEnabled)
  }

  /** The content script's `compatMode` test. */
  predicate CompatMode(s: Settings)
  {
    Truthy(s.compatMode)
  }

  /** With nothing stored at all the feature is off, even though
      `globalEnable` defaults to on. */
  lemma EmptyStorageIsOff(host: JsString)
    ensures FromStorage(map[], host).globalEnable == Bool(true)
    ensures !Enabled(FromStorage(map[], host))
  {
  }

  /** A runtime message: `request.action`, `request.settings` (an object)
      and `request.isSiteEnabled`. */
  datatype Message = Message(action: JsString, settings: map<JsString, JsValue>, isSiteEnabled: JsValue)

  /** The `onMessage` listener's effect on `extensionSettings`. Any other
      action is ignored. An update replaces the settings wholesale, without
      the defaults storage loading applies, and takes the site switch from
      the message itself. */
  function OnMessage(s: Settings, m: Message): (r: Settings)
    ensures m.action != Lit("updateSettings") ==> r == s
    ensures m.action == Lit("updateSettings") ==>
      && r.isSiteEnabled == m.isSiteEnabled
      && (Enabled(r) <==> Truthy(Get(m.settings, Lit("globalEnable"))) && Truthy(m.isSiteEnabled))
      && (CompatMode(r) <==> Truthy(Get(m.settings, Lit("compatMode"))))
      && r.fontFamily == Get(m.settings, Lit("fontFamily"))
      && r.fontSize == Get(m.settings, Lit("fontSize"))
      && (Lit("fontSize") !in m.settings ==> r.fontSize == Undefined)
  {
    if m.action != Lit("updateSettings") then s
    else
      Settings(
        Get(m.settings, Lit("globalEnable")),
        Get(m.settings, Lit("fontFamily")),
        Get(m.settings, Lit("fontSize")),
        Get(m.settings, Lit("compatMode")),
        m.isSiteEnabled)
  }

  /** An update keeps nothing of the settings it replaces: the outcome
      depends on the message alone. */
  lemma OnMessageForgetsPrevious(s: Settings, s': Settings, m: Message)
    requires m.action == Lit("updateSettings")
    ensures OnMessage(s, m) == OnMessage(s', m)
  {
  }

  /** The size popup.js sends as `updateFontSize` never reaches the settings. */
  lemma FontSizeMessageIgnored(s: Settings, settings: map<JsString, JsValue>, site: JsValue)
    ensures OnMessage(s, Message(Lit("updateFontSize"), settings, site)) == s
  {
    assert Lit("updateFontSize")[6] != Lit("updateSettings")[6];
  }

  // ---------------------------------------------------------------------------
  // The font-size policy
  // ---------------------------------------------------------------------------

  /** The values `updateStyles` interpolates into its style sheet. */
  datatype Css = Css(fontSize: JsString, lineHeight: JsString, socialFontSize: JsString, fontFamily: JsString)

  function Inherit(): JsString
  {
    Lit("inherit")
  }

  function Px(s: Settings): JsString
  {
    ToJsString(s.fontSize) + Lit("px")
  }

  /** `fontSize == 20` (loose equality), and the values chosen from it. */
  function CssFor(s: Settings): Css
  {
    var isDefault := LooseEqualsInt(s.fontSize, DefaultSize);
    Css(
      if isDefault then Inherit() else Px(s),
      if isDefault then Inherit() else Lit("1.8"),
      if isDefault then Lit("20px") else Px(s),
      ToJsString(s.fontFamily))
  }

  /** At the default size (20, or anything loosely equal to it such as "20"
      or " 20 ") wrapped text inherits both size and line height from the
      page; at any other size it gets that size in px and line height 1.8. */
  lemma CssSpec(s: Settings)
    ensures var c := CssFor(s);
      && (c.fontSize == Inherit() <==> LooseEqualsInt(s.fontSize, DefaultSize))
      && (c.lineHeight == Inherit() <==> LooseEqualsInt(s.fontSize, DefaultSize))
      && (!LooseEqualsInt(s.fontSize, DefaultSize) ==> c.fontSize == Px(s) && c.lineHeight == Lit("1.8"))
  {
    var c := CssFor(s);
    if !LooseEqualsInt(s.fontSize, DefaultSize) {
      assert c.fontSize[|c.fontSize| - 1] == LitUnit('x');
      assert Inherit()[6] == LitUnit('t');
    }
  }

  /** A size stored as an array of one number or string (`[24]`) styles the
      page exactly as its element would: `[20] == 20` holds and `${[24]}`
      is "24". */
  lemma SingletonArraySize(s: Settings, v: JsValue)
    requires v.Num? || v.Str?
    ensures CssFor(s.(fontSize := Arr([v]))) == CssFor(s.(fontSize := v))
  {
    SingletonArrayLooseEquals(v, DefaultSize);
    SingletonArrayString(v);
  }

  /** In the social-media override the size is always explicit: for a
      numeric setting n it is exactly n px, the default 20 included. */
  lemma SocialSizeIsExplicit(s: Settings, n: int)
    requires s.fontSize == Num(n)
    ensures CssFor(s).socialFontSize == IntToString(n) + Lit("px")
  {
    if n == DefaultSize {
      assert IntToString(20) == Digits(2) + [(0x30 + 0) as Unit];
      assert Lit("20px") == IntToString(20) + Lit("px");
    }
  }

  /** A size stored as the text of an integer, bare or with spaces around
      it ("20", " 20 "), is loosely equal to exactly that integer, so "20"
      takes the default branch and any other number text does not. */
  lemma NumberTextSize(n: int, k: int)
    ensures LooseEqualsInt(Str(IntToString(n)), k) <==> n == k
    ensures LooseEqualsInt(Str(Lit(" ") + IntToString(n) + Lit(" ")), k) <==> n == k
  {
    IntStringReadsBack(n);
    PaddedIntStringReadsBack(n);
  }


  // ---------------------------------------------------------------------------
  // The style sheet and the skip-identical-write rule
  // ---------------------------------------------------------------------------

  /** A style sheet's text: empty, or the rules generated from some values.
      The generated text is never empty, so `Cleared` also stands for the
      initial `lastAppliedStyles = ""`. */
  datatype Sheet = Cleared | Rules(css: Css)

  /** The text of `#urdu-font-size-style-v194` and `lastAppliedStyles`. */
  datatype StyleState = StyleState(sheet: Sheet, lastApplied: Sheet)

  function InitialStyles(): StyleState
  {
    StyleState(Cleared, Cleared)
  }

  /** The sheet the settings call for. */
  function Wanted(s: Settings): Sheet
  {
    if Enabled(s) then Rules(CssFor(s)) else Cleared
  }

  /** The style part of `updateStyles` as written: disabling empties the
      sheet but leaves `lastAppliedStyles` alone. */
  function UpdateSheetAsWritten(st: StyleState, s: Settings): StyleState
  {
    if !Enabled(s) then st.(sheet := Cleared)
    else
      var r := Rules(CssFor(s));
      if r != st.lastApplied then StyleState(r, r) else st
  }

  /** The style part of `updateStyles` with `lastAppliedStyles` reset when
      the sheet is emptied, so the skip test compares against what the sheet
      really holds. From a state where `lastAppliedStyles` mirrors the sheet,
      the sheet always ends up holding what the latest settings call for,
      whatever came before; skipping a write is then always safe. */
  function UpdateSheet(st: StyleState, s: Settings): (r: StyleState)
    ensures InSync(st) ==> InSync(r) && r.sheet == Wanted(s)
  {
    if !Enabled(s) then StyleState(Cleared, Cleared)
    else
      var r := Rules(CssFor(s));
      if r != st.lastApplied then StyleState(r, r) else st
  }

  /** Turning the feature off and on again with unchanged settings leaves
      the page without its style sheet: the second enabling update finds its
      text equal to `lastAppliedStyles` and skips the write. */
  lemma StaleSheetAfterReenable(s: Settings, off: Settings)
    requires Enabled(s) && !Enabled(off)
    ensures var st := UpdateSheetAsWritten(UpdateSheetAsWritten(UpdateSheetAsWritten(InitialStyles(), s), off), s);
      st.sheet == Cleared && Wanted(s) != Cleared
  {
  }

  /** `lastAppliedStyles` mirrors the sheet. */
  predicate InSync(st: StyleState)
  {
    st.sheet == st.lastApplied
  }

  /** While the feature stays on, the code as written and the corrected
      version agree. */
  lemma AsWrittenAgreesWhileEnabled(st: StyleState, s: Settings)
    requires InSync(st) && Enabled(s)
    ensures UpdateSheetAsWritten(st, s) == UpdateSheet(st, s)
  {
  }

  // ---------------------------------------------------------------------------
  // The whole of updateStyles and init
  // ---------------------------------------------------------------------------

  /** The style sheet and `document.body` (an element) with its
      `parentElement` chain. */
  datatype Page = Page(styles: StyleState, body: Node, bodyCtx: seq<ElemInfo>)

  /** `updateStyles()` as written. When the feature is off only the sheet
      is emptied: `lastAppliedStyles` keeps its rules, and the early
      `return` skips `applyNastaleeq`, so wrapper spans already on the page
      stay. When it is on, `lastAppliedStyles` ends up holding the wanted
      rules, the sheet holds them unless the write was skipped because
      `lastAppliedStyles` already held them, and the body goes through the
      live-list traversal. */
  function UpdateStyles(p: Page, s: Settings): (r: Page)
    ensures !Enabled(s) ==> r == p.(styles := StyleState(Cleared, p.styles.lastApplied))
    ensures Enabled(s) ==> r.styles.lastApplied == Wanted(s)
    ensures Enabled(s) ==>
      (r.styles.sheet == Wanted(s) <==> p.styles.sheet == Wanted(s) || p.styles.lastApplied != Wanted(s))
    ensures r.bodyCtx == p.bodyCtx
  {
    var st := UpdateSheetAsWritten(p.styles, s);
    if !Enabled(s) || !p.body.Elem? then p.(styles := st)
    else p.(styles := st, body := LiveNode(CompatMode(s), p.body, p.bodyCtx)[0])
  }

  /** `updateStyles` as written keeps the body's text. While the feature is
      on and `lastAppliedStyles` mirrors the sheet, the sheet ends up
      holding what the settings call for. Turning the feature on over a body
      that is normalized and free of wrapper spans can be undone exactly by
      the disabled branch of `applyNastaleeq`, even though the live
      traversal may leave later children unvisited. */
  lemma UpdateStylesSpec(p: Page, s: Settings)
    ensures var r := UpdateStyles(p, s);
      && TextContent(r.body) == TextContent(p.body)
      && (Enabled(s) && InSync(p.styles) ==> InSync(r.styles) && r.styles.sheet == Wanted(s))
      && (Enabled(s) && p.body.Elem? && Normalized(p.body.children) && MarkerFree(p.body.children) ==>
            TeardownNode(r.body) == p.body)
  {
    var c := CompatMode(s);
    if Enabled(s) && p.body.Elem? {
      LiveNodePreservesText(c, p.body, p.bodyCtx);
      var r := LiveNode(c, p.body, p.bodyCtx);
      assert r == [r[0]];
      TextContentSingle(r[0]);
      if Normalized(p.body.children) && MarkerFree(p.body.children) {
        RoundTripLive(c, p.body, p.bodyCtx);
      }
    }
    if Enabled(s) && InSync(p.styles) {
      AsWrittenAgreesWhileEnabled(p.styles, s);
    }
  }

  /** `updateStyles` with both corrections: `lastAppliedStyles` is reset
      with the sheet, and every original child of the body is visited. */
  function UpdateStylesCorrected(p: Page, s: Settings): Page
  {
    var st := UpdateSheet(p.styles, s);
    if !Enabled(s) || !p.body.Elem? then p.(styles := st)
    else p.(styles := st, body := RewriteNode(CompatMode(s), p.body, p.bodyCtx)[0])
  }

  /** With both corrections, from a state where `lastAppliedStyles` mirrors
      the sheet (the corrected rule keeps it so), the sheet always holds
      what the settings call for, and with the feature on the body keeps
      its text and has nothing left to wrap. */
  lemma UpdateStylesCorrectedSpec(p: Page, s: Settings)
    requires InSync(p.styles) && p.body.Elem?
    ensures var r := UpdateStylesCorrected(p, s);
      && r.styles.sheet == Wanted(s)
      && InSync(r.styles)
      && TextContent(r.body) == TextContent(p.body)
      && (Enabled(s) ==> Settled(r.body, p.bodyCtx))
      && (!Enabled(s) ==> r.body == p.body)
  {
    var c := CompatMode(s);
    RewritePreservesText(c, p.body, p.bodyCtx);
    RewriteSettles(c, p.body, p.bodyCtx);
    var r := RewriteNode(c, p.body, p.bodyCtx);
    assert r == [r[0]];
    TextContentSingle(r[0]);
  }

  /** `init()` at page load, over the body and its `parentElement` chain:
      the settings, the page, and whether the input listener was bound. The
      script starts with no style sheet and `lastAppliedStyles = ""`. */
  function Init(result: map<JsString, JsValue>, host: JsString, body: Node, bodyCtx: seq<ElemInfo>): (Settings, Page, bool)
  {
    var s := FromStorage(result, host);
    var p := Page(InitialStyles(), body, bodyCtx);
    if Enabled(s) then (s, UpdateStyles(p, s), true) else (s, p, false)
  }

  /** Loading with the feature off touches neither the sheet nor the page
      and binds no listener; with it on, the listener is bound, the sheet
      holds the rules for the loaded settings and the body keeps its text. */
  lemma InitSpec(result: map<JsString, JsValue>, host: JsString, body: Node, bodyCtx: seq<ElemInfo>)
    ensures var (s, q, listening) := Init(result, host, body, bodyCtx);
      && s == FromStorage(result, host)
      && (listening <==> Enabled(s))
      && (!listening ==> q == Page(InitialStyles(), body, bodyCtx))
      && (listening ==> q.styles == StyleState(Rules(CssFor(s)), Rules(CssFor(s))))
      && TextContent(q.body) == TextContent(body)
  {
    UpdateStylesSpec(Page(InitialStyles(), body, bodyCtx), FromStorage(result, host));
  }

  // ---------------------------------------------------------------------------
  // wakeUp
  // ---------------------------------------------------------------------------

  /** `isWokenUp`, and how many times the font-face sheet has been appended. */
  datatype Latch = Latch(woken: bool, injected: nat)

  function WakeUp(l: Latch): Latch
  {
    if l.woken then l else Latch(true, l.injected + 1)
  }

  /** n calls of `wakeUp()` in a row. */
  function WakeMany(l: Latch, n: nat): Latch
    decreases n
  {
    if n == 0 then l else WakeMany(WakeUp(l), n - 1)
  }

  lemma {:induction false} WokenStaysPut(l: Latch, n: nat)
    requires l.woken
    ensures WakeMany(l, n) == l
    decreases n
  {
    if n > 0 {
      WokenStaysPut(WakeUp(l), n - 1);
    }
  }

  /** However often `wakeUp` runs, the font faces are injected at most once:
      exactly once as soon as it has run at all. */
  lemma WakeUpInjectsOnce(n: nat)
    ensures WakeMany(Latch(false, 0), n).injected == (if n == 0 then 0 else 1)
    ensures WakeMany(Latch(false, 0), n).woken <==> n > 0
  {
    if n > 0 {
      WokenStaysPut(Latch(true, 1), n - 1);
    }
  }

  /** Once woken, further calls change nothing, so after any positive
      number of calls the latch is where a single call leaves it. */
  lemma {:induction false} WakeManyOnce(l: Latch, n: nat)
    requires n > 0
    ensures WakeMany(l, n) == WakeUp(l)
  {
    WokenStaysPut(WakeUp(l), n - 1);
  }

  /** The latch after `applyNastaleeq(node)`: woken exactly when it already
      was or the feature is on and the node did not keep its place; the
      font faces are injected once more exactly when that wakes it. */
  lemma ApplyWakesLatch(enabled: bool, compat: bool, n: Node, ctx: seq<ElemInfo>, l: Latch)
    ensures var after := WakeMany(l, ApplyWakes(enabled, compat, n, ctx));
      var changed := enabled && ApplyNastaleeq(enabled, compat, n, ctx) != [n];
      && (after.woken <==> l.woken || changed)
      && after.injected == (if !l.woken && changed then l.injected + 1 else l.injected)
  {
    var k := ApplyWakes(enabled, compat, n, ctx);
    LiveWakesIffChanged(compat, n, ctx);
    if k > 0 {
      WakeManyOnce(l, k);
    }
  }

  // ---------------------------------------------------------------------------
  // handleInputDetection
  // ---------------------------------------------------------------------------

  /** The event target: its `value`, its `innerText` and its class list. */
  datatype InputTarget = InputTarget(value: JsValue, innerText: JsValue, classList: seq<JsString>)

  function TypingClass(): JsString
  {
    Lit("urdu-typing-detected")
  }

  /** `classList.remove(c)` */
  function RemoveClass(cl: seq<JsString>, c: JsString): seq<JsString>
  {
    if cl == [] then []
    else (if cl[0] == c then [] else [cl[0]]) + RemoveClass(cl[1..], c)
  }

  lemma {:induction false} RemoveClassMembers(cl: seq<JsString>, c: JsString)
    ensures forall d :: d in RemoveClass(cl, c) <==> d in cl && d != c
  {
    if cl != [] {
      RemoveClassMembers(cl[1..], c);
      assert cl == [cl[0]] + cl[1..];
    }
  }

  /** `target.value || target.innerText || ""` */
  function TypedText(t: InputTarget): JsString
  {
    ToJsString(Or(Or(t.value, t.innerText), Str([])))
  }

  /** The target afterwards, and whether `wakeUp` was called. */
  function HandleInput(target: Option<InputTarget>): (Option<InputTarget>, bool)
  {
    match target
    case None => (None, false)
    case Some(t) =>
      if HasArabic(TypedText(t)) then
        if TypingClass() in t.classList then (target, false)
        else (Some(t.(classList := t.classList + [TypingClass()])), true)
      else (Some(t.(classList := RemoveClass(t.classList, TypingClass()))), false)
  }

  /** Afterwards the target carries the typing class exactly when its text
      holds an Arabic-block unit; no other class, and nothing else about the
      target, changes; `wakeUp` runs exactly when the class is newly added. */
  lemma HandleInputSpec(t: InputTarget)
    ensures var (r, woke) := HandleInput(Some(t));
      && r.Some?
      && r.value.value == t.value && r.value.innerText == t.innerText
      && (TypingClass() in r.value.classList <==> HasArabic(TypedText(t)))
      && (forall c :: c != TypingClass() ==> (c in r.value.classList <==> c in t.classList))
      && (woke <==> HasArabic(TypedText(t)) && TypingClass() !in t.classList)
  {
    RemoveClassMembers(t.classList, TypingClass());
  }

  /** Handling the same input twice changes nothing more and never wakes twice. */
  lemma HandleInputIdempotent(t: InputTarget)
    ensures var r := HandleInput(Some(t)).0;
      HandleInput(r) == (r, false)
  {
    RemoveClassMembers(t.classList, TypingClass());
    var r := HandleInput(Some(t)).0.value;
    assert TypedText(r) == TypedText(t);
    if !HasArabic(TypedText(t)) {
      RemoveClassIdempotent(t.classList, TypingClass());
    }
  }

  lemma {:induction false} RemoveClassIdempotent(cl: seq<JsString>, c: JsString)
    ensures RemoveClass(RemoveClass(cl, c), c) == RemoveClass(cl, c)
  {
    if cl != [] {
      RemoveClassIdempotent(cl[1..], c);
      var head := if cl[0] == c then [] else [cl[0]];
      var tail := RemoveClass(cl[1..], c);
      if cl[0] != c {
        assert (head + tail)[0] == cl[0];
        assert (head + tail)[1..] == tail;
      } else {
        assert head + tail == tail;
      }
    }
  }
}
