/** Phrase segmentation: the `phraseRegex` character class and the
    `while ((match = phraseRegex.exec(text)) !== null)` loop of the text
    branch of `applyNastaleeq` (content.js:123, 152-184), as pure functions
    over code-unit strings. The loop is generic in the character class `cls`;
    the content script's instance is `InPhraseClass`. */
module Segmentation {
  import opened Js

  // ---------------------------------------------------------------------------
  // The character class
  // ---------------------------------------------------------------------------

  /** The class of `phraseRegex` exactly as written. Without the `u` flag,
      `\F` is an identity escape for the letter F, so `\FB50-﷿` is the
      three members F, B, 5 followed by the range `0-﷿` (U+0030..U+FDFF). */
  predicate InPhraseClass(u: Unit)
  {
    || (0x0600 <= u <= 0x06FF) || (0x0750 <= u <= 0x077F) || (0x08A0 <= u <= 0x08FF)
    || u == 0x46 || u == 0x42 || u == 0x35 || (0x30 <= u <= 0xFDFF)
    || (0xFE70 <= u <= 0xFEFF) || u == 0x200C || u == 0x200F
    || (0x064B <= u <= 0x065F) || (0x06D6 <= u <= 0x06ED)
    || IsJsSpace(u) || IsAsciiDigit(u)
    || u == 0x060C || u == 0x061B || u == 0x061F || u == 0x06D4
    || u == 0x2019 || u == 0x2018 || u == 0x201C || u == 0x201D
  }

  /** What the class really holds: ASCII white space, U+0030..U+FDFF and
      U+FE70..U+FEFF. Latin letters, digits, most punctuation above '/',
      and both halves of every surrogate pair are inside it. */
  lemma PhraseClassEffective(u: Unit)
    ensures InPhraseClass(u) <==>
      (0x09 <= u <= 0x0D) || u == 0x20 || (0x30 <= u <= 0xFDFF) || (0xFE70 <= u <= 0xFEFF)
  {
  }

  /** The class contains the whole Arabic block, which the pre-filter and the
      per-run test look for. */
  predicate CoversArabic(cls: Unit -> bool)
  {
    forall u: Unit :: IsArabicUnit(u) ==> cls(u)
  }

  lemma PhraseClassCoversArabic()
    ensures CoversArabic(InPhraseClass)
  {
  }

  predicate AllIn(cls: Unit -> bool, s: JsString)
  {
    forall i :: 0 <= i < |s| ==> cls(s[i])
  }

  // ---------------------------------------------------------------------------
  // One `exec` of a global regex `/([class]+)/g`
  // ---------------------------------------------------------------------------

  datatype Match = Match(start: nat, end: nat)

  function FirstIn(cls: Unit -> bool, s: JsString, from: nat): (k: nat)
    requires from <= |s|
    ensures from <= k <= |s|
    ensures forall j :: from <= j < k ==> !cls(s[j])
    ensures k < |s| ==> cls(s[k])
    decreases |s| - from
  {
    if from == |s| || cls(s[from]) then from else FirstIn(cls, s, from + 1)
  }

  function RunEnd(cls: Unit -> bool, s: JsString, start: nat): (e: nat)
    requires start <= |s|
    ensures start <= e <= |s|
    ensures forall j :: start <= j < e ==> cls(s[j])
    ensures e < |s| ==> !cls(s[e])
    decreases |s| - start
  {
    if start == |s| || !cls(s[start]) then start else RunEnd(cls, s, start + 1)
  }

  /** `phraseRegex.exec(text)` with `phraseRegex.lastIndex == from`: the leftmost
      match at or after `from`, extended as far as the class allows. */
  function Exec(cls: Unit -> bool, s: JsString, from: nat): (r: Option<Match>)
    requires from <= |s|
    ensures r.None? ==> forall j :: from <= j < |s| ==> !cls(s[j])
    ensures r.Some? ==>
      && from <= r.value.start < r.value.end <= |s|
      && (forall j :: from <= j < r.value.start ==> !cls(s[j]))
      && AllIn(cls, s[r.value.start..r.value.end])
      && (r.value.end < |s| ==> !cls(s[r.value.end]))
  {
    var st := FirstIn(cls, s, from);
    if st == |s| then None
    else
      var en := RunEnd(cls, s, st);
      assert AllIn(cls, s[st..en]) by {
        forall i | 0 <= i < en - st ensures cls(s[st..en][i]) {
          assert s[st..en][i] == s[st + i];
        }
      }
      Some(Match(st, en))
  }

  // ---------------------------------------------------------------------------
  // The fragment
  // ---------------------------------------------------------------------------

  /** One entry of the fragment: a plain text node or a wrapper span's text. */
  datatype Piece = Plain(text: JsString) | Wrapped(text: JsString)

  /** The text of the pieces, in order. */
  function Joined(ps: seq<Piece>): JsString
  {
    if ps == [] then [] else ps[0].text + Joined(ps[1..])
  }

  lemma {:induction false} JoinedAppend(a: seq<Piece>, b: seq<Piece>)
    ensures Joined(a + b) == Joined(a) + Joined(b)
  {
    if a == [] {
      assert a + b == b;
    } else {
      assert (a + b)[0] == a[0];
      assert (a + b)[1..] == a[1..] + b;
      JoinedAppend(a[1..], b);
    }
  }

  /** The state the loop leaves: whether a run qualified (`hasValidMatch`), the
      pieces appended so far, and `lastIndex`. */
  datatype Scan = Scan(valid: bool, pieces: seq<Piece>, last: nat)

  /** `matchedText.trim().replace(/[0-9\s]/g, '').length >= 1` */
  predicate HasNonDigitNonSpace(run: JsString)
  {
    |StripDigitsAndSpaces(Trim(run))| >= 1
  }

  /** The loop from regex position `from` with local `lastIndex == last`. A run
      with no Arabic-block unit is skipped without advancing `last`, so it ends
      up inside the next gap or the tail. */
  function ScanFrom(cls: Unit -> bool, s: JsString, compat: bool, from: nat, last: nat): (r: Scan)
    requires last <= from <= |s|
    ensures last <= r.last <= |s|
    ensures !r.valid ==> r.pieces == [] && r.last == last
    decreases |s| - from
  {
    match Exec(cls, s, from)
    case None => Scan(false, [], last)
    case Some(m) =>
      var run := s[m.start..m.end];
      if !HasArabic(run) then ScanFrom(cls, s, compat, m.end, last)
      else
        var gap := if m.start > last then [Plain(s[last..m.start])] else [];
        var piece := if !compat || HasNonDigitNonSpace(run) then Wrapped(run) else Plain(run);
        var rest := ScanFrom(cls, s, compat, m.end, m.end);
        Scan(true, gap + [piece] + rest.pieces, rest.last)
  }

  /** The fragment that replaces the text node, or None when no run qualified
      and the node is left alone. */
  function Fragment(cls: Unit -> bool, s: JsString, compat: bool): Option<seq<Piece>>
  {
    var sc := ScanFrom(cls, s, compat, 0, 0);
    if !sc.valid then None
    else Some(sc.pieces + (if sc.last < |s| then [Plain(s[sc.last..])] else []))
  }

  // ---------------------------------------------------------------------------
  // What a well-formed fragment looks like
  // ---------------------------------------------------------------------------

  predicate PieceOk(cls: Unit -> bool, p: Piece)
  {
    && p.text != []
    && (p.Wrapped? ==> AllIn(cls, p.text) && HasArabic(p.text))
    && (p.Plain? ==> !HasArabic(p.text))
  }

  /** Neighbours alternate between plain text and spans, and a span's text is
      bounded on each side by a unit outside the class. */
  predicate PairOk(cls: Unit -> bool, a: Piece, b: Piece)
  {
    && a.text != [] && b.text != []
    && (a.Plain? <==> b.Wrapped?)
    && (a.Wrapped? ==> !cls(b.text[0]))
    && (b.Wrapped? ==> !cls(a.text[|a.text| - 1]))
  }

  /** Every piece is non-empty; spans hold class units including an Arabic-block
      one; plain pieces hold no Arabic-block unit; spans and plain pieces
      alternate; a span is bordered by units outside the class. Together with
      `Joined(ps) == s` this says each span is exactly one maximal class run of
      s that contains an Arabic-block unit, and every such run is a span. */
  predicate WellSegmented(cls: Unit -> bool, ps: seq<Piece>)
  {
    && (forall i :: 0 <= i < |ps| ==> PieceOk(cls, ps[i]))
    && (forall i :: 0 <= i < |ps| - 1 ==> PairOk(cls, ps[i], ps[i + 1]))
  }

  lemma WellSegmentedAppend(cls: Unit -> bool, a: seq<Piece>, b: seq<Piece>)
    requires WellSegmented(cls, a) && WellSegmented(cls, b)
    requires a != [] && b != [] ==> PairOk(cls, a[|a| - 1], b[0])
    ensures WellSegmented(cls, a + b)
  {
    var c := a + b;
    forall i | 0 <= i < |c| ensures PieceOk(cls, c[i]) {
      if i < |a| { assert c[i] == a[i]; } else { assert c[i] == b[i - |a|]; }
    }
    forall i | 0 <= i < |c| - 1 ensures PairOk(cls, c[i], c[i + 1]) {
      if i + 1 < |a| {
        assert c[i] == a[i] && c[i + 1] == a[i + 1];
      } else if i + 1 == |a| {
        assert c[i] == a[|a| - 1] && c[i + 1] == b[0];
      } else {
        assert c[i] == b[i - |a|] && c[i + 1] == b[i + 1 - |a|];
      }
    }
  }

  // ---------------------------------------------------------------------------
  // Small facts about slices
  // ---------------------------------------------------------------------------

  lemma NoArabicOutsideClass(cls: Unit -> bool, s: JsString, a: nat, b: nat)
    requires CoversArabic(cls)
    requires a <= b <= |s|
    requires forall j :: a <= j < b ==> !cls(s[j])
    ensures !HasArabic(s[a..b])
  {
    forall i | 0 <= i < b - a ensures !IsArabicUnit(s[a..b][i]) {
      assert s[a..b][i] == s[a + i];
    }
  }

  lemma NoArabicJoin(s: JsString, a: nat, b: nat, c: nat)
    requires a <= b <= c <= |s|
    requires !HasArabic(s[a..b]) && !HasArabic(s[b..c])
    ensures !HasArabic(s[a..c])
  {
    assert s[a..c] == s[a..b] + s[b..c];
    HasArabicAppend(s[a..b], s[b..c]);
  }

  lemma ArabicWidens(s: JsString, a: nat, b: nat, a': nat, b': nat)
    requires a' <= a <= b <= b' <= |s|
    requires HasArabic(s[a..b])
    ensures HasArabic(s[a'..b'])
  {
    var i :| 0 <= i < b - a && IsArabicUnit(s[a..b][i]);
    assert s[a'..b'][a - a' + i] == s[a..b][i];
  }

  // ---------------------------------------------------------------------------
  // The loop builds a well-formed, content-preserving fragment
  // ---------------------------------------------------------------------------

  /** What the loop produced from local `lastIndex == last`: pieces spelling
      `s[last..r.last]`, well segmented, ending in a span when a run qualified
      (and then starting with a gap bordered by a non-class unit when `last` is
      the end of an earlier span), and no Arabic-block unit left after `r.last`. */
  predicate ScanFacts(cls: Unit -> bool, s: JsString, last: nat, r: Scan)
  {
    && last <= r.last <= |s|
    && Joined(r.pieces) == s[last..r.last]
    && WellSegmented(cls, r.pieces)
    && (r.valid <==> r.pieces != [])
    && (r.valid ==> r.pieces[|r.pieces| - 1].Wrapped? && 0 < r.last)
    && (r.last < |s| && 0 < r.last ==> !cls(s[r.last]))
    && (r.valid && last > 0 ==> r.pieces[0].Plain? && !cls(r.pieces[0].text[0]))
    && !HasArabic(s[r.last..])
    && (r.valid ==> HasArabic(s[last..]))
  }

  /** The loop's invariants at a call of `ScanFrom`: nothing between `last` and
      `from` holds an Arabic-block unit, and `from` and `last` are 0 or the end
      of a maximal run. */
  predicate ScanInvariant(cls: Unit -> bool, s: JsString, from: nat, last: nat)
  {
    && last <= from <= |s|
    && !HasArabic(s[last..from])
    && (0 < from < |s| ==> !cls(s[from]))
    && (0 < last < |s| ==> !cls(s[last]))
  }

  /** What one run of the loop produces, for the `compatMode == false`
      configuration (the other one is the same, see `CompatModeIrrelevant`). */
  lemma {:induction false} ScanFromFacts(cls: Unit -> bool, s: JsString, from: nat, last: nat)
    requires CoversArabic(cls)
    requires ScanInvariant(cls, s, from, last)
    ensures ScanFacts(cls, s, last, ScanFrom(cls, s, false, from, last))
    decreases |s| - from
  {
    match Exec(cls, s, from)
    case None =>
      EndStep(cls, s, from, last);
    case Some(m) =>
      if !HasArabic(s[m.start..m.end]) {
        SkipStep(cls, s, from, last, m);
        ScanFromFacts(cls, s, m.end, last);
      } else {
        assert s[m.end..m.end] == [];
        ScanFromFacts(cls, s, m.end, m.end);
        WrappedStep(cls, s, from, last, m, ScanFrom(cls, s, false, m.end, m.end));
      }
  }

  /** No run left: the loop ends with nothing appended. */
  lemma EndStep(cls: Unit -> bool, s: JsString, from: nat, last: nat)
    requires CoversArabic(cls)
    requires ScanInvariant(cls, s, from, last)
    requires Exec(cls, s, from).None?
    ensures ScanFacts(cls, s, last, ScanFrom(cls, s, false, from, last))
  {
    NoArabicOutsideClass(cls, s, from, |s|);
    NoArabicJoin(s, last, from, |s|);
    assert s[last..last] == [];
  }

  /** A run without Arabic-block units is skipped and the invariant holds at
      its end. */
  lemma SkipStep(cls: Unit -> bool, s: JsString, from: nat, last: nat, m: Match)
    requires CoversArabic(cls)
    requires ScanInvariant(cls, s, from, last)
    requires Exec(cls, s, from) == Some(m)
    requires !HasArabic(s[m.start..m.end])
    ensures ScanInvariant(cls, s, m.end, last)
  {
    NoArabicOutsideClass(cls, s, from, m.start);
    NoArabicJoin(s, last, from, m.start);
    NoArabicJoin(s, last, m.start, m.end);
  }

  /** The gap before a qualifying run: empty only at the very start, otherwise a
      plain piece without Arabic-block units whose last unit is outside the class. */
  lemma GapFacts(cls: Unit -> bool, s: JsString, from: nat, last: nat, m: Match)
    requires CoversArabic(cls)
    requires ScanInvariant(cls, s, from, last)
    requires Exec(cls, s, from) == Some(m)
    ensures m.start == last ==> last == 0
    ensures m.start > last ==>
      && PieceOk(cls, Plain(s[last..m.start]))
      && !cls(s[m.start - 1])
      && (last > 0 ==> !cls(s[last]))
  {
    assert cls(s[m.start]) by {
      assert s[m.start..m.end][0] == s[m.start];
    }
    if m.start > last {
      NoArabicOutsideClass(cls, s, from, m.start);
      NoArabicJoin(s, last, from, m.start);
      if m.start == from {
        assert false;
      }
    } else if last > 0 {
      assert false;
    }
  }

  /** The gap, the span and the rest of the loop fit together. */
  lemma WrappedShape(cls: Unit -> bool, s: JsString, from: nat, last: nat, m: Match, rest: Scan)
    requires CoversArabic(cls)
    requires ScanInvariant(cls, s, from, last)
    requires Exec(cls, s, from) == Some(m)
    requires HasArabic(s[m.start..m.end])
    requires ScanFacts(cls, s, m.end, rest)
    ensures var gap := if m.start > last then [Plain(s[last..m.start])] else [];
      var ps := gap + [Wrapped(s[m.start..m.end])] + rest.pieces;
      && WellSegmented(cls, ps)
      && (last > 0 ==> ps[0].Plain? && !cls(ps[0].text[0]))
  {
    var run := s[m.start..m.end];
    var gap := if m.start > last then [Plain(s[last..m.start])] else [];
    var piece := Wrapped(run);
    GapFacts(cls, s, from, last, m);
    if m.start > last {
      assert gap[0].text[|gap[0].text| - 1] == s[m.start - 1];
      assert gap[0].text[0] == s[last];
    }
    assert WellSegmented(cls, gap);
    assert WellSegmented(cls, [piece]);
    WellSegmentedAppend(cls, gap, [piece]);
    var left := gap + [piece];
    assert left[|left| - 1] == piece;
    WellSegmentedAppend(cls, left, rest.pieces);
    if last > 0 {
      assert (left + rest.pieces)[0] == gap[0];
    }
  }

  /** The gap, the span and the rest of the loop spell the text from `last`. */
  lemma SliceSplit(s: JsString, a: nat, b: nat, c: nat)
    requires a <= b <= c <= |s|
    ensures s[a..c] == s[a..b] + s[b..c]
  {
  }

  lemma WrappedText(s: JsString, last: nat, m: Match, rest: Scan)
    requires last <= m.start < m.end <= rest.last <= |s|
    requires Joined(rest.pieces) == s[m.end..rest.last]
    ensures var gap := if m.start > last then [Plain(s[last..m.start])] else [];
      Joined(gap + [Wrapped(s[m.start..m.end])] + rest.pieces) == s[last..rest.last]
  {
    var gap := if m.start > last then [Plain(s[last..m.start])] else [];
    var piece := Wrapped(s[m.start..m.end]);
    JoinedAppend(gap + [piece], rest.pieces);
    JoinedAppend(gap, [piece]);
    assert Joined([piece]) == piece.text by {
      assert [piece][1..] == [];
    }
    if m.start > last {
      assert Joined(gap) == s[last..m.start] by {
        assert gap[1..] == [];
      }
    } else {
      assert s[last..m.start] == [];
    }
    SliceSplit(s, m.start, m.end, rest.last);
    SliceSplit(s, last, m.start, rest.last);
  }

  lemma WrappedStep(cls: Unit -> bool, s: JsString, from: nat, last: nat, m: Match, rest: Scan)
    requires CoversArabic(cls)
    requires ScanInvariant(cls, s, from, last)
    requires Exec(cls, s, from) == Some(m)
    requires HasArabic(s[m.start..m.end])
    requires rest == ScanFrom(cls, s, false, m.end, m.end)
    requires ScanFacts(cls, s, m.end, rest)
    ensures ScanFacts(cls, s, last, ScanFrom(cls, s, false, from, last))
  {
    var gap := if m.start > last then [Plain(s[last..m.start])] else [];
    var piece := Wrapped(s[m.start..m.end]);
    var r := ScanFrom(cls, s, false, from, last);
    assert r.pieces == gap + [piece] + rest.pieces && r.last == rest.last && r.valid;
    WrappedShape(cls, s, from, last, m, rest);
    WrappedText(s, last, m, rest);
    ArabicWidens(s, m.start, m.end, last, |s|);
    if rest.pieces != [] {
      assert r.pieces[|r.pieces| - 1] == rest.pieces[|rest.pieces| - 1];
    }
  }

  /** The compatibility-mode test never fails for a run that passed the
      Arabic-block test: the Arabic unit survives both `trim()` and the removal
      of digits and white space. */
  lemma QualifyingRunHasLetter(run: JsString)
    requires HasArabic(run)
    ensures HasNonDigitNonSpace(run)
  {
    TrimStartKeepsArabic(run);
    TrimEndKeepsArabic(TrimStart(run));
    StripKeepsArabic(Trim(run));
  }

  lemma {:induction false} TrimStartKeepsArabic(s: JsString)
    requires HasArabic(s)
    ensures HasArabic(TrimStart(s))
  {
    if |s| > 0 && IsJsSpace(s[0]) {
      assert s == [s[0]] + s[1..];
      HasArabicAppend([s[0]], s[1..]);
      TrimStartKeepsArabic(s[1..]);
    }
  }

  lemma {:induction false} TrimEndKeepsArabic(s: JsString)
    requires HasArabic(s)
    ensures HasArabic(TrimEnd(s))
  {
    if |s| > 0 && IsJsSpace(s[|s| - 1]) {
      assert s == s[..|s| - 1] + [s[|s| - 1]];
      HasArabicAppend(s[..|s| - 1], [s[|s| - 1]]);
      TrimEndKeepsArabic(s[..|s| - 1]);
    }
  }

  lemma {:induction false} StripKeepsArabic(s: JsString)
    requires HasArabic(s)
    ensures |StripDigitsAndSpaces(s)| >= 1
  {
    assert s == [s[0]] + s[1..];
    HasArabicAppend([s[0]], s[1..]);
    if !IsArabicUnit(s[0]) {
      StripKeepsArabic(s[1..]);
    }
  }

  /** `compatMode` has no effect: the plain-text branch for a qualifying run is
      never taken. */
  lemma {:induction false} CompatModeIrrelevantFrom(cls: Unit -> bool, s: JsString, from: nat, last: nat)
    requires last <= from <= |s|
    ensures ScanFrom(cls, s, true, from, last) == ScanFrom(cls, s, false, from, last)
    decreases |s| - from
  {
    match Exec(cls, s, from)
    case None =>
    case Some(m) =>
      var run := s[m.start..m.end];
      if !HasArabic(run) {
        CompatModeIrrelevantFrom(cls, s, m.end, last);
      } else {
        QualifyingRunHasLetter(run);
        CompatModeIrrelevantFrom(cls, s, m.end, m.end);
      }
  }

  lemma CompatModeIrrelevant(cls: Unit -> bool, s: JsString)
    ensures Fragment(cls, s, true) == Fragment(cls, s, false)
  {
    CompatModeIrrelevantFrom(cls, s, 0, 0);
  }

  /** The fragment of the text branch: it exists exactly when the text holds an
      Arabic-block unit; its pieces spell the original text exactly; and it is
      well segmented (each span one maximal class run containing an
      Arabic-block unit, nothing empty, no Arabic-block unit outside a span). */
  lemma FragmentSpec(cls: Unit -> bool, s: JsString, compat: bool)
    requires CoversArabic(cls)
    ensures Fragment(cls, s, compat).Some? <==> HasArabic(s)
    ensures Fragment(cls, s, compat).Some? ==>
      var ps := Fragment(cls, s, compat).value;
      && Joined(ps) == s
      && WellSegmented(cls, ps)
      && exists i :: 0 <= i < |ps| && ps[i].Wrapped?
  {
    CompatModeIrrelevant(cls, s);
    assert s[0..0] == [];
    ScanFromFacts(cls, s, 0, 0);
    assert ScanFacts(cls, s, 0, ScanFrom(cls, s, false, 0, 0));
    var sc := ScanFrom(cls, s, false, 0, 0);
    assert s[0..] == s;
    if sc.valid {
      var tail := if sc.last < |s| then [Plain(s[sc.last..])] else [];
      JoinedAppend(sc.pieces, tail);
      if sc.last < |s| {
        assert Joined(tail) == s[sc.last..];
        assert tail[0].text[0] == s[sc.last];
        assert WellSegmented(cls, tail);
      }
      WellSegmentedAppend(cls, sc.pieces, tail);
      assert (sc.pieces + tail)[|sc.pieces| - 1].Wrapped?;
    }
  }
}
