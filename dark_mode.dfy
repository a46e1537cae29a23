/** The dark-mode state machine of the content script, on values: the
    script's own state (`darkModeEnabled`, the cached verdict
    `isPageAlreadyDark`, the style element it owns) together with the page,
    and the three operations that change them: `applyDarkMode`,
    `removeDarkMode` and the mutation observer's re-check.  The controller
    class in module ContentScript is proved to do exactly what these
    functions say. */
module DarkMode {
  import opened Wrappers
  import opened ColorHeuristic
  import opened Dom

  /** The fixed id of the injected style element. */
  const StyleId: string := "auto-dark-mode-style"

  /** The CSS block the style element holds while the filter is on: invert
      and hue-rotate the root element on a white background, invert media
      back, and keep code and plain-text blocks legible. */
  const DarkCss: string :=
    "\n        html {\n          filter: invert(90%) hue-rotate(180deg);\n          background: #fff;\n        }\n        \n" +
    "        img, video, picture, svg, canvas {\n          filter: invert(100%) hue-rotate(180deg);\n        }\n        \n" +
    "        /* Ensure text is visible in plain text files and code blocks */\n" +
    "        pre, code, plaintext, .blob-code-inner, .text-mono {\n          color: #333 !important;\n" +
    "          filter: invert(100%) hue-rotate(180deg);\n        }\n      "

  datatype State = State(
    page: Page,
    darkModeEnabled: bool,
    isPageAlreadyDark: bool,
    styleEl: Option<nat>)   // the handle of the owned style element, once looked up or created

  /** The state the script starts in, on any page. */
  function Initial(p: Page): State
  {
    State(p, false, false, None)
  }

  /** The heuristic, on the page's current computed backgrounds. */
  function PageIsDark(p: Page): bool
  {
    IsDarkModeAlreadyEnabled(p.bodyBackground, p.htmlBackground)
  }

  /** Handles name elements, and the owned element carries the fixed id. */
  predicate Consistent(s: State)
  {
    WellFormed(s.page) &&
    (s.styleEl.Some? ==> s.styleEl.value < |s.page.nodes| && s.page.nodes[s.styleEl.value].id == StyleId)
  }

  /** The invariant the script keeps: the filter is on only while the owned
      style element is attached and holds the CSS, and never on a page
      judged natively dark; once the element exists, its text and the
      declared colour scheme both follow `darkModeEnabled`. */
  predicate Inv(s: State)
  {
    Consistent(s) &&
    (s.darkModeEnabled ==> s.styleEl.Some? && !s.isPageAlreadyDark) &&
    (s.styleEl.Some? ==>
       s.styleEl.value in s.page.head &&
       s.page.nodes[s.styleEl.value].text == (if s.darkModeEnabled then DarkCss else "") &&
       s.page.colorScheme == (if s.darkModeEnabled then "dark" else "light"))
  }

  /** How many children of the head carry the style id. */
  function StyleCount(p: Page): nat
    requires WellFormed(p)
  {
    CountId(p.nodes, p.head, StyleId)
  }

  /** The style element to write to: the owned one if there is one, else
      the document's element with the fixed id, else a new element with
      that id appended to the head. */
  function StyleFor(p: Page, styleEl: Option<nat>): (r: (Page, nat))
    requires WellFormed(p)
    requires styleEl.Some? ==> styleEl.value < |p.nodes| && p.nodes[styleEl.value].id == StyleId
    ensures WellFormed(r.0) && r.1 < |r.0.nodes| && r.0.nodes[r.1].id == StyleId
    ensures styleEl.Some? ==> r == (p, styleEl.value)
    ensures styleEl.None? ==> r.1 in r.0.head
    ensures r.0.colorScheme == p.colorScheme
    ensures r.0.bodyBackground == p.bodyBackground && r.0.htmlBackground == p.htmlBackground
  {
    if styleEl.Some? then (p, styleEl.value)
    else
      match FindById(p.nodes, p.head, StyleId)
      case Some(h) => (p, h)
      case None =>
        var h := |p.nodes|;
        (Appended(WithId(Created(p), h, StyleId), h), h)
  }

  /** `applyDarkMode`. */
  function Apply(s: State): (r: State)
    requires Consistent(s)
    ensures Consistent(r)
  {
    if s.darkModeEnabled then s
    else
      var alreadyDark := if !s.isPageAlreadyDark then PageIsDark(s.page) else s.isPageAlreadyDark;
      if alreadyDark then s.(isPageAlreadyDark := alreadyDark)
      else
        var (p, h) := StyleFor(WithColorScheme(s.page, "dark"), s.styleEl);
        State(WithText(p, h, DarkCss), true, false, Some(h))
  }

  /** `removeDarkMode`. */
  function Remove(s: State): (r: State)
    requires Consistent(s)
    ensures Consistent(r)
  {
    if !s.darkModeEnabled then s
    else
      var p := WithColorScheme(s.page, "light");
      s.(darkModeEnabled := false,
         page := if s.styleEl.Some? then WithText(p, s.styleEl.value, "") else p)
  }

  /** What the mutation re-check does. */
  datatype Action = RemoveFilter | ApplyFilter | NoAction

  /** The decision of the mutation re-check, from the live preference, the
      cached verdict, the filter flag and the fresh heuristic verdict. */
  function Decide(prefersDark: bool, cachedDark: bool, enabled: bool, nowDark: bool): Action
  {
    if prefersDark && !cachedDark then
      if nowDark && enabled then RemoveFilter
      else if !nowDark && !enabled && prefersDark then ApplyFilter
      else NoAction
    else NoAction
  }

  /** The mutation observer's debounced callback: under a dark preference
      and while the page is not cached as dark, recompute the verdict, then
      act on the decision. */
  function Recheck(s: State, prefersDark: bool): (r: State)
    requires Consistent(s)
    ensures Consistent(r)
  {
    if prefersDark && !s.isPageAlreadyDark then
      var nowDark := PageIsDark(s.page);
      var s' := s.(isPageAlreadyDark := nowDark);
      match Decide(prefersDark, s.isPageAlreadyDark, s.darkModeEnabled, nowDark)
      case RemoveFilter => Remove(s')
      case ApplyFilter => Apply(s')
      case NoAction => s'
    else s
  }

  /** The style removal of the cleanup closure: detach the owned element,
      if one was ever created or found. */
  function DetachStyle(s: State): (r: State)
    requires Consistent(s)
    ensures Consistent(r)
  {
    if s.styleEl.Some? then s.(page := Removed(s.page, s.styleEl.value)) else s
  }

  /** Whatever can happen to the state while the script runs: its own three
      operations, and the page restyling itself. */
  datatype Event =
    | ApplyEvent
    | RemoveEvent
    | RecheckEvent(prefersDark: bool)
    | RestyleEvent(bodyBackground: Option<string>, htmlBackground: string)

  function Step(s: State, e: Event): (r: State)
    requires Consistent(s)
    ensures Consistent(r)
  {
    match e
    case ApplyEvent => Apply(s)
    case RemoveEvent => Remove(s)
    case RecheckEvent(m) => Recheck(s, m)
    case RestyleEvent(body, html) => s.(page := s.page.(bodyBackground := body, htmlBackground := html))
  }

  function Run(s: State, es: seq<Event>): (r: State)
    requires Consistent(s)
    ensures Consistent(r)
    decreases |es|
  {
    if es == [] then s else Run(Step(s, es[0]), es[1..])
  }

  // ---------------------------------------------------------------------
  // applyDarkMode

  /** Without an owned element, `StyleFor` reuses the element
      `getElementById` finds, leaving the page unchanged, or else appends a
      new element, at the next handle, carrying the id and no text. */
  lemma StyleForOutcome(p: Page)
    requires WellFormed(p)
    ensures FindById(p.nodes, p.head, StyleId).Some? ==>
              StyleFor(p, None) == (p, FindById(p.nodes, p.head, StyleId).value)
    ensures FindById(p.nodes, p.head, StyleId).None? ==>
              var (q, h) := StyleFor(p, None);
              h == |p.nodes| && q.nodes == p.nodes + [Element(StyleId, "")] && q.head == p.head + [h]
  {
  }

  /** When apply turns the filter on, and what it leaves otherwise. */
  lemma ApplyOutcome(s: State)
    requires Inv(s)
    ensures var r := Apply(s);
      && (r.darkModeEnabled <==> s.darkModeEnabled || (!s.isPageAlreadyDark && !PageIsDark(s.page)))
      && (s.darkModeEnabled ==> r == s)
      && (!r.darkModeEnabled ==> r == s.(isPageAlreadyDark := true))
      && (r.darkModeEnabled ==>
            && r.page.colorScheme == "dark"
            && r.styleEl.Some? && r.styleEl.value in r.page.head
            && r.page.nodes[r.styleEl.value] == Element(StyleId, DarkCss))
  {
  }

  lemma ApplyPreservesInv(s: State)
    requires Inv(s)
    ensures Inv(Apply(s))
  {
  }

  /** The first apply on a light page without an element carrying the
      style id: a dark colour scheme, and one new element holding the CSS,
      appended at the end of the head. */
  lemma FirstApplyOnLightPage(p: Page)
    requires WellFormed(p) && !PageIsDark(p) && FindById(p.nodes, p.head, StyleId).None?
    ensures Apply(Initial(p)) ==
              State(p.(colorScheme := "dark", nodes := p.nodes + [Element(StyleId, DarkCss)],
                       head := p.head + [|p.nodes|]),
                    true, false, Some(|p.nodes|))
  {
    var h := |p.nodes|;
    var c := WithId(Created(WithColorScheme(p, "dark")), h, StyleId);
    assert c.nodes == p.nodes + [Element(StyleId, "")];
  }

  /** Applying twice is applying once. */
  lemma ApplyIdempotent(s: State)
    requires Consistent(s)
    ensures Apply(Apply(s)) == Apply(s)
  {
  }

  /** Apply adds a style element only when the head has none: with at most
      one element carrying the id beforehand, exactly one carries it while
      the filter is on. */
  lemma ApplyKeepsOneStyle(s: State)
    requires Inv(s)
    ensures StyleCount(Apply(s).page) ==
              if Apply(s).darkModeEnabled && StyleCount(s.page) == 0 then 1 else StyleCount(s.page)
  {
    var r := Apply(s);
    if !s.darkModeEnabled && r.darkModeEnabled {
      var p1 := WithColorScheme(s.page, "dark");
      var (p, h) := StyleFor(p1, s.styleEl);
      assert r.page == WithText(p, h, DarkCss);
      CountIdFrame(p.nodes, r.page.nodes, p.head, StyleId);
      if s.styleEl.Some? {
        CountIdPositive(s.page.nodes, s.page.head, s.styleEl.value, StyleId);
      } else if FindById(p1.nodes, p1.head, StyleId).Some? {
      } else {
        var c := WithId(Created(p1), h, StyleId);
        assert h !in p1.head;
        CountIdFrame(p1.nodes, c.nodes, p1.head, StyleId);
        CountIdAppend(c.nodes, p1.head, h, StyleId);
      }
    }
  }

  /** While the filter is on and the head held at most one element with the
      fixed id, exactly one element carries it. */
  lemma EnabledMeansOneStyle(s: State)
    requires Inv(s) && StyleCount(s.page) <= 1 && s.darkModeEnabled
    ensures StyleCount(s.page) == 1
  {
    CountIdPositive(s.page.nodes, s.page.head, s.styleEl.value, StyleId);
  }

  // ---------------------------------------------------------------------
  // removeDarkMode

  /** Remove is a no-op while light; otherwise it turns the flag off,
      declares a light colour scheme and empties the style text, keeping
      the element attached. */
  lemma RemoveOutcome(s: State)
    requires Inv(s)
    ensures var r := Remove(s);
      && (!s.darkModeEnabled ==> r == s)
      && (s.darkModeEnabled ==>
            && !r.darkModeEnabled && r.page.colorScheme == "light"
            && r.styleEl == s.styleEl && r.page.head == s.page.head
            && r.page.nodes[r.styleEl.value] == Element(StyleId, ""))
      && StyleCount(r.page) == StyleCount(s.page)
  {
    var r := Remove(s);
    CountIdFrame(s.page.nodes, r.page.nodes, s.page.head, StyleId);
  }

  lemma RemovePreservesInv(s: State)
    requires Inv(s)
    ensures Inv(Remove(s))
  {
  }

  lemma RemoveIdempotent(s: State)
    requires Consistent(s)
    ensures Remove(Remove(s)) == Remove(s)
  {
  }

  /** Apply then remove leaves the element in place, empty, under a light
      colour scheme; applying again restores exactly the applied state; and
      once the element exists, apply then remove is the identity. */
  lemma ApplyRemoveRoundTrip(s: State)
    requires Inv(s) && !s.darkModeEnabled && Apply(s).darkModeEnabled
    ensures var r := Remove(Apply(s));
      && !r.darkModeEnabled && r.page.colorScheme == "light"
      && r.styleEl == Apply(s).styleEl && r.styleEl.value in r.page.head
      && r.page.nodes[r.styleEl.value] == Element(StyleId, "")
      && Apply(r) == Apply(s)
      && (s.styleEl.Some? ==> r == s)
  {
    var a := Apply(s);
    var r := Remove(a);
    assert r.page.nodes == a.page.nodes[a.styleEl.value := Element(StyleId, "")];
    assert Apply(r).page.nodes == a.page.nodes;
    if s.styleEl.Some? {
      assert r.page.nodes == s.page.nodes;
    }
  }

  /** Remove then apply restores a filtered page, as long as the page has
      not turned dark meanwhile. */
  lemma RemoveApplyRoundTrip(s: State)
    requires Inv(s) && s.darkModeEnabled && !PageIsDark(s.page)
    ensures Apply(Remove(s)) == s
  {
    var r := Remove(s);
    assert Apply(r).page.nodes == s.page.nodes;
  }

  // ---------------------------------------------------------------------
  // The mutation re-check

  /** The re-check acts only under a dark preference and an uncached
      verdict: it removes the filter when the page turned dark under it,
      and applies it when the page is light and the filter is off. */
  lemma DecideActions(prefersDark: bool, cachedDark: bool, enabled: bool, nowDark: bool)
    ensures Decide(prefersDark, cachedDark, enabled, nowDark) == RemoveFilter <==>
              prefersDark && !cachedDark && nowDark && enabled
    ensures Decide(prefersDark, cachedDark, enabled, nowDark) == ApplyFilter <==>
              prefersDark && !cachedDark && !nowDark && !enabled
  {
  }

  /** After a re-check under a dark preference, the filter is on exactly
      when the page is not natively dark, and the cache holds the verdict. */
  lemma RecheckFollowsHeuristic(s: State)
    requires Inv(s) && !s.isPageAlreadyDark
    ensures Recheck(s, true).isPageAlreadyDark == PageIsDark(s.page)
    ensures Recheck(s, true).darkModeEnabled == !PageIsDark(s.page)
  {
  }

  /** A page that turns dark under the filter: the re-check removes the
      filter, caches the verdict, and apply is a no-op from then on. */
  lemma TurningDarkRemovesFilter(s: State)
    requires Inv(s) && s.darkModeEnabled && PageIsDark(s.page)
    ensures var r := Recheck(s, true);
      && r == Remove(s).(isPageAlreadyDark := true)
      && !r.darkModeEnabled && r.isPageAlreadyDark && r.page.colorScheme == "light"
      && Apply(r) == r
  {
  }

  /** Under a light preference, or once the page is cached as dark, the
      re-check does nothing at all. */
  lemma RecheckIdle(s: State, prefersDark: bool)
    requires Consistent(s)
    requires !prefersDark || s.isPageAlreadyDark
    ensures Recheck(s, prefersDark) == s
  {
  }

  lemma RecheckPreservesInv(s: State, prefersDark: bool)
    requires Inv(s)
    ensures Inv(Recheck(s, prefersDark))
  {
    if prefersDark && !s.isPageAlreadyDark {
      var nowDark := PageIsDark(s.page);
      var s' := s.(isPageAlreadyDark := nowDark);
      if nowDark && s.darkModeEnabled {
        assert Inv(Remove(s'));
      } else if !nowDark {
        ApplyPreservesInv(s');
      }
    }
  }

  // ---------------------------------------------------------------------
  // Cleanup

  /** The cleanup detaches the owned element only if one was created or
      found, and touches nothing else. */
  lemma DetachStyleOutcome(s: State)
    requires Inv(s) && StyleCount(s.page) <= 1
    ensures s.styleEl.None? ==> DetachStyle(s) == s
    ensures s.styleEl.Some? ==>
              var r := DetachStyle(s);
              && s.styleEl.value !in r.page.head
              && r.page.nodes == s.page.nodes
              && (forall x :: x != s.styleEl.value ==> (x in r.page.head <==> x in s.page.head))
              && StyleCount(r.page) == StyleCount(s.page) - 1
  {
    if s.styleEl.Some? {
      DetachedCountsOneLess(s.page.nodes, s.page.head, s.styleEl.value);
    }
  }

  lemma {:induction false} DetachedCountsOneLess(nodes: seq<Element>, head: seq<nat>, h: nat)
    requires InTable(nodes, head) && h in head && h < |nodes| && nodes[h].id == StyleId
    requires CountId(nodes, head, StyleId) <= 1
    ensures InTable(nodes, Detached(head, h))
    ensures CountId(nodes, Detached(head, h), StyleId) == CountId(nodes, head, StyleId) - 1
  {
    DetachedInTable(nodes, head, h);
    if head[0] == h {
      assert FindById(nodes, head[1..], StyleId).None?;
      assert Detached(head, h) == Detached(head[1..], h) == head[1..];
    } else {
      DetachedCountsOneLess(nodes, head[1..], h);
      var d := Detached(head[1..], h);
      assert Detached(head, h) == [head[0]] + d;
      assert ([head[0]] + d)[1..] == d;
    }
  }

  // ---------------------------------------------------------------------
  // Any sequence of events

  lemma StepPreservesInv(s: State, e: Event)
    requires Inv(s) && StyleCount(s.page) <= 1
    ensures Inv(Step(s, e)) && StyleCount(Step(s, e).page) <= 1
  {
    match e
    case ApplyEvent =>
      ApplyPreservesInv(s);
      ApplyKeepsOneStyle(s);
    case RemoveEvent =>
      RemovePreservesInv(s);
      RemoveOutcome(s);
    case RecheckEvent(m) =>
      RecheckPreservesInv(s, m);
      RecheckKeepsOneStyle(s, m);
    case RestyleEvent(body, html) =>
  }

  /** The re-check never adds a second element carrying the style id. */
  lemma RecheckKeepsOneStyle(s: State, prefersDark: bool)
    requires Inv(s) && StyleCount(s.page) <= 1
    ensures StyleCount(Recheck(s, prefersDark).page) <= 1
  {
    if prefersDark && !s.isPageAlreadyDark {
      var s' := s.(isPageAlreadyDark := PageIsDark(s.page));
      if PageIsDark(s.page) && s.darkModeEnabled {
        var r := Remove(s');
        CountIdFrame(s.page.nodes, r.page.nodes, s.page.head, StyleId);
      } else if !PageIsDark(s.page) && !s.darkModeEnabled {
        ApplyKeepsOneStyle(s');
      }
    }
  }

  /** The invariant, and "at most one element with the style id", hold
      after any sequence of operations and page restylings. */
  lemma {:induction false} InvAlways(s: State, es: seq<Event>)
    requires Inv(s) && StyleCount(s.page) <= 1
    ensures Inv(Run(s, es)) && StyleCount(Run(s, es).page) <= 1
    decreases |es|
  {
    if es != [] {
      StepPreservesInv(s, es[0]);
      InvAlways(Step(s, es[0]), es[1..]);
    }
  }

  /** The cached verdict is sticky: no step resets it. */
  lemma CacheIsSticky(s: State, e: Event)
    requires Consistent(s) && s.isPageAlreadyDark
    ensures Step(s, e).isPageAlreadyDark
  {
  }

  /** Once a page is judged natively dark, the script never turns its
      filter on again and never touches the document again, whatever
      happens afterwards. */
  lemma {:induction false} NativeDarkModeWins(s: State, es: seq<Event>)
    requires Inv(s) && s.isPageAlreadyDark
    ensures var r := Run(s, es);
      && r.isPageAlreadyDark && !r.darkModeEnabled && r.styleEl == s.styleEl
      && r.page.nodes == s.page.nodes && r.page.head == s.page.head
      && r.page.colorScheme == s.page.colorScheme
    decreases |es|
  {
    if es != [] {
      var t := Step(s, es[0]);
      assert t.isPageAlreadyDark && !t.darkModeEnabled && t.styleEl == s.styleEl;
      assert t.page.nodes == s.page.nodes && t.page.head == s.page.head;
      assert Inv(t);
      NativeDarkModeWins(t, es[1..]);
    }
  }
}
