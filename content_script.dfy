/** The content script's `main()` as an object: the state its closures
    share, the document, the three debounced wrappers it creates, and the
    wiring to the browser (the preference listener, the mutation observer,
    the idle callback).  What the browser does, such as a timer firing, the
    system preference changing, the page restyling itself or the idle
    callback running, is a method called from outside.  Each state-changing
    method is proved to do what the functions of module DarkMode say. */
module ContentScript {
  import opened Wrappers
  import opened ColorHeuristic
  import opened Dom
  import opened Debounce
  import opened DarkMode

  class Controller {
    const doc: Document
    const applyTimer: Debouncer<()>     // debouncedApplyDarkMode, 100 ms
    const removeTimer: Debouncer<()>    // debouncedRemoveDarkMode, 100 ms
    const recheckTimer: Debouncer<()>   // the observer's debounced callback, 500 ms

    var darkModeEnabled: bool
    var isPageAlreadyDark: bool
    var styleEl: Option<nat>

    var prefersDarkMatches: bool  // the live `matches` of the dark-preference media query
    var listening: bool           // the preference change listener is registered
    var observing: bool           // the mutation observer is connected to the body
    var idlePending: bool         // the startup idle callback has not run yet
    ghost var tornDown: bool      // the cleanup closure has run

    /** The script's state and the page, as the functions of DarkMode see them. */
    function Model(): State
      reads this, doc
    {
      State(doc.Snapshot(), darkModeEnabled, isPageAlreadyDark, styleEl)
    }

    /** The objects are in order and the owned handle names the style element. */
    ghost predicate Wired()
      reads this, doc, applyTimer, removeTimer, recheckTimer
    {
      doc.Valid() && applyTimer.Valid() && removeTimer.Valid() && recheckTimer.Valid() &&
      applyTimer != removeTimer && applyTimer != recheckTimer && removeTimer != recheckTimer &&
      Consistent(Model())
    }

    /** Until the cleanup runs, the script keeps the invariant of DarkMode. */
    ghost predicate Valid()
      reads this, doc, applyTimer, removeTimer, recheckTimer
    {
      Wired() && (!tornDown ==> Inv(Model()))
    }

    /** Nothing is left that could act on the page: no listener, no
        observer, no idle callback, no pending timer. */
    ghost predicate Quiet()
      reads this, applyTimer, removeTimer, recheckTimer
    {
      !listening && !observing && !idlePending &&
      applyTimer.pending.None? && removeTimer.pending.None? && recheckTimer.pending.None?
    }

    /** The wiring to the browser is left as it was. */
    twostate predicate WiringUnchanged()
      reads this
    {
      prefersDarkMatches == old(prefersDarkMatches) && listening == old(listening) &&
      observing == old(observing) && idlePending == old(idlePending) && tornDown == old(tornDown)
    }

    /** `main()`: schedule the first apply for an idle moment (or run it at
        once when the browser has no idle callbacks), register the
        preference listener, and observe the body if there is one. */
    constructor (doc: Document, prefersDark: bool, hasIdleCallback: bool)
      requires doc.Valid()
      modifies doc
      ensures Valid() && !tornDown && this.doc == doc
      ensures fresh(applyTimer) && fresh(removeTimer) && fresh(recheckTimer)
      ensures Model() == if !hasIdleCallback && prefersDark then Apply(Initial(old(doc.Snapshot())))
                         else Initial(old(doc.Snapshot()))
      ensures prefersDarkMatches == prefersDark && idlePending == hasIdleCallback && listening
      ensures observing == old(doc.bodyBackground).Some?
      ensures applyTimer.pending.None? && removeTimer.pending.None? && recheckTimer.pending.None?
    {
      this.doc := doc;
      applyTimer := new Debouncer();
      removeTimer := new Debouncer();
      recheckTimer := new Debouncer();
      darkModeEnabled, isPageAlreadyDark, styleEl := false, false, None;
      prefersDarkMatches := prefersDark;
      idlePending := hasIdleCallback;
      listening, observing := false, false;
      tornDown := false;
      new;
      assert Model() == Initial(doc.Snapshot());
      if !hasIdleCallback && prefersDark {
        if !tornDown { ApplyPreservesInv(Model()); }
        ApplyDarkMode();
      }
      listening := true;
      observing := doc.bodyBackground.Some?;
    }

    // -------------------------------------------------------------------
    // The script's own operations

    /** `applyDarkMode`. */
    method ApplyDarkMode()
      requires Wired()
      modifies this, doc
      ensures Wired() && WiringUnchanged()
      ensures Model() == Apply(old(Model()))
    {
      if darkModeEnabled {
        return;
      }
      if !isPageAlreadyDark {
        isPageAlreadyDark := PageIsDark(doc.Snapshot());
      }
      if isPageAlreadyDark {
        return;
      }
      darkModeEnabled := true;
      doc.SetColorScheme("dark");
      FindOrCreateStyle();
      doc.SetText(styleEl.value, DarkCss);
    }

    /** The style element to write to: the one already owned, else the
        document's element with the fixed id, else a new one in the head. */
    method FindOrCreateStyle()
      requires doc.Valid()
      requires styleEl.Some? ==> styleEl.value < |doc.nodes| && doc.nodes[styleEl.value].id == StyleId
      modifies this`styleEl, doc
      ensures doc.Valid() && styleEl.Some?
      ensures (doc.Snapshot(), styleEl.value) == StyleFor(old(doc.Snapshot()), old(styleEl))
    {
      if styleEl.None? {
        styleEl := doc.GetElementById(StyleId);
        if styleEl.None? {
          var h := doc.CreateElement();
          doc.SetId(h, StyleId);
          doc.AppendChild(h);
          styleEl := Some(h);
        }
      }
    }

    /** `removeDarkMode`. */
    method RemoveDarkMode()
      requires Wired()
      modifies this, doc
      ensures Wired() && WiringUnchanged()
      ensures Model() == Remove(old(Model()))
    {
      if !darkModeEnabled {
        return;
      }
      darkModeEnabled := false;
      doc.SetColorScheme("light");
      if styleEl.Some? {
        doc.SetText(styleEl.value, "");
      }
    }

    /** The body of the mutation observer's debounced callback. */
    method MutationRecheck()
      requires Valid()
      modifies this, doc
      ensures Valid() && WiringUnchanged()
      ensures Model() == Recheck(old(Model()), prefersDarkMatches)
    {
      ghost var s := Model();
      if !tornDown {
        RecheckPreservesInv(s, prefersDarkMatches);
      }
      if prefersDarkMatches && !isPageAlreadyDark {
        isPageAlreadyDark := PageIsDark(doc.Snapshot());
        if isPageAlreadyDark && darkModeEnabled {
          RemoveDarkMode();
        } else if !isPageAlreadyDark && !darkModeEnabled && prefersDarkMatches {
          ApplyDarkMode();
        }
      }
    }

    // -------------------------------------------------------------------
    // What the browser does

    /** The startup idle callback runs: apply if the preference is dark. */
    method IdleCallbackRuns()
      requires Valid()
      modifies this, doc
      ensures Valid() && !idlePending
      ensures Model() == if old(idlePending) && prefersDarkMatches then Apply(old(Model())) else old(Model())
      ensures old(Quiet()) ==> Quiet()
      ensures prefersDarkMatches == old(prefersDarkMatches) && listening == old(listening)
      ensures observing == old(observing) && tornDown == old(tornDown)
    {
      if idlePending {
        idlePending := false;
        if prefersDarkMatches {
          if !tornDown { ApplyPreservesInv(Model()); }
          ApplyDarkMode();
        }
      }
    }

    /** The system colour preference changes to `matches`; a registered
        listener calls the debounced apply or the debounced remove. */
    method PreferenceChanged(matches: bool)
      requires Valid()
      modifies this, applyTimer, removeTimer
      ensures Valid() && Model() == old(Model()) && prefersDarkMatches == matches
      ensures applyTimer.history == old(applyTimer.history) + (if listening && matches then [Invoke(())] else [])
      ensures removeTimer.history == old(removeTimer.history) + (if listening && !matches then [Invoke(())] else [])
      ensures old(Quiet()) ==> Quiet()
      ensures listening == old(listening) && observing == old(observing)
      ensures idlePending == old(idlePending) && tornDown == old(tornDown)
    {
      ghost var m := Model();
      prefersDarkMatches := matches;
      assert Model() == m;
      if listening {
        if matches {
          applyTimer.Call(());
        } else {
          removeTimer.Call(());
        }
      }
      assert Model() == m;
    }

    /** The page's own code changes the computed backgrounds; when it does
        so through the body's class or style attribute, a connected
        observer calls its debounced callback. */
    method PageRestyled(body: Option<string>, html: string, bodyAttributes: bool)
      requires Valid()
      modifies this, doc, recheckTimer
      ensures Valid() && WiringUnchanged()
      ensures Model() == Step(old(Model()), RestyleEvent(body, html))
      ensures recheckTimer.history ==
                old(recheckTimer.history) + (if observing && bodyAttributes then [Invoke(())] else [])
      ensures old(Quiet()) ==> Quiet()
    {
      doc.Restyle(body, html);
      if observing && bodyAttributes {
        recheckTimer.Call(());
      }
    }

    /** The debounced apply's timer fires. */
    method ApplyTimerFires()
      requires Valid()
      modifies this, doc, applyTimer
      ensures Valid() && WiringUnchanged()
      ensures applyTimer.history == old(applyTimer.history) + [Elapse]
      ensures Model() == if old(applyTimer.pending).Some? then Apply(old(Model())) else old(Model())
      ensures old(Quiet()) ==> Quiet()
    {
      var run := applyTimer.Fire();
      if run.Some? {
        if !tornDown { ApplyPreservesInv(Model()); }
        ApplyDarkMode();
      }
    }

    /** The debounced remove's timer fires. */
    method RemoveTimerFires()
      requires Valid()
      modifies this, doc, removeTimer
      ensures Valid() && WiringUnchanged()
      ensures removeTimer.history == old(removeTimer.history) + [Elapse]
      ensures Model() == if old(removeTimer.pending).Some? then Remove(old(Model())) else old(Model())
      ensures old(Quiet()) ==> Quiet()
    {
      var run := removeTimer.Fire();
      if run.Some? {
        if !tornDown { RemovePreservesInv(Model()); }
        RemoveDarkMode();
      }
    }

    /** The observer's debounced callback fires. */
    method RecheckTimerFires()
      requires Valid()
      modifies this, doc, recheckTimer
      ensures Valid() && WiringUnchanged()
      ensures recheckTimer.history == old(recheckTimer.history) + [Elapse]
      ensures Model() == if old(recheckTimer.pending).Some? then Recheck(old(Model()), prefersDarkMatches)
                         else old(Model())
      ensures old(Quiet()) ==> Quiet()
    {
      var run := recheckTimer.Fire();
      if run.Some? {
        MutationRecheck();
      }
    }

    // -------------------------------------------------------------------
    // Teardown

    /** The cleanup closure as the script writes it: disconnect the
        observer, unregister the listener, detach the style element if
        there is one.  Pending timers and the idle callback are left alone. */
    method CleanupAsWritten()
      requires Valid()
      modifies this, doc
      ensures Valid() && tornDown && !listening && !observing
      ensures Model() == DetachStyle(old(Model()))
      ensures idlePending == old(idlePending) && prefersDarkMatches == old(prefersDarkMatches)
    {
      observing := false;
      listening := false;
      if styleEl.Some? {
        doc.RemoveChild(styleEl.value);
      }
      tornDown := true;
    }

    /** The cleanup with the pending work cancelled as well: afterwards
        nothing can act on the page any more. */
    method Cleanup()
      requires Valid()
      modifies this, doc, applyTimer, removeTimer, recheckTimer
      ensures Valid() && tornDown && Quiet()
      ensures Model() == DetachStyle(old(Model()))
      ensures prefersDarkMatches == old(prefersDarkMatches)
    {
      observing := false;
      listening := false;
      applyTimer.Clear();
      removeTimer.Clear();
      recheckTimer.Clear();
      idlePending := false;
      ghost var m := Model();
      if styleEl.Some? {
        doc.RemoveChild(styleEl.value);
      }
      tornDown := true;
      assert Model() == DetachStyle(m);
    }
  }

  // ---------------------------------------------------------------------
  // Scenarios

  /** A light page: white body and root backgrounds, empty head. */
  function WhitePage(): (p: Page)
    ensures WellFormed(p) && !PageIsDark(p) && FindById(p.nodes, p.head, StyleId).None?
  {
    GreyThreshold(255);
    Page("", [], [], Some(Rgb(255, 255, 255)), Rgb(255, 255, 255))
  }

  /** A light page under a dark preference, with no element carrying the
      style id yet: the startup apply turns the filter on with a new style
      element at the end of the head; switching the system to light and
      letting the timer fire turns it off again, keeping the element. */
  method StartupThenLight(p: Page) returns (appliedAtStart: bool, lightAfterwards: bool)
    requires WellFormed(p) && !PageIsDark(p) && FindById(p.nodes, p.head, StyleId).None?
    ensures appliedAtStart && lightAfterwards
  {
    var doc := new Document(p);
    FirstApplyOnLightPage(p);
    var c := new Controller(doc, true, false);
    appliedAtStart := c.darkModeEnabled && doc.colorScheme == "dark" && doc.head == p.head + [|p.nodes|] &&
                      doc.nodes == p.nodes + [Element(StyleId, DarkCss)];
    c.PreferenceChanged(false);
    c.RemoveTimerFires();
    lightAfterwards := !c.darkModeEnabled && doc.colorScheme == "light" && doc.head == p.head + [|p.nodes|] &&
                       doc.nodes == p.nodes + [Element(StyleId, "")];
  }

  /** The same page, with a body, turning itself dark under the filter:
      the observer's debounced re-check removes the filter, declares a
      light colour scheme and caches the verdict. */
  method PageTurnsDark(p: Page, dark: string) returns (removed: bool)
    requires WellFormed(p) && !PageIsDark(p) && FindById(p.nodes, p.head, StyleId).None?
    requires p.bodyBackground.Some? && IsColorDark(dark)
    ensures removed
  {
    FirstApplyOnLightPage(p);
    var doc := new Document(p);
    var c := new Controller(doc, true, false);
    c.PageRestyled(Some(dark), dark, true);
    TurningDarkRemovesFilter(c.Model());
    c.RecheckTimerFires();
    removed := !c.darkModeEnabled && c.isPageAlreadyDark && doc.colorScheme == "light";
  }

  /** As written: a preference change just before teardown leaves the
      debounced apply pending; when it fires after the cleanup, the script
      declares a dark colour scheme and appends a fresh style element
      holding the filter CSS to a page it has already let go of. */
  method LateApplyAfterCleanupAsWritten(p: Page) returns (filteredAfterTeardown: bool)
    requires WellFormed(p) && !PageIsDark(p) && FindById(p.nodes, p.head, StyleId).None?
    ensures filteredAfterTeardown
  {
    var doc := new Document(p);
    var c := new Controller(doc, false, false);
    c.PreferenceChanged(true);
    c.CleanupAsWritten();
    assert c.Model() == Initial(p) && c.applyTimer.pending.Some?;
    FirstApplyOnLightPage(p);
    c.ApplyTimerFires();
    filteredAfterTeardown := !c.listening && !c.observing && c.darkModeEnabled && doc.colorScheme == "dark" &&
                             doc.head == p.head + [|p.nodes|] && doc.nodes == p.nodes + [Element(StyleId, DarkCss)];
  }

  /** With the pending work cancelled at teardown, the same events, and a
      late idle callback and preference change, leave the page untouched. */
  method NoLateApplyAfterCleanup(p: Page) returns (untouched: bool)
    requires WellFormed(p)
    ensures untouched
  {
    var doc := new Document(p);
    var c := new Controller(doc, false, false);
    c.PreferenceChanged(true);
    c.Cleanup();
    c.ApplyTimerFires();
    c.IdleCallbackRuns();
    c.PreferenceChanged(true);
    c.ApplyTimerFires();
    untouched := !c.listening && !c.observing && !c.darkModeEnabled && doc.Snapshot() == p;
  }
}
