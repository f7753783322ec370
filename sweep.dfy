/** The main thread's loop: every tick it may re-check whether the target
    application is focused, then under the lock scans the shared table
    (running command callbacks, erasing commands and expired entries) and
    redraws, clears or leaves the overlay. The renderer is a log of calls. */
module Sweep {
  import opened Basics
  import opened OrderedMap
  import opened Drawables
  import opened StrUtils
  import opened Store

  /** The renderer calls the loop makes, in order. */
  datatype RenderCall = CleanFrame | Draw(item: DrawItem) | FlushFrame

  /** Milliseconds between two activity checks. */
  const ActivityCheckMs: int := 1500

  /** Every this many activity checks, transparency is verified too. */
  const TransparencyEvery: nat := 5

  // ---------------------------------------------------------------------
  // The scan over the table

  /** The commands commandCallbacks knows. */
  const ExitCommand := "exit"
  const OverlayOn := "overlay_on"
  const OverlayOff := "overlay_off"

  predicate IsExit(e: DrawItem) { IsCommand(e) && e.command == ExitCommand }

  predicate IsSwitch(e: DrawItem) { IsCommand(e) && (e.command == OverlayOn || e.command == OverlayOff) }

  /** The hidden flag after a command's callback; unknown commands change nothing. */
  function HideAfter(command: string, hidden: bool): bool {
    if command == OverlayOn then false
    else if command == OverlayOff then true
    else hidden
  }

  /** An entry the scan erases when it reaches it. */
  predicate Erased(e: DrawItem, now: int) { IsCommand(e) || IsItemExpired(e, now) }

  /** The table after the scan, the hidden flag, whether "exit" stopped the
      scan, and skip_render. */
  datatype ScanOutcome = ScanOutcome(table: Table, hidden: bool, exited: bool, skipRender: bool)

  /** The scan from the first entry on. "exit" stops it with the exit entry
      and every later one left in place; other entries are erased when they
      are commands or expired. skip_render survives only entries already
      rendered and not erased. */
  function ScanSpec(t: Table, now: int, hidden: bool): (r: ScanOutcome)
    decreases |t|
  {
    if t == [] then ScanOutcome([], hidden, false, true)
    else if IsExit(t[0].1) then ScanOutcome(t, hidden, true, false)
    else
      var e := t[0].1;
      var r := ScanSpec(t[1..], now, if IsCommand(e) then HideAfter(e.command, hidden) else hidden);
      var kept := if Erased(e, now) then r.table else [t[0]] + r.table;
      ScanOutcome(kept, r.hidden, r.exited, e.alreadyRendered && !Erased(e, now) && r.skipRender)
  }

  /** The entries a complete scan keeps, in order. */
  function Kept(t: Table, now: int): (r: Table)
    ensures forall e :: e in r <==> e in t && !Erased(e.1, now)
    decreases |t|
  {
    if t == [] then []
    else if Erased(t[0].1, now) then Kept(t[1..], now)
    else [t[0]] + Kept(t[1..], now)
  }

  /** The scan's state after the entries before position i: those kept so
      far, then what the scan of the rest gives. */
  function Combine(prefix: Table, skip: bool, r: ScanOutcome): ScanOutcome {
    ScanOutcome(prefix + r.table, r.hidden, r.exited, skip && r.skipRender)
  }

  /** Without an "exit" command the scan keeps exactly the entries that are
      neither commands nor expired, in their order. */
  lemma {:induction false} ScanWithoutExit(t: Table, now: int, hidden: bool)
    requires forall p :: 0 <= p < |t| ==> !IsExit(t[p].1)
    ensures !ScanSpec(t, now, hidden).exited
    ensures ScanSpec(t, now, hidden).table == Kept(t, now)
    decreases |t|
  {
    if t != [] {
      ScanWithoutExit(t[1..], now, if IsCommand(t[0].1) then HideAfter(t[0].1.command, hidden) else hidden);
    }
  }

  /** The first "exit" stops the scan: the entries before it are filtered,
      the exit entry and everything after it stay, and skip_render is false. */
  lemma {:induction false} ScanStopsAtExit(t: Table, now: int, hidden: bool, p: nat)
    requires p < |t| && IsExit(t[p].1)
    requires forall q :: 0 <= q < p ==> !IsExit(t[q].1)
    ensures ScanSpec(t, now, hidden).exited && !ScanSpec(t, now, hidden).skipRender
    ensures ScanSpec(t, now, hidden).table == Kept(t[..p], now) + t[p..]
    decreases p
  {
    if p > 0 {
      var e := t[0].1;
      ScanStopsAtExit(t[1..], now, if IsCommand(e) then HideAfter(e.command, hidden) else hidden, p - 1);
      assert t[1..][..p - 1] == t[..p][1..];
      assert t[1..][p - 1..] == t[p..];
    } else {
      assert t[..p] == [];
      assert t[p..] == t;
    }
  }

  /** skip_render holds exactly when every entry was already rendered and
      none is a command or expired; an empty table gives true. */
  lemma {:induction false} SkipRenderRule(t: Table, now: int, hidden: bool)
    ensures ScanSpec(t, now, hidden).skipRender <==>
              forall p :: 0 <= p < |t| ==> !Erased(t[p].1, now) && t[p].1.alreadyRendered
    decreases |t|
  {
    if t != [] {
      var e := t[0].1;
      SkipRenderRule(t[1..], now, if IsCommand(e) then HideAfter(e.command, hidden) else hidden);
      if !ScanSpec(t[1..], now, if IsCommand(e) then HideAfter(e.command, hidden) else hidden).skipRender {
        var p :| 0 <= p < |t[1..]| && !(!Erased(t[1..][p].1, now) && t[1..][p].1.alreadyRendered);
        assert t[1..][p] == t[p + 1];
      }
    }
  }

  /** Without overlay_on/overlay_off commands the hidden flag is unchanged. */
  lemma {:induction false} HideWithoutSwitch(t: Table, now: int, hidden: bool)
    requires forall p :: 0 <= p < |t| ==> !IsSwitch(t[p].1)
    ensures ScanSpec(t, now, hidden).hidden == hidden
    decreases |t|
  {
    if t != [] && !IsExit(t[0].1) {
      HideWithoutSwitch(t[1..], now, hidden);
    }
  }

  /** The last overlay_on/overlay_off the scan reaches decides the hidden flag. */
  lemma {:induction false} HideFollowsLastSwitch(t: Table, now: int, hidden: bool, p: nat)
    requires p < |t| && IsSwitch(t[p].1)
    requires forall q :: 0 <= q < p ==> !IsExit(t[q].1)
    requires forall q :: p < q < |t| ==> !IsSwitch(t[q].1)
    ensures ScanSpec(t, now, hidden).hidden == (t[p].1.command == OverlayOff)
    decreases p
  {
    var e := t[0].1;
    var hidden1 := if IsCommand(e) then HideAfter(e.command, hidden) else hidden;
    if p > 0 {
      HideFollowsLastSwitch(t[1..], now, hidden1, p - 1);
    } else {
      HideWithoutSwitch(t[1..], now, hidden1);
    }
  }

  // ---------------------------------------------------------------------
  // Drawing

  /** One draw call per entry, in ascending id order. */
  function Draws(t: Table): (r: seq<RenderCall>)
    ensures |r| == |t|
    ensures forall p :: 0 <= p < |t| ==> r[p] == Draw(t[p].1)
  {
    if t == [] then [] else [Draw(t[0].1)] + Draws(t[1..])
  }

  /** The table with every entry marked already rendered. */
  function AllRendered(t: Table): (r: Table)
    ensures |r| == |t|
    ensures forall p :: 0 <= p < |t| ==> r[p] == (t[p].0, SetAlreadyRendered(t[p].1))
  {
    if t == [] then [] else [(t[0].0, SetAlreadyRendered(t[0].1))] + AllRendered(t[1..])
  }

  lemma AllRenderedKeepsOrder(t: Table)
    requires Sorted(t)
    ensures Sorted(AllRendered(t))
  {
  }

  /** What the rendering step leaves: the table, the renderer calls and
      whether the window now counts as hidden. */
  datatype RenderResult = RenderResult(table: Table, calls: seq<RenderCall>, windowHidden: bool)

  /** The rendering after the scan. A visible overlay is redrawn in full
      when skip_render is false or the window was hidden, and left alone
      otherwise; an invisible one is cleared once, on the tick it becomes
      hidden. */
  function RenderSpec(t: Table, visible: bool, skipRender: bool, wasHidden: bool): RenderResult {
    if visible then
      if !skipRender || wasHidden then RenderResult(AllRendered(t), [CleanFrame] + Draws(t) + [FlushFrame], false)
      else RenderResult(t, [], false)
    else RenderResult(t, if wasHidden then [] else [CleanFrame, FlushFrame], true)
  }

  /** Every non-empty batch of renderer calls is one whole frame: cleared,
      then (only when visible) every entry drawn in id order, then flushed;
      after drawing, every entry is marked already rendered. The table's
      keys and items are otherwise untouched. */
  lemma RenderedFrame(t: Table, visible: bool, skipRender: bool, wasHidden: bool)
    ensures var r := RenderSpec(t, visible, skipRender, wasHidden);
            && |r.table| == |t|
            && (forall p :: 0 <= p < |t| ==> r.table[p].0 == t[p].0)
            && r.windowHidden == !visible
            && (r.calls == [] || (r.calls[0] == CleanFrame && r.calls[|r.calls| - 1] == FlushFrame))
            && (r.calls != [] && visible ==>
                  r.calls == [CleanFrame] + Draws(t) + [FlushFrame]
                  && forall p :: 0 <= p < |t| ==> r.table[p].1.alreadyRendered)
            && (!visible ==> r.table == t && r.calls in {[], [CleanFrame, FlushFrame]})
  {
  }

  /** While the overlay stays invisible, the window is cleared at most once. */
  lemma HiddenClearsOnce(t1: Table, t2: Table, skip1: bool, skip2: bool, wasHidden: bool)
    ensures RenderSpec(t2, false, skip2, RenderSpec(t1, false, skip1, wasHidden).windowHidden).calls == []
  {
  }

  /** With no command and nothing expired, the scan keeps the whole table,
      the hidden flag and the loop. */
  lemma {:induction false} ScanWithNothingDue(t: Table, now: int, hidden: bool)
    requires forall p :: 0 <= p < |t| ==> !Erased(t[p].1, now)
    ensures var o := ScanSpec(t, now, hidden);
            o.table == t && o.hidden == hidden && !o.exited
    decreases |t|
  {
    if t != [] {
      ScanWithNothingDue(t[1..], now, hidden);
    }
  }

  /** The anti-flicker promise of the loop: once a visible overlay has been
      drawn, a following tick in which nothing is due and no new data came
      draws nothing and leaves the table as it is. */
  lemma QuietSecondTick(t: Table, now: int, hidden: bool, skip: bool, wasHidden: bool)
    requires !skip || wasHidden
    requires forall p :: 0 <= p < |t| ==> !Erased(t[p].1, now)
    ensures var r1 := RenderSpec(t, true, skip, wasHidden);
            var o := ScanSpec(r1.table, now, hidden);
            var r2 := RenderSpec(o.table, true, o.skipRender, r1.windowHidden);
            r2.calls == [] && r2.table == r1.table
  {
    var r1 := RenderSpec(t, true, skip, wasHidden);
    forall p | 0 <= p < |r1.table| ensures !Erased(r1.table[p].1, now) {
      assert r1.table[p].1 == SetAlreadyRendered(t[p].1);
    }
    ScanWithNothingDue(r1.table, now, hidden);
    SkipRenderRule(r1.table, now, hidden);
  }

  lemma Bracketed<T>(a: seq<T>, x: T, b: seq<T>, y: T)
    ensures a + [x] + b + [y] == a + ([x] + b + [y])
  {
  }

  // ---------------------------------------------------------------------
  // The overlay loop

  /** The main loop's state: the shared table, the hidden flag set by
      commands, whether the window was hidden on the previous tick, whether
      the target application is focused, whether the loop still runs (the
      server thread exists), the activity-check counter and time, and the
      renderer calls so far. */
  class Overlay {
    const store: Store
    const programName: string
    var commandHideLayer: bool
    var windowWasHidden: bool
    var targetAppActive: bool
    var running: bool
    var checksCounter: nat
    var lastCheckTime: int
    var log: seq<RenderCall>

    predicate Valid()
      reads this, store
    {
      store.Valid()
    }

    /** The loop's initial state at time start: the first tick checks activity. */
    constructor(store: Store, programName: string, start: int)
      requires store.Valid()
      ensures Valid() && this.store == store && this.programName == programName
      ensures !commandHideLayer && !windowWasHidden && !targetAppActive && running
      ensures checksCounter == 0 && lastCheckTime == start - ActivityCheckMs && log == []
    {
      this.store := store;
      this.programName := programName;
      commandHideLayer := false;
      windowWasHidden := false;
      targetAppActive := false;
      running := true;
      checksCounter := 0;
      lastCheckTime := start - ActivityCheckMs;
      log := [];
    }

    /** The activity check, once more than 1500 ms have passed since the
        last one: the target is active when no program name was given or the
        focused window's binary path contains it. Every fifth check also
        asks whether transparency is available, once more after a pause;
        lost is true when both answers are no. */
    method CheckActivity(now: int, focusedPath: string, transparent: bool, transparentRetry: bool)
      returns (lost: bool)
      modifies this
      ensures lastCheckTime + 0 == (if old(lastCheckTime) + ActivityCheckMs < now then now else old(lastCheckTime))
      ensures old(lastCheckTime) + ActivityCheckMs < now ==>
                && checksCounter == old(checksCounter) + 1
                && targetAppActive == (programName == [] || StrContains(focusedPath, programName))
                && lost == (checksCounter % TransparencyEvery == 0 && !transparent && !transparentRetry)
      ensures !(old(lastCheckTime) + ActivityCheckMs < now) ==>
                checksCounter == old(checksCounter) && targetAppActive == old(targetAppActive) && !lost
      ensures commandHideLayer == old(commandHideLayer) && windowWasHidden == old(windowWasHidden)
      ensures running == old(running) && log == old(log)
    {
      lost := false;
      if lastCheckTime + ActivityCheckMs < now {
        checksCounter := checksCounter + 1;
        lastCheckTime := now;
        targetAppActive := programName == [] || StrContains(focusedPath, programName);
        if checksCounter % TransparencyEvery == 0 && !transparent {
          lost := !transparentRetry;
        }
      }
    }

    /** The scan loop of the locked section: runs command callbacks and
        erases commands and expired entries while iterating. */
    method Scan(now: int) returns (exited: bool, skipRender: bool)
      requires Valid()
      modifies this, store
      ensures Valid()
      ensures var o := ScanSpec(old(store.allDraws), now, old(commandHideLayer));
              && store.allDraws == o.table && commandHideLayer == o.hidden
              && exited == o.exited && skipRender == o.skipRender
      ensures exited ==> !targetAppActive && !running
      ensures !exited ==> targetAppActive == old(targetAppActive) && running == old(running)
      ensures windowWasHidden == old(windowWasHidden) && log == old(log)
      ensures store.idCounter == old(store.idCounter)
      ensures checksCounter == old(checksCounter) && lastCheckTime == old(lastCheckTime)
    {
      var t, hidden;
      t, hidden, exited, skipRender := ScanEntries(store.allDraws, now, commandHideLayer);
      ScanKeepsOrder(store.allDraws, now, commandHideLayer);
      store.allDraws := t;
      commandHideLayer := hidden;
      if exited {
        // the exit callback: serverAcceptThread.reset(); this tick still
        // renders, with the target counted as inactive
        running := false;
        targetAppActive := false;
      }
    }

    /** The drawing loop: every entry drawn in id order, then marked
        already rendered. */
    method DrawAll()
      requires Valid()
      modifies this, store
      ensures Valid()
      ensures store.allDraws == AllRendered(old(store.allDraws))
      ensures log == old(log) + Draws(old(store.allDraws))
      ensures store.idCounter == old(store.idCounter)
      ensures commandHideLayer == old(commandHideLayer) && windowWasHidden == old(windowWasHidden)
      ensures targetAppActive == old(targetAppActive) && running == old(running)
      ensures checksCounter == old(checksCounter) && lastCheckTime == old(lastCheckTime)
    {
      var t, calls := DrawEntries(store.allDraws);
      AllRenderedKeepsOrder(store.allDraws);
      log := log + calls;
      store.allDraws := t;
    }

    /** One whole frame: cleared, every entry drawn, flushed. */
    method RedrawFrame()
      requires Valid()
      modifies this, store
      ensures Valid()
      ensures store.allDraws == AllRendered(old(store.allDraws))
      ensures log == old(log) + ([CleanFrame] + Draws(old(store.allDraws)) + [FlushFrame])
      ensures store.idCounter == old(store.idCounter)
      ensures commandHideLayer == old(commandHideLayer) && windowWasHidden == old(windowWasHidden)
      ensures targetAppActive == old(targetAppActive) && running == old(running)
      ensures checksCounter == old(checksCounter) && lastCheckTime == old(lastCheckTime)
    {
      ghost var log0, t0 := log, store.allDraws;
      log := log + [CleanFrame];
      DrawAll();
      Bracketed(log0, CleanFrame, Draws(t0), FlushFrame);
      log := log + [FlushFrame];
    }

    /** After the scan: when the target is active and not hidden by command,
        redraw everything if something changed or the window was hidden;
        otherwise clear the window once, on the tick it becomes hidden. */
    method Render(skipRender: bool)
      requires Valid()
      modifies this, store
      ensures Valid()
      ensures var r := RenderSpec(old(store.allDraws), targetAppActive && !commandHideLayer, skipRender, old(windowWasHidden));
              store.allDraws == r.table && log == old(log) + r.calls && windowWasHidden == r.windowHidden
      ensures store.idCounter == old(store.idCounter)
      ensures commandHideLayer == old(commandHideLayer)
      ensures targetAppActive == old(targetAppActive) && running == old(running)
      ensures checksCounter == old(checksCounter) && lastCheckTime == old(lastCheckTime)
    {
      if targetAppActive && !commandHideLayer {
        if !skipRender || windowWasHidden {
          RedrawFrame();
        }
        windowWasHidden := false;
      } else {
        if !windowWasHidden {
          log := log + [CleanFrame, FlushFrame];
        }
        windowWasHidden := true;
      }
    }

    /** One pass of the main loop while it runs: the activity check, then
        (unless transparency was lost, which ends the loop) the scan and the
        rendering under the lock. */
    method Tick(now: int, focusedPath: string, transparent: bool, transparentRetry: bool)
      requires Valid()
      modifies this, store
      ensures Valid()
      ensures store.idCounter == old(store.idCounter)
      ensures !old(running) ==> unchanged(this) && unchanged(store)
      ensures old(running) && old(TransparencyLost(now, transparent, transparentRetry)) ==>
                && !running && store.allDraws == old(store.allDraws) && log == old(log)
                && commandHideLayer == old(commandHideLayer) && windowWasHidden == old(windowWasHidden)
      ensures old(running) && !old(TransparencyLost(now, transparent, transparentRetry)) ==>
                var active := old(ActiveAfterCheck(now, focusedPath));
                var o := ScanSpec(old(store.allDraws), now, old(commandHideLayer));
                var r := RenderSpec(o.table, active && !o.exited && !o.hidden, o.skipRender, old(windowWasHidden));
                && running == !o.exited && targetAppActive == (active && !o.exited)
                && commandHideLayer == o.hidden
                && store.allDraws == r.table && log == old(log) + r.calls && windowWasHidden == r.windowHidden
    {
      if !running {
        return;
      }
      var lost := CheckActivity(now, focusedPath, transparent, transparentRetry);
      if lost {
        running := false;
        return;
      }
      var exited, skipRender := Scan(now);
      Render(skipRender);
    }

    /** Whether this tick's activity check runs and finds transparency gone. */
    predicate TransparencyLost(now: int, transparent: bool, transparentRetry: bool)
      reads this
    {
      lastCheckTime + ActivityCheckMs < now
      && (checksCounter + 1) % TransparencyEvery == 0 && !transparent && !transparentRetry
    }

    /** Whether the target counts as focused after this tick's activity check. */
    predicate ActiveAfterCheck(now: int, focusedPath: string)
      reads this
    {
      if lastCheckTime + ActivityCheckMs < now then programName == [] || StrContains(focusedPath, programName)
      else targetAppActive
    }
  }

  /** The scan loop over the entries: command callbacks update the hidden
      flag, and commands and expired entries are erased while iterating. */
  method ScanEntries(t0: Table, now: int, hidden0: bool)
    returns (t: Table, hidden: bool, exited: bool, skipRender: bool)
    ensures ScanOutcome(t, hidden, exited, skipRender) == ScanSpec(t0, now, hidden0)
  {
    t, hidden := t0, hidden0;
    var i := 0;
    skipRender := true;
    exited := false;
    assert t[..0] == [] && t[0..] == t;
    while i < |t|
      invariant i <= |t|
      invariant Combine(t[..i], skipRender, ScanSpec(t[i..], now, hidden)) == ScanSpec(t0, now, hidden0)
      invariant !exited
      decreases |t| - i
    {
      var e := t[i].1;
      if IsCommand(e) && e.command == ExitCommand {
        ScanStepExit(t, i, skipRender, now, hidden);
        skipRender := false;
        exited := true;
        return;
      }
      ghost var before := hidden;
      if IsCommand(e) {
        hidden := HideAfter(e.command, hidden);
      }
      skipRender := skipRender && e.alreadyRendered;
      if Erased(e, now) {
        ScanStepErase(t, i, skipRender, now, before);
        skipRender := false;
        t := RemoveAt(t, i);
      } else {
        ScanStepKeep(t, i, skipRender, now, before);
        i := i + 1;
      }
    }
    ScanStepEnd(t, skipRender, now, hidden);
  }

  /** The scan only erases entries, so key order is kept. */
  lemma {:induction false} ScanKeepsOrder(t: Table, now: int, hidden: bool)
    requires Sorted(t)
    ensures Sorted(ScanSpec(t, now, hidden).table)
    decreases |t|
  {
    if t != [] && !IsExit(t[0].1) {
      SortedTail(t);
      var r := ScanSpec(t[1..], now, NextHidden(t[0].1, hidden)).table;
      ScanKeepsOrder(t[1..], now, NextHidden(t[0].1, hidden));
      ScanIsSubset(t[1..], now, NextHidden(t[0].1, hidden));
      if !Erased(t[0].1, now) {
        forall j | 0 <= j < |r| ensures StrLess(t[0].0, r[j].0) {
          assert r[j] in t[1..];
          var q :| 0 <= q < |t[1..]| && t[1..][q] == r[j];
          assert t[q + 1] == r[j];
        }
        assert Sorted([t[0]] + r);
      }
    }
  }

  lemma {:induction false} ScanIsSubset(t: Table, now: int, hidden: bool)
    ensures forall e :: e in ScanSpec(t, now, hidden).table ==> e in t
    decreases |t|
  {
    if t != [] && !IsExit(t[0].1) {
      ScanIsSubset(t[1..], now, NextHidden(t[0].1, hidden));
    }
  }

  /** The drawing loop over the entries: each one drawn, then marked. */
  method DrawEntries(t0: Table) returns (t: Table, calls: seq<RenderCall>)
    ensures t == AllRendered(t0) && calls == Draws(t0)
  {
    t, calls := t0, [];
    var i := 0;
    while i < |t|
      invariant i <= |t| == |t0| && |calls| == i
      invariant forall p :: 0 <= p < i ==> t[p] == (t0[p].0, SetAlreadyRendered(t0[p].1))
      invariant forall p :: i <= p < |t| ==> t[p] == t0[p]
      invariant forall p :: 0 <= p < i ==> calls[p] == Draw(t0[p].1)
    {
      calls := calls + [Draw(t[i].1)];
      t := t[i := (t[i].0, SetAlreadyRendered(t[i].1))];
      i := i + 1;
    }
    SameAtEveryIndex(t, AllRendered(t0));
    SameAtEveryIndex(calls, Draws(t0));
  }

  lemma SameAtEveryIndex<T>(a: seq<T>, b: seq<T>)
    requires |a| == |b| && forall p :: 0 <= p < |a| ==> a[p] == b[p]
    ensures a == b
  {
  }

  /** The scan's bookkeeping across one loop iteration. */
  lemma ScanStepExit(t: Table, i: nat, skip: bool, now: int, hidden: bool)
    requires i < |t| && IsExit(t[i].1)
    ensures Combine(t[..i], skip, ScanSpec(t[i..], now, hidden)) == ScanOutcome(t, hidden, true, false)
  {
    assert t[..i] + t[i..] == t;
  }

  function NextHidden(e: DrawItem, hidden: bool): bool {
    if IsCommand(e) then HideAfter(e.command, hidden) else hidden
  }

  lemma ScanStepErase(t: Table, i: nat, skip: bool, now: int, hidden: bool)
    requires i < |t| && !IsExit(t[i].1) && Erased(t[i].1, now)
    ensures Combine(RemoveAt(t, i)[..i], false, ScanSpec(RemoveAt(t, i)[i..], now, NextHidden(t[i].1, hidden)))
            == Combine(t[..i], skip, ScanSpec(t[i..], now, hidden))
  {
    var r := RemoveAt(t, i);
    assert r[..i] == t[..i];
    assert r[i..] == t[i..][1..];
  }

  lemma ScanStepKeep(t: Table, i: nat, skip: bool, now: int, hidden: bool)
    requires i < |t| && !IsExit(t[i].1) && !Erased(t[i].1, now)
    ensures Combine(t[..i + 1], skip && t[i].1.alreadyRendered, ScanSpec(t[i + 1..], now, NextHidden(t[i].1, hidden)))
            == Combine(t[..i], skip, ScanSpec(t[i..], now, hidden))
  {
    assert t[..i + 1] == t[..i] + [t[i]];
    assert t[i + 1..] == t[i..][1..];
  }

  lemma ScanStepEnd(t: Table, skip: bool, now: int, hidden: bool)
    ensures Combine(t[..|t|], skip, ScanSpec(t[|t|..], now, hidden)) == ScanOutcome(t, hidden, false, skip)
  {
    assert t[..|t|] == t && t[|t|..] == [];
  }
}
