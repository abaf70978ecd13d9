/** `DeviceManager.runAppiumMonkey`, the bounded "monkey" UI-exploration loop.
    The platform calls the loop makes (driver acquisition, element queries,
    the app-state query, `getText`, `click`, home navigation, app launch) are
    replaced by a scripted environment, one record per round, and what the loop
    asks of the driver and the device is recorded as a trace of actions. */
module AppiumMonkey {
  import opened DeviceManager


  /** How one call into the automation driver ended: it returned, or it threw
      one of the `WebDriverException`s the loop tells apart. */
  datatype CallOutcome = Returned | StaleElement | NotInteractable | OtherDriverError

  /** A stale or not-interactable element: the failures the loop swallows
      around `getText` and `click`. */
  predicate IsElementChurn(c: CallOutcome)
  {
    c == StaleElement || c == NotInteractable
  }

  /** The scripted answers of the driver and the device for one round:
      `getMobileAppiumDriver`, the leaf query and its size, the app-state query
      and its answer, the all-elements query and its size, the random draw,
      and `getText` and `click` on the picked element. */
  datatype Round = Round(
    getDriver: CallOutcome,
    findLeaves: CallOutcome, leafCount: nat,
    queryAppState: CallOutcome, appState: ApplicationState,
    findAll: CallOutcome, allCount: nat,
    draw: nat,
    getText: CallOutcome, click: CallOutcome)

  /** What the loop asks of the driver and the device, in order. */
  datatype Action =
    | AcquireDriver
    | FindLeaves
    | QueryAppState
    | BackToHome
    | LaunchApp
    | FindAll
    | GetText(index: nat)
    | Click(index: nat)
    | QuitDriver

  /** The actions of one round, and whether a driver failure ended it. */
  datatype RoundResult = RoundResult(actions: seq<Action>, fatal: bool)

  /** `runAppiumMonkey`'s recovery condition: no leaf was found, or a package is
      named and is not in the foreground. */
  predicate WantsRecovery(packageName: string, r: Round)
  {
    r.leafCount == 0 || (packageName != [] && !IsAppRunningForeground(r.appState))
  }

  /** The number of elements the round picks from: all elements after a
      recovery, the leaves otherwise. */
  function Candidates(packageName: string, r: Round): nat
  {
    if WantsRecovery(packageName, r) then r.allCount else r.leafCount
  }

  /** The element-level calls of a round that picks among `count` elements:
      none for an empty list, otherwise `getText` of the drawn element and,
      if that returned, `click` on it. */
  function PickActions(r: Round, count: nat): seq<Action>
  {
    if count == 0 then []
    else
      var k := r.draw % count;
      if r.getText != Returned then [GetText(k)] else [GetText(k), Click(k)]
  }

  /** The element-level calls are `getText` and `click` only. */
  lemma PickActionsAreElementCalls(r: Round, count: nat)
    ensures forall x :: x in PickActions(r, count) ==> x.GetText? || x.Click?
  {
  }

  /** Whether those element-level calls threw an error the round does not swallow. */
  predicate PickFails(r: Round, count: nat)
  {
    count != 0 && (if r.getText != Returned then r.getText == OtherDriverError else r.click == OtherDriverError)
  }

  /** The round makes the foreground query only when a package is named and
      leaves were found: `||` skips it when the count is 0. */
  predicate QueriesForeground(packageName: string, r: Round)
  {
    packageName != [] && r.leafCount != 0
  }

  /** The calls of the recovery branch: home, a relaunch of the app when a
      package is named, then the query for all elements. */
  function RecoveryActions(packageName: string): seq<Action>
  {
    [BackToHome] + (if packageName != [] then [LaunchApp] else []) + [FindAll]
  }

  /** The calls a round makes before it picks an element, up to the first one
      that fails. */
  function Prelude(packageName: string, r: Round): seq<Action>
  {
    if r.getDriver != Returned then [AcquireDriver]
    else if r.findLeaves != Returned then [AcquireDriver, FindLeaves]
    else
      var query := if QueriesForeground(packageName, r) then [QueryAppState] else [];
      if QueriesForeground(packageName, r) && r.queryAppState != Returned then [AcquireDriver, FindLeaves] + query
      else if WantsRecovery(packageName, r) then [AcquireDriver, FindLeaves] + query + RecoveryActions(packageName)
      else [AcquireDriver, FindLeaves] + query
  }

  /** Whether one of those calls throws: each is outside the `getText`/`click`
      guard, so any `WebDriverException` it throws ends the loop. */
  predicate PreludeFails(packageName: string, r: Round)
  {
    || r.getDriver != Returned
    || r.findLeaves != Returned
    || (QueriesForeground(packageName, r) && r.queryAppState != Returned)
    || (WantsRecovery(packageName, r) && r.findAll != Returned)
  }

  /** One round of the loop against the scripted environment. */
  function PlayRound(packageName: string, r: Round): RoundResult
  {
    var pre := Prelude(packageName, r);
    if PreludeFails(packageName, r) then RoundResult(pre, true)
    else
      var count := Candidates(packageName, r);
      RoundResult(pre + PickActions(r, count), PickFails(r, count))
  }


  /** The loop's trace so far, whether a driver failure ended it, and how many
      rounds it started. */
  datatype Run = Run(trace: seq<Action>, aborted: bool, started: nat)

  /** The `for` loop and its `catch`, given what each round does: rounds run one
      after the other until one ends in a driver failure; the driver is then
      quit and no further round starts. */
  function Loop(results: seq<RoundResult>): Run
    decreases |results|
  {
    if results == [] then Run([], false, 0)
    else
      var before := Loop(results[..|results| - 1]);
      var last := results[|results| - 1];
      if before.aborted then before
      else if last.fatal then Run(before.trace + last.actions + [QuitDriver], true, before.started + 1)
      else Run(before.trace + last.actions, false, before.started + 1)
  }

  /** What each round of the script does. */
  function PlayRounds(packageName: string, script: seq<Round>): (results: seq<RoundResult>)
    ensures |results| == |script|
    ensures forall i :: 0 <= i < |script| ==> results[i] == PlayRound(packageName, script[i])
  {
    seq(|script|, i requires 0 <= i < |script| => PlayRound(packageName, script[i]))
  }

  /** The trace of `runAppiumMonkey` called with `round`. */
  function MonkeyTrace(packageName: string, script: seq<Round>, round: int): seq<Action>
    requires round <= |script|
  {
    if round <= 0 then [] else Loop(PlayRounds(packageName, script)[..round]).trace
  }

  /** One round of `runAppiumMonkey`: the body of its `for` loop, with each
      thrown `WebDriverException` that escapes the round reported as `fatal`. */
  method MonkeyRound(packageName: string, r: Round) returns (actions: seq<Action>, fatal: bool)
    ensures RoundResult(actions, fatal) == PlayRound(packageName, r)
  {
    actions := [AcquireDriver];
    fatal := r.getDriver != Returned;
    var count := 0;
    if !fatal {
      // select all the leaf nodes
      actions := actions + [FindLeaves];
      fatal := r.findLeaves != Returned;
      count := r.leafCount;
    }
    if !fatal {
      var recover := false;
      if packageName == [] {
        recover := count == 0;
      } else if count == 0 {
        recover := true;  // `||` skips the foreground query
      } else {
        actions := actions + [QueryAppState];
        fatal := r.queryAppState != Returned;
        recover := !fatal && !IsAppRunningForeground(r.appState);
      }
      if recover {
        actions := actions + [BackToHome];
        if packageName != [] {
          actions := actions + [LaunchApp];
        }
        actions := actions + [FindAll];
        fatal := r.findAll != Returned;
        count := r.allCount;
      }
    }
    assert actions == Prelude(packageName, r) && fatal == PreludeFails(packageName, r);
    if !fatal && count > 0 {
      var k := r.draw % count;
      actions := actions + [GetText(k)];
      if r.getText == Returned {
        actions := actions + [Click(k)];
        fatal := r.click == OtherDriverError;
      } else {
        // stale or not interactable: swallowed; any other driver error escapes
        fatal := r.getText == OtherDriverError;
      }
    }
  }

  /** `runAppiumMonkey`: up to `round` rounds against the scripted environment;
      a driver failure quits the driver and ends the loop. */
  method RunAppiumMonkey(packageName: string, round: int, script: seq<Round>) returns (trace: seq<Action>)
    requires round <= |script|
    ensures trace == MonkeyTrace(packageName, script, round)
  {
    ghost var results := PlayRounds(packageName, script);
    trace := [];
    var i := 0;
    var aborted := false;
    while i < round && !aborted
      invariant 0 <= i <= |script| && (i == 0 || i <= round)
      invariant Loop(results[..i]) == Run(trace, aborted, i)
    {
      var actions, fatal := MonkeyRound(packageName, script[i]);
      LoopStep(results, i, actions, fatal);
      if fatal {
        // the WebDriverException escapes the round: quit the driver, leave the loop
        trace := trace + actions + [QuitDriver];
        aborted := true;
      } else {
        trace := trace + actions;
      }
      i := i + 1;
    }
    if aborted {
      AbortIsFinal(results, i, round);
    }
  }

  // ---------------------------------------------------------------------------
  // One round

  /** The calls after the first one in a round: queries and device commands. */
  predicate IsLaterCall(x: Action)
  {
    x.FindLeaves? || x.QueryAppState? || x.BackToHome? || x.LaunchApp? || x.FindAll? || x.GetText? || x.Click?
  }

  /** The prelude starts by acquiring the driver, and all its later calls are
      queries and device commands. */
  lemma PreludeShape(packageName: string, r: Round)
    ensures var pre := Prelude(packageName, r);
      pre != [] && pre[0] == AcquireDriver && forall i :: 1 <= i < |pre| ==> IsLaterCall(pre[i])
    ensures var pre := Prelude(packageName, r);
      forall i :: 0 <= i < |pre| ==> !pre[i].GetText? && !pre[i].Click?
  {
    var pre := Prelude(packageName, r);
    if r.getDriver == Returned && r.findLeaves == Returned {
      var query := if QueriesForeground(packageName, r) then [QueryAppState] else [];
      var recovery := RecoveryActions(packageName);
      assert forall i :: 0 <= i < |recovery| ==> IsLaterCall(recovery[i]) && !recovery[i].GetText? && !recovery[i].Click?;
      assert pre == [AcquireDriver, FindLeaves] + query + recovery || pre == [AcquireDriver, FindLeaves] + query;
    }
  }

  /** A sequence of calls that starts by acquiring the driver and continues
      with queries and device commands only acquires it once and never quits it. */
  lemma AcquiresOnceByShape(a: seq<Action>)
    requires a != [] && a[0] == AcquireDriver
    requires forall i :: 1 <= i < |a| ==> IsLaterCall(a[i])
    ensures multiset(a)[AcquireDriver] == 1 && QuitDriver !in a
  {
    assert a == [AcquireDriver] + a[1..];
    assert AcquireDriver !in a[1..];
  }

  /** Each round acquires the driver exactly once, as its first action, and
      never quits it (only the loop does). */
  lemma RoundAcquiresOnce(packageName: string, r: Round)
    ensures AcquiresOnce(PlayRound(packageName, r))
  {
    var a := PlayRound(packageName, r).actions;
    var pre := Prelude(packageName, r);
    PreludeShape(packageName, r);
    var pick := if PreludeFails(packageName, r) then [] else PickActions(r, Candidates(packageName, r));
    PickActionsAreElementCalls(r, Candidates(packageName, r));
    assert a == pre + pick;
    assert forall i :: 1 <= i < |a| ==> IsLaterCall(a[i]) by {
      forall i | 1 <= i < |a| ensures IsLaterCall(a[i]) {
        if i >= |pre| {
          assert a[i] == pick[i - |pre|];
          assert a[i] in pick;
        }
      }
    }
    AcquiresOnceByShape(a);
  }

  /** When the round goes home and relaunches: with no package, exactly when no
      leaf was found; with a package, when no leaf was found or the app is not
      in the foreground. The foreground query is made only when leaves were
      found, and the app is launched only when a package is named. */
  lemma RecoveryRule(packageName: string, r: Round)
    ensures var a := PlayRound(packageName, r).actions;
      var queried := r.getDriver == Returned && r.findLeaves == Returned;
      (BackToHome in a <==>
         queried && (r.leafCount == 0 || (packageName != [] && r.queryAppState == Returned && !IsAppRunningForeground(r.appState)))) &&
      (QueryAppState in a <==> queried && packageName != [] && r.leafCount != 0) &&
      (LaunchApp in a <==> BackToHome in a && packageName != []) &&
      (FindAll in a <==> BackToHome in a)
  {
    var a := PlayRound(packageName, r).actions;
    var pre := Prelude(packageName, r);
    var pick := if PreludeFails(packageName, r) then [] else PickActions(r, Candidates(packageName, r));
    PickActionsAreElementCalls(r, Candidates(packageName, r));
    assert a == pre + pick;
    assert BackToHome !in pick && QueryAppState !in pick && LaunchApp !in pick && FindAll !in pick;
    if r.getDriver == Returned && r.findLeaves == Returned {
      var query := if QueriesForeground(packageName, r) then [QueryAppState] else [];
      if QueriesForeground(packageName, r) && r.queryAppState != Returned {
        assert pre == [AcquireDriver, FindLeaves, QueryAppState];
      } else if WantsRecovery(packageName, r) {
        if packageName != [] {
          assert pre == [AcquireDriver, FindLeaves] + query + [BackToHome, LaunchApp, FindAll];
        } else {
          assert pre == [AcquireDriver, FindLeaves, BackToHome, FindAll];
        }
      } else {
        assert pre == [AcquireDriver, FindLeaves] + query;
      }
    }
  }

  /** The round reads and clicks an element of the final candidate list, and
      does so whenever it can: when the calls before the pick succeed and the
      list (all elements after a trip home, the leaves otherwise) is not
      empty, it reads the drawn element, and it clicks that element exactly
      when `getText` returned. Nothing is picked from an empty list. */
  lemma PickInRange(packageName: string, r: Round, k: nat)
    ensures var a := PlayRound(packageName, r).actions;
      var n := if BackToHome in a then r.allCount else r.leafCount;
      (GetText(k) in a <==> !PreludeFails(packageName, r) && n > 0 && k == r.draw % n) &&
      (Click(k) in a <==> GetText(k) in a && r.getText == Returned) &&
      (GetText(k) in a ==> k < Candidates(packageName, r))
  {
    var a := PlayRound(packageName, r).actions;
    var pre := Prelude(packageName, r);
    PreludeShape(packageName, r);
    assert GetText(k) !in pre && Click(k) !in pre;
    if !PreludeFails(packageName, r) {
      RecoveryRule(packageName, r);
      assert (BackToHome in a) == WantsRecovery(packageName, r);
      var pick := PickActions(r, Candidates(packageName, r));
      assert a == pre + pick;
    }
  }

  /** A failing call the round made: one outside the `getText`/`click` guard
      that did not return, or one inside it that raised a driver error other
      than a stale or not-interactable element. */
  ghost predicate MadeFailingCall(r: Round, actions: seq<Action>)
  {
    || r.getDriver != Returned
    || (FindLeaves in actions && r.findLeaves != Returned)
    || (QueryAppState in actions && r.queryAppState != Returned)
    || (FindAll in actions && r.findAll != Returned)
    || ((exists k :: GetText(k) in actions) && r.getText == OtherDriverError)
    || ((exists k :: Click(k) in actions) && r.click == OtherDriverError)
  }

  /** A fatal round made a failing call. */
  lemma FatalHasCause(packageName: string, r: Round)
    ensures var res := PlayRound(packageName, r);
      res.fatal ==> MadeFailingCall(r, res.actions)
  {
    var res := PlayRound(packageName, r);
    if res.fatal && r.getDriver == Returned {
      if PreludeFails(packageName, r) {
        RecoveryRule(packageName, r);
        if r.findLeaves != Returned {
          assert res.actions == [AcquireDriver, FindLeaves];
        }
      } else {
        var k := r.draw % Candidates(packageName, r);
        var pick := PickActions(r, Candidates(packageName, r));
        assert res.actions == Prelude(packageName, r) + pick;
        assert GetText(k) in pick;
        if r.getText == Returned {
          assert Click(k) in pick;
        }
      }
    }
  }

  /** Only a driver failure ends the loop: a round is fatal exactly when it
      made a failing call. A stale or not-interactable element during
      `getText` or `click` is swallowed, and a stale `getText` is never
      followed by a click. */
  lemma ChurnIsTolerated(packageName: string, r: Round)
    ensures var res := PlayRound(packageName, r);
      res.fatal <==> MadeFailingCall(r, res.actions)
    ensures !PreludeFails(packageName, r) && (IsElementChurn(r.getText) || (r.getText == Returned && IsElementChurn(r.click))) ==>
      !PlayRound(packageName, r).fatal
    ensures IsElementChurn(r.getText) ==> forall k :: Click(k) !in PlayRound(packageName, r).actions
  {
    var res := PlayRound(packageName, r);
    FatalHasCause(packageName, r);
    DriverErrorsAreFatal(packageName, r);
  }

  /** Outside `getText` and `click` every failure of a call the round makes is
      fatal, a stale element included; so is any other driver error there. */
  lemma DriverErrorsAreFatal(packageName: string, r: Round)
    ensures var res := PlayRound(packageName, r);
      (r.getDriver != Returned ==> res.fatal) &&
      (FindLeaves in res.actions && r.findLeaves != Returned ==> res.fatal) &&
      (QueryAppState in res.actions && r.queryAppState != Returned ==> res.fatal) &&
      (FindAll in res.actions && r.findAll != Returned ==> res.fatal) &&
      (forall k :: GetText(k) in res.actions && r.getText == OtherDriverError ==> res.fatal) &&
      (forall k :: Click(k) in res.actions && r.click == OtherDriverError ==> res.fatal)
  {
    var res := PlayRound(packageName, r);
    RecoveryRule(packageName, r);
    PreludeShape(packageName, r);
    var pre := Prelude(packageName, r);
    if !PreludeFails(packageName, r) {
      var pick := PickActions(r, Candidates(packageName, r));
      assert res.actions == pre + pick;
      forall k | GetText(k) in res.actions || Click(k) in res.actions
        ensures GetText(k) in pick || Click(k) in pick
      {
        assert GetText(k) !in pre && Click(k) !in pre;
      }
    }
  }

  /** A screen without leaves and a non-empty full element list: one trip home,
      then the pick is made among all elements. */
  lemma SingleRecoveryBeforeActing(r: Round)
    requires r.getDriver == Returned && r.findLeaves == Returned && r.leafCount == 0
    requires r.findAll == Returned && r.allCount > 0 && r.getText == Returned
    ensures var k := r.draw % r.allCount;
      PlayRound([], r).actions == [AcquireDriver, FindLeaves, BackToHome, FindAll, GetText(k), Click(k)]
  {
  }

  // ---------------------------------------------------------------------------
  // The whole loop

  /** One more round of a loop that has not aborted. */
  lemma LoopStep(results: seq<RoundResult>, i: nat, actions: seq<Action>, fatal: bool)
    requires i < |results| && !Loop(results[..i]).aborted && results[i] == RoundResult(actions, fatal)
    ensures var before := Loop(results[..i]);
      Loop(results[..i + 1]) ==
        if fatal then Run(before.trace + actions + [QuitDriver], true, before.started + 1)
        else Run(before.trace + actions, false, before.started + 1)
  {
    assert results[..i + 1][..i] == results[..i];
  }

  /** Once a driver failure has ended the loop, later rounds change nothing. */
  lemma {:induction false} AbortIsFinal(results: seq<RoundResult>, j: nat, k: nat)
    requires j <= k <= |results|
    requires Loop(results[..j]).aborted
    ensures Loop(results[..k]) == Loop(results[..j])
    decreases k
  {
    if k > j {
      AbortIsFinal(results, j, k - 1);
      assert results[..k][..k - 1] == results[..k - 1];
    }
  }

  /** What every round does: acquire the driver first and only then, and never quit it. */
  predicate AcquiresOnce(res: RoundResult)
  {
    res.actions != [] && res.actions[0] == AcquireDriver &&
    multiset(res.actions)[AcquireDriver] == 1 && QuitDriver !in res.actions
  }

  /** The rounds started, the driver acquisitions and the quits: every started
      round acquires the driver once; the driver is quit once, as the last
      action, exactly when a round failed; otherwise every round runs. */
  lemma {:induction false} LoopCounts(results: seq<RoundResult>)
    requires forall i :: 0 <= i < |results| ==> AcquiresOnce(results[i])
    ensures var m := Loop(results);
      m.started <= |results| &&
      multiset(m.trace)[AcquireDriver] == m.started &&
      multiset(m.trace)[QuitDriver] == (if m.aborted then 1 else 0) &&
      (!m.aborted ==> m.started == |results|) &&
      (m.aborted ==> m.trace != [] && m.trace[|m.trace| - 1] == QuitDriver)
    decreases |results|
  {
    if results != [] {
      var init := results[..|results| - 1];
      assert forall i :: 0 <= i < |init| ==> init[i] == results[i];
      LoopCounts(init);
      var before := Loop(init);
      var last := results[|results| - 1];
      assert AcquiresOnce(last);
      if !before.aborted {
        var t := before.trace + last.actions;
        assert multiset(t) == multiset(before.trace) + multiset(last.actions);
        if last.fatal {
          assert multiset(t + [QuitDriver]) == multiset(t) + multiset{QuitDriver};
        }
      }
    }
  }

  /** The loop stops at the first failing round: it aborts exactly when some
      round fails, the last round it started is the first that failed, and
      every round before it completed. */
  lemma {:induction false} LoopStopsAtFirstFatal(results: seq<RoundResult>)
    ensures var m := Loop(results);
      m.started <= |results| &&
      (m.aborted <==> exists j :: 0 <= j < |results| && results[j].fatal) &&
      (m.aborted ==> 1 <= m.started && results[m.started - 1].fatal) &&
      (!m.aborted ==> m.started == |results|) &&
      (forall j :: 0 <= j < |results| && results[j].fatal ==> m.started - 1 <= j)
    decreases |results|
  {
    if results != [] {
      var init := results[..|results| - 1];
      assert forall i :: 0 <= i < |init| ==> init[i] == results[i];
      LoopStopsAtFirstFatal(init);
    }
  }

  /** Every action of the trace except the final quit comes from one of the
      rounds the loop started. */
  lemma {:induction false} LoopActionsFromRounds(results: seq<RoundResult>, x: Action)
    requires x in Loop(results).trace && x != QuitDriver
    ensures exists j :: 0 <= j < Loop(results).started && j < |results| && x in results[j].actions
    decreases |results|
  {
    var init := results[..|results| - 1];
    var before := Loop(init);
    LoopStopsAtFirstFatal(init);
    if before.aborted || x in before.trace {
      LoopActionsFromRounds(init, x);
      var j :| 0 <= j < before.started && j < |init| && x in init[j].actions;
      assert init[j] == results[j];
    } else {
      assert x in results[|results| - 1].actions;
    }
  }

  /** Every round of a script acquires the driver once and does not quit it. */
  lemma AllRoundsAcquireOnce(packageName: string, script: seq<Round>)
    ensures forall i :: 0 <= i < |script| ==> AcquiresOnce(PlayRounds(packageName, script)[i])
  {
    forall i | 0 <= i < |script| ensures AcquiresOnce(PlayRounds(packageName, script)[i]) {
      RoundAcquiresOnce(packageName, script[i]);
    }
  }

  /** `runAppiumMonkey` with `round`: nothing at all when `round <= 0`; at
      most `round` driver acquisitions; at most one quit, made exactly when a
      round failed; and all `round` rounds when none failed. */
  lemma MonkeyBounds(packageName: string, script: seq<Round>, round: int)
    requires round <= |script|
    ensures var t := MonkeyTrace(packageName, script, round);
      (round <= 0 ==> t == []) &&
      multiset(t)[AcquireDriver] <= (if round <= 0 then 0 else round) &&
      multiset(t)[QuitDriver] <= 1 &&
      (QuitDriver in t <==> exists j :: 0 <= j < round && PlayRound(packageName, script[j]).fatal) &&
      (QuitDriver !in t && round > 0 ==> multiset(t)[AcquireDriver] == round)
  {
    if round > 0 {
      var all := PlayRounds(packageName, script);
      var results := all[..round];
      AllRoundsAcquireOnce(packageName, script);
      assert forall i :: 0 <= i < |results| ==> results[i] == all[i];
      LoopCounts(results);
      LoopStopsAtFirstFatal(results);
      var m := Loop(results);
      assert QuitDriver in m.trace <==> m.aborted;
      assert m.aborted <==> exists j :: 0 <= j < round && all[j].fatal;
    }
  }

  /** Every click of the whole run hits an element of the candidate list of
      the round that made it. */
  lemma ClicksInRange(packageName: string, script: seq<Round>, round: int, k: nat)
    requires round <= |script|
    requires Click(k) in MonkeyTrace(packageName, script, round)
    ensures exists j ::
      && 0 <= j < round
      && Click(k) in PlayRound(packageName, script[j]).actions
      && k < Candidates(packageName, script[j])
  {
    var results := PlayRounds(packageName, script)[..round];
    LoopActionsFromRounds(results, Click(k));
    var j :| 0 <= j < |results| && Click(k) in results[j].actions;
    PickInRange(packageName, script[j], k);
  }

  /** A failure in the second round: two rounds start, and the driver is
      quit once, at the end. */
  lemma LoopFailsInSecondRound(results: seq<RoundResult>)
    requires |results| >= 2 && !results[0].fatal && results[1].fatal
    requires forall i :: 0 <= i < |results| ==> AcquiresOnce(results[i])
    ensures var t := Loop(results).trace;
      multiset(t)[AcquireDriver] == 2 && multiset(t)[QuitDriver] == 1 && |t| > 0 && t[|t| - 1] == QuitDriver
  {
    LoopStopsAtFirstFatal(results);
    LoopCounts(results);
  }

  /** A quit is always the last action of the loop's trace. */
  lemma LoopQuitsLast(results: seq<RoundResult>, t: seq<Action>)
    requires forall i :: 0 <= i < |results| ==> AcquiresOnce(results[i])
    requires t == Loop(results).trace
    ensures QuitDriver in t ==> |t| > 0 && t[|t| - 1] == QuitDriver
  {
    LoopCounts(results);
    assert QuitDriver in t ==> multiset(t)[QuitDriver] > 0;
  }

  /** Once `runAppiumMonkey` quits the driver it does nothing more: a quit is
      always the last action of the run. */
  lemma MonkeyQuitsLast(packageName: string, script: seq<Round>, round: int)
    requires round <= |script|
    ensures var t := MonkeyTrace(packageName, script, round);
      QuitDriver in t ==> |t| > 0 && t[|t| - 1] == QuitDriver
  {
    if round > 0 {
      var results := PlayRounds(packageName, script)[..round];
      assert forall i :: 0 <= i < |results| ==> AcquiresOnce(results[i]) by {
        AllRoundsAcquireOnce(packageName, script);
      }
      LoopQuitsLast(results, MonkeyTrace(packageName, script, round));
    }
  }

  /** A driver failure in round 2 of `round >= 2` rounds: exactly two
      rounds start, and the driver is quit once, at the end. */
  lemma FatalSecondRound(packageName: string, script: seq<Round>, round: int)
    requires 2 <= round <= |script|
    requires !PlayRound(packageName, script[0]).fatal && PlayRound(packageName, script[1]).fatal
    ensures var t := MonkeyTrace(packageName, script, round);
      multiset(t)[AcquireDriver] == 2 && multiset(t)[QuitDriver] == 1 && |t| > 0 && t[|t| - 1] == QuitDriver
  {
    var results := PlayRounds(packageName, script)[..round];
    assert !results[0].fatal && results[1].fatal by {
      assert results[0] == PlayRound(packageName, script[0]);
      assert results[1] == PlayRound(packageName, script[1]);
    }
    assert forall i :: 0 <= i < |results| ==> AcquiresOnce(results[i]) by {
      AllRoundsAcquireOnce(packageName, script);
    }
    LoopFailsInSecondRound(results);
    MonkeyQuitsLast(packageName, script, round);
  }

  /** A driver failure in round 2 of 5 (index 1): exactly two rounds start,
      and the driver is quit once, at the end. */
  lemma FatalSecondRoundOfFive(packageName: string, script: seq<Round>)
    requires |script| >= 5
    requires !PlayRound(packageName, script[0]).fatal && PlayRound(packageName, script[1]).fatal
    ensures var t := MonkeyTrace(packageName, script, 5);
      multiset(t)[AcquireDriver] == 2 && multiset(t)[QuitDriver] == 1 && |t| > 0 && t[|t| - 1] == QuitDriver
  {
    FatalSecondRound(packageName, script, 5);
  }
}
