/** Whether replaying the full history tells which assets are alive: exactly
    when, and for which runs. */
module HistoryReplay {
  import opened Wrappers
  import opened LogTable
  import opened Inventory
  import opened Requests
  import opened LiveAssets

  // ----- what a list of actions says about one id -----

  ghost predicate Deletes(xs: seq<Action>, id: int) {
    exists i :: 0 <= i < |xs| && xs[i].Deleted? && id in xs[i].ids
  }

  ghost predicate DeletedAfterAdded(xs: seq<Action>, id: int) {
    exists i, j :: 0 <= i < j < |xs| && xs[i] == Added(id) && xs[j].Deleted? && id in xs[j].ids
  }

  lemma DeletesSnoc(xs: seq<Action>, a: Action, id: int)
    ensures Deletes(xs + [a], id) <==> Deletes(xs, id) || (a.Deleted? && id in a.ids)
  {
    var all := xs + [a];
    assert all[|xs|] == a && forall i | 0 <= i < |xs| :: all[i] == xs[i];
  }

  lemma DeletedAfterAddedSnoc(xs: seq<Action>, a: Action, id: int)
    ensures DeletedAfterAdded(xs + [a], id)
            <==> DeletedAfterAdded(xs, id) || (Added(id) in xs && a.Deleted? && id in a.ids)
  {
    var all := xs + [a];
    assert all[|xs|] == a && forall i | 0 <= i < |xs| :: all[i] == xs[i];
    if Added(id) in xs && a.Deleted? && id in a.ids {
      var i :| 0 <= i < |xs| && xs[i] == Added(id);
      assert all[i] == Added(id);
    }
  }

  /** Where an id is added at most once, and never if it is there initially,
      replaying the list keeps it just when no deletion follows. */
  lemma {:induction false} ReplayMember(ids: set<int>, xs: seq<Action>, id: int)
    requires Count(xs, Added(id)) <= 1
    requires id in ids ==> Added(id) !in xs
    ensures id in Replay(ids, xs)
            <==> if id in ids then !Deletes(xs, id) else Added(id) in xs && !DeletedAfterAdded(xs, id)
  {
    if xs == [] {
    } else {
      var front, a := xs[..|xs| - 1], xs[|xs| - 1];
      assert xs == front + [a];
      ReplayMember(ids, front, id);
      ReplaySnoc(ids, front, a);
      DeletesSnoc(front, a, id);
      DeletedAfterAddedSnoc(front, a, id);
    }
  }

  // ----- exactly when the history tells -----

  ghost predicate AboutToLog(s: System, c: nat, action: Action) {
    c < |s.clients| && s.clients[c].phase == ToLog(action)
  }

  /** Nothing is waiting to be logged. */
  ghost predicate Quiet(s: System) {
    forall c: nat, a :: !AboutToLog(s, c, a)
  }

  ghost predicate AddPending(s: System, id: int) {
    exists c: nat :: AboutToLog(s, c, Added(id))
  }

  ghost predicate DeletePending(s: System, id: int) {
    exists c: nat, ids: seq<int> :: AboutToLog(s, c, Deleted(ids)) && id in ids
  }

  /** A statement that deletes, or creates, an asset whose creation, or deletion,
      another request has made and not yet logged. */
  ghost predicate Conflicts(s: System, step: Step) {
    || (step.Delete? && exists id :: id in step.ids && AddPending(s, id))
    || (step.Add? && DeletePending(s, s.store.nextAsset))
  }

  ghost predicate CalmRuns(s: System, steps: seq<Step>)
    decreases |steps|
  {
    steps != [] ==>
      && Enabled(s, steps[0])
      && !Conflicts(s, steps[0])
      && CalmRuns(Apply(s, steps[0]), steps[1..])
  }

  /** One request after another: nobody moves while another is under way. */
  ghost predicate SerialRuns(s: System, steps: seq<Step>)
    decreases |steps|
  {
    steps != [] ==>
      && Enabled(s, steps[0])
      && (forall d | 0 <= d < |s.clients| && !s.clients[d].phase.Idle? :: !steps[0].Login? && steps[0].c == d)
      && SerialRuns(Apply(s, steps[0]), steps[1..])
  }

  /** Ids are given out once, and after the initial ones. */
  ghost predicate AddsFresh(s0: System, s: System) {
    && Sane(s)
    && s0.store.nextAsset <= s.store.nextAsset
    && (forall id | Added(id) in s.journal :: s0.store.nextAsset <= id < s.store.nextAsset)
    && (forall id :: Count(s.journal, Added(id)) <= 1)
  }

  lemma StepKeepsAddsFresh(s0: System, s: System, step: Step)
    requires AddsFresh(s0, s) && Enabled(s, step)
    ensures AddsFresh(s0, Apply(s, step))
  {
    var s' := Apply(s, step);
    StepKeepsSane(s, step);
    if s'.journal != s.journal {
      var a := s'.journal[|s.journal|];
      assert s'.journal == s.journal + [a];
      forall id
        ensures Count(s'.journal, Added(id)) <= 1
      {
        if a == Added(id) {
          assert Added(id) !in s.journal;
        }
      }
    }
  }

  lemma {:induction false} RunKeepsAddsFresh(s0: System, s: System, steps: seq<Step>)
    requires AddsFresh(s0, s) && Runs(s, steps)
    ensures AddsFresh(s0, Exec(s, steps))
    decreases |steps|
  {
    if steps == [] {
    } else {
      StepKeepsAddsFresh(s0, s, steps[0]);
      RunKeepsAddsFresh(s0, Apply(s, steps[0]), steps[1..]);
    }
  }

  lemma {:induction false} NothingPending(clients: seq<Client>, a: Action)
    requires forall c | 0 <= c < |clients| :: clients[c].phase != ToLog(a)
    ensures Pending(clients, a) == 0
  {
    if clients == [] {
    } else {
      NothingPending(clients[..|clients| - 1], a);
    }
  }

  /** When nothing waits to be logged, the history lists the same changes as the
      journal, in whatever order. */
  lemma QuietHistoryIsPermuted(s0: System, steps: seq<Step>)
    requires Init(s0) && Runs(s0, steps) && Quiet(Exec(s0, steps))
    ensures multiset(Exec(s0, steps).journal) == multiset(Actions(Exec(s0, steps).store.history))
  {
    var s := Exec(s0, steps);
    forall a
      ensures Count(s.journal, a) == Count(Actions(s.store.history), a)
    {
      EveryChangeIsLoggedOnce(s0, steps, a);
      forall c | 0 <= c < |s.clients|
        ensures s.clients[c].phase != ToLog(a)
      {
        assert !AboutToLog(s, c, a);
      }
      NothingPending(s.clients, a);
    }
    var j, h := multiset(s.journal), multiset(Actions(s.store.history));
    assert forall a :: j[a] == h[a] by {
      assert forall a :: j[a] == Count(s.journal, a) && h[a] == Count(Actions(s.store.history), a);
    }
    assert j == h;
  }

  lemma {:induction false} SameDeletes(xs: seq<Action>, ys: seq<Action>, id: int)
    requires multiset(xs) == multiset(ys)
    ensures Deletes(xs, id) ==> Deletes(ys, id)
  {
    if i :| 0 <= i < |xs| && xs[i].Deleted? && id in xs[i].ids {
      assert xs[i] in multiset(xs);
      assert xs[i] in ys;
    }
  }

  /** The history and the journal agree on an id unless it was added in the run
      and they disagree on whether a deletion came after that. */
  lemma ReplaysAgreeOn(ids: set<int>, journal: seq<Action>, h: seq<Action>, id: int)
    requires multiset(journal) == multiset(h)
    requires Count(journal, Added(id)) <= 1
    requires id in ids ==> Added(id) !in journal
    ensures (id in Replay(ids, journal) <==> id in Replay(ids, h))
            <==> (Added(id) in journal ==> (DeletedAfterAdded(journal, id) <==> DeletedAfterAdded(h, id)))
  {
    assert Added(id) in journal <==> Added(id) in multiset(journal);
    assert Added(id) in h <==> Added(id) in multiset(h);
    SameDeletes(journal, h, id);
    SameDeletes(h, journal, id);
    ReplayMember(ids, journal, id);
    ReplayMember(ids, h, id);
  }

  /** The log entries stand in the order of the statements as far as it matters. */
  ghost predicate OrderKept(s: System) {
    forall id | Added(id) in s.journal ::
      DeletedAfterAdded(s.journal, id) <==> DeletedAfterAdded(Actions(s.store.history), id)
  }

  /** For every run, whatever the interleaving: when nothing waits to be logged,
      replaying the history gives the live ids exactly when, for each asset added
      in the run, the history has a deletion of it after its addition just when
      one was executed after it. */
  lemma HistoryTellsLiveAssetsIff(s0: System, steps: seq<Step>)
    requires Init(s0) && Runs(s0, steps) && Quiet(Exec(s0, steps))
    ensures var s := Exec(s0, steps);
            s.store.assets.Keys == Replay(s0.store.assets.Keys, Actions(s.store.history)) <==> OrderKept(s)
  {
    var s := Exec(s0, steps);
    var ids, h := s0.store.assets.Keys, Actions(s.store.history);
    RunKeepsAddsFresh(s0, s0, steps);
    QuietHistoryIsPermuted(s0, steps);
    EveryChangeIsLoggedOnce(s0, steps, Edited(0));
    forall id
      ensures (id in s.store.assets.Keys <==> id in Replay(ids, h))
              <==> (Added(id) in s.journal ==> (DeletedAfterAdded(s.journal, id) <==> DeletedAfterAdded(h, id)))
    {
      ReplaysAgreeOn(ids, s.journal, h, id);
    }
    SetsAgree(s.store.assets.Keys, Replay(ids, h));
  }

  lemma SetsAgree(a: set<int>, b: set<int>)
    ensures a == b <==> forall id :: id in a <==> id in b
  {
    if forall id :: id in a <==> id in b {
      assert a == b;
    }
  }

  // ----- runs that keep the order -----

  /** About one id: a pending addition has not been followed by a deletion; a
      pending deletion of an added asset came after its addition, which is logged;
      and the rest of the order is already in the history. */
  ghost predicate OrderedOn(s: System, id: int) {
    var j, h := s.journal, Actions(s.store.history);
    && (Added(id) in j ==> id < s.store.nextAsset)
    && (Added(id) in j <==> Added(id) in h || AddPending(s, id))
    && (AddPending(s, id) ==> Added(id) !in h && !DeletedAfterAdded(j, id))
    && (DeletePending(s, id) && Added(id) in j ==> Added(id) in h && DeletedAfterAdded(j, id))
    && (DeletedAfterAdded(h, id) ==> DeletedAfterAdded(j, id))
    && (DeletedAfterAdded(j, id) ==> DeletedAfterAdded(h, id) || DeletePending(s, id))
    && (forall c: nat, d: nat | AboutToLog(s, c, Added(id)) && AboutToLog(s, d, Added(id)) :: c == d)
  }

  /** Only the phase of session c differs, or a session was added. */
  lemma SameWarnings(s: System, s': System, c: nat)
    requires c <= |s.clients| && c < |s'.clients|
    requires |s.clients| <= |s'.clients| <= |s.clients| + 1
    requires forall d | 0 <= d < |s'.clients| && d != c :: d < |s.clients| && s'.clients[d].phase == s.clients[d].phase
    ensures forall d: nat, a | d != c :: AboutToLog(s', d, a) <==> AboutToLog(s, d, a)
  {
  }

  lemma AddPendingAfter(s: System, step: Step, id: int)
    requires Enabled(s, step)
    requires forall c: nat, d: nat | AboutToLog(s, c, Added(id)) && AboutToLog(s, d, Added(id)) :: c == d
    requires step.Add? && id == s.store.nextAsset ==> !AddPending(s, id)
    ensures var s' := Apply(s, step);
            && (AddPending(s', id) <==>
                  (step.Add? && id == s.store.nextAsset)
                  || (AddPending(s, id) && !(step.Log? && s.clients[step.c].phase == ToLog(Added(id)))))
            && forall c: nat, d: nat | AboutToLog(s', c, Added(id)) && AboutToLog(s', d, Added(id)) :: c == d
  {
    var s' := Apply(s, step);
    SameWarnings(s, s', if step.Login? then |s.clients| else step.c);
    if step.Add? {
      assert AboutToLog(s', step.c, Added(s.store.nextAsset));
    }
    if c: nat :| AboutToLog(s, c, Added(id)) {
      assert step.Login? || c != step.c ==> AboutToLog(s', c, Added(id));
    }
    if step.Log? && s.clients[step.c].phase == ToLog(Added(id)) {
      assert AboutToLog(s, step.c, Added(id));
    }
  }

  lemma DeletePendingAfter(s: System, step: Step, id: int)
    requires Enabled(s, step)
    ensures var s' := Apply(s, step);
            && (DeletePending(s', id) ==> DeletePending(s, id) || (step.Delete? && id in step.ids))
            && (DeletePending(s, id) ==>
                  DeletePending(s', id)
                  || (step.Log? && s.clients[step.c].phase.action.Deleted? && id in s.clients[step.c].phase.action.ids))
            && (step.Delete? && id in step.ids ==> DeletePending(s', id))
  {
    var s' := Apply(s, step);
    SameWarnings(s, s', if step.Login? then |s.clients| else step.c);
    if step.Delete? {
      assert AboutToLog(s', step.c, Deleted(step.ids));
    }
    if DeletePending(s, id) {
      var c: nat, ids :| AboutToLog(s, c, Deleted(ids)) && id in ids;
      assert step.Login? || c != step.c ==> AboutToLog(s', c, Deleted(ids));
    }
    if DeletePending(s', id) {
      var c: nat, ids :| AboutToLog(s', c, Deleted(ids)) && id in ids;
      assert step.Login? || c != step.c ==> AboutToLog(s, c, Deleted(ids));
    }
  }

  lemma ChangeKeepsOrder(s: System, step: Step, id: int)
    requires OrderedOn(s, id) && Enabled(s, step) && !Conflicts(s, step)
    requires step.Update? || step.Delete? || step.Add?
    ensures OrderedOn(Apply(s, step), id)
  {
    AddPendingAfter(s, step, id);
    DeletePendingAfter(s, step, id);
    DeletedAfterAddedSnoc(s.journal, Apply(s, step).clients[step.c].phase.action, id);
    if step.Add? && id == s.store.nextAsset {
      NotAddedNotDeleted(s.journal, id);
    }
  }

  lemma NotAddedNotDeleted(xs: seq<Action>, id: int)
    requires Added(id) !in xs
    ensures !DeletedAfterAdded(xs, id)
  {
  }

  lemma LogKeepsOrder(s: System, step: Step, id: int)
    requires OrderedOn(s, id) && Enabled(s, step) && step.Log?
    ensures OrderedOn(Apply(s, step), id)
  {
    var action := s.clients[step.c].phase.action;
    var s' := Apply(s, step);
    AddPendingAfter(s, step, id);
    DeletePendingAfter(s, step, id);
    ActionsSnoc(s.store.history, s'.store.history[|s.store.history|]);
    DeletedAfterAddedSnoc(Actions(s.store.history), action, id);
    assert AboutToLog(s, step.c, action);
    assert action == Added(id) ==> AddPending(s, id);
    assert action.Deleted? && id in action.ids ==> DeletePending(s, id);
    if Added(id) !in s.journal {
      NotAddedNotDeleted(s.journal, id);
    }
  }

  lemma OtherStepKeepsOrder(s: System, step: Step, id: int)
    requires OrderedOn(s, id) && Enabled(s, step) && NoUndo(s)
    requires step.Login? || step.LoadQueue? || step.Trim? || step.BeginUndo? || step.UndoRow?
    ensures OrderedOn(Apply(s, step), id)
  {
    AddPendingAfter(s, step, id);
    DeletePendingAfter(s, step, id);
  }

  lemma {:induction false} CalmRunKeepsOrder(s: System, steps: seq<Step>, id: int)
    requires Sane(s) && OrderedOn(s, id) && CalmRuns(s, steps)
    ensures Runs(s, steps) && OrderedOn(Exec(s, steps), id)
    decreases |steps|
  {
    if steps == [] {
    } else {
      StepKeepsSane(s, steps[0]);
      if steps[0].Update? || steps[0].Delete? || steps[0].Add? {
        ChangeKeepsOrder(s, steps[0], id);
      } else if steps[0].Log? {
        LogKeepsOrder(s, steps[0], id);
      } else {
        OtherStepKeepsOrder(s, steps[0], id);
      }
      CalmRunKeepsOrder(Apply(s, steps[0]), steps[1..], id);
    }
  }

  /** A run without conflicts with pending changes keeps the order, so its history
      tells the live assets whenever nothing waits to be logged. */
  lemma CalmHistoryTellsLiveAssets(s0: System, steps: seq<Step>)
    requires Init(s0) && CalmRuns(s0, steps)
    ensures Runs(s0, steps)
    ensures var s := Exec(s0, steps);
            Quiet(s) ==> OrderKept(s) && s.store.assets.Keys == Replay(s0.store.assets.Keys, Actions(s.store.history))
  {
    CalmRunKeepsOrder(s0, steps, 0);
    var s := Exec(s0, steps);
    if Quiet(s) {
      forall id
        ensures DeletedAfterAdded(s.journal, id) <==> DeletedAfterAdded(Actions(s.store.history), id)
      {
        CalmRunKeepsOrder(s0, steps, id);
      }
      HistoryTellsLiveAssetsIff(s0, steps);
    }
  }

  lemma {:induction false} SerialIsCalm(s: System, steps: seq<Step>)
    requires SerialRuns(s, steps)
    ensures CalmRuns(s, steps)
    decreases |steps|
  {
    if steps == [] {
    } else {
      SerialIsCalm(Apply(s, steps[0]), steps[1..]);
    }
  }

  /** In particular when requests execute one after another. */
  lemma SerialHistoryTellsLiveAssets(s0: System, steps: seq<Step>)
    requires Init(s0) && SerialRuns(s0, steps)
    ensures Runs(s0, steps)
    ensures var s := Exec(s0, steps);
            Quiet(s) ==> s.store.assets.Keys == Replay(s0.store.assets.Keys, Actions(s.store.history))
  {
    SerialIsCalm(s0, steps);
    CalmHistoryTellsLiveAssets(s0, steps);
  }

  // ----- a run that does not -----

  function Two(user: string, first: Phase, second: Phase): seq<Client> {
    [Client(user, None, None, first), Client(user, None, None, second)]
  }

  /** Two idle sessions; the first adds asset 1 and the second deletes it. */
  lemma AddThenDelete(user: string, fields: Fields, s: System)
    requires s == System(Store(map[], 1, {}, 1, []), [], Two(user, Idle, Idle))
    ensures Runs(s, [Add(0, fields, 0), Delete(1, [1])])
    ensures Exec(s, [Add(0, fields, 0), Delete(1, [1])]) ==
            System(Store(map[], 2, {}, 1, []), [Added(1), Deleted([1])],
                   Two(user, ToLog(Added(1)), ToLog(Deleted([1]))))
  {
    var s1 := Apply(s, Add(0, fields, 0));
    assert s1.clients == Two(user, ToLog(Added(1)), Idle);
    var s2 := Apply(s1, Delete(1, [1]));
    assert s2.clients == Two(user, ToLog(Added(1)), ToLog(Deleted([1])));
    assert s2.store.assets == map[];
    RunCons(s1, Delete(1, [1]), []);
    RunCons(s, Add(0, fields, 0), [Delete(1, [1])]);
    assert [Add(0, fields, 0)] + [Delete(1, [1])] == [Add(0, fields, 0), Delete(1, [1])];
  }

  /** The second session is the first to log. */
  lemma LogInReverse(user: string, s: System)
    requires s == System(Store(map[], 2, {}, 1, []), [Added(1), Deleted([1])],
                         Two(user, ToLog(Added(1)), ToLog(Deleted([1]))))
    ensures Runs(s, [Log(1, 0), Log(0, 0)])
    ensures var s' := Exec(s, [Log(1, 0), Log(0, 0)]);
            && s'.clients == Two(user, ToTrim(None), ToTrim(None))
            && s'.store.assets == map[]
            && Actions(s'.store.history) == [Deleted([1]), Added(1)]
  {
    var s1 := Apply(s, Log(1, 0));
    assert s1.clients == Two(user, ToLog(Added(1)), ToTrim(None));
    var s2 := Apply(s1, Log(0, 0));
    assert s2.clients == Two(user, ToTrim(None), ToTrim(None));
    RunCons(s1, Log(0, 0), []);
    RunCons(s, Log(1, 0), [Log(0, 0)]);
    assert [Log(1, 0)] + [Log(0, 0)] == [Log(1, 0), Log(0, 0)];
  }

  /** Without that the history can mislead: one session adds asset 1, another
      deletes it and logs first.  The asset is gone, and the log says that it was
      deleted and then added. */
  lemma HistoryCanMislead(user: string, fields: Fields) returns (s0: System, steps: seq<Step>)
    ensures Init(s0) && Runs(s0, steps)
    ensures var s := Exec(s0, steps);
            && Quiet(s)
            && s.store.assets.Keys == {}
            && Replay(s0.store.assets.Keys, Actions(s.store.history)) == {1}
  {
    s0 := System(Store(map[], 1, {}, 1, []), [], []);
    var s1 := Apply(s0, Login(user));
    var s2 := Apply(s1, Login(user));
    assert s2.clients == Two(user, Idle, Idle);
    AddThenDelete(user, fields, s2);
    var changes := [Add(0, fields, 0), Delete(1, [1])];
    LogInReverse(user, Exec(s2, changes));
    RunAppend(s2, changes, [Log(1, 0), Log(0, 0)]);
    RunCons(s1, Login(user), changes + [Log(1, 0), Log(0, 0)]);
    steps := [Login(user)] + (changes + [Log(1, 0), Log(0, 0)]);
    RunCons(s0, Login(user), steps);
    steps := [Login(user)] + steps;
    assert [Deleted([1]), Added(1)] == ([] + [Deleted([1])]) + [Added(1)];
    ReplaySnoc({}, [] + [Deleted([1])], Added(1));
    ReplaySnoc({}, [], Deleted([1]));
  }
}
