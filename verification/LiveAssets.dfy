/** Which assets are alive, and whether the history tells. */
module LiveAssets {
  import opened Wrappers
  import opened LogTable
  import opened Inventory
  import opened Requests

  // ----- undo never has anything to undo -----

  /** No handler ever sets deleted_records, so no session can reinsert rows. */
  ghost predicate NoUndo(s: System) {
    forall c | 0 <= c < |s.clients| :: s.clients[c].deleted.None? && !s.clients[c].phase.Undoing?
  }

  ghost predicate Sane(s: System) {
    NoUndo(s) && Consistent(s.store)
  }

  lemma StepKeepsSane(s: System, step: Step)
    requires Sane(s) && Enabled(s, step)
    ensures Sane(Apply(s, step))
  {
    if step.Trim? {
      TrimKeepsNewest(step.kept, s.store.log, KEPT_ROWS);
    }
  }

  lemma {:induction false} RunKeepsSane(s: System, steps: seq<Step>)
    requires Sane(s) && Runs(s, steps)
    ensures Sane(Exec(s, steps))
    decreases |steps|
  {
    if steps == [] {
    } else {
      StepKeepsSane(s, steps[0]);
      RunKeepsSane(Apply(s, steps[0]), steps[1..]);
    }
  }

  /** Undo only ever reports that there is nothing to undo. */
  lemma NothingToUndo(s0: System, steps: seq<Step>, c: nat)
    requires Init(s0) && Runs(s0, steps)
    ensures !Enabled(Exec(s0, steps), BeginUndo(c)) && !Enabled(Exec(s0, steps), UndoRow(c))
  {
    RunKeepsSane(s0, steps);
  }

  /** An id that has been given out and deleted never comes back. */
  lemma {:induction false} DeletedForGood(s: System, steps: seq<Step>, id: int)
    requires Sane(s) && Runs(s, steps)
    requires id < s.store.nextAsset && id !in s.store.assets
    ensures id !in Exec(s, steps).store.assets && id < Exec(s, steps).store.nextAsset
    decreases |steps|
  {
    if steps == [] {
    } else {
      StepKeepsSane(s, steps[0]);
      DeletedForGood(Apply(s, steps[0]), steps[1..], id);
    }
  }

  // ----- the live ids and the log entries, over every interleaving -----

  function PendingOf(client: Client, a: Action): nat {
    if client.phase == ToLog(a) then 1 else 0
  }

  /** How many changes of kind a have been made and not yet logged. */
  function Pending(clients: seq<Client>, a: Action): nat {
    if clients == [] then 0
    else Pending(clients[..|clients| - 1], a) + PendingOf(clients[|clients| - 1], a)
  }

  lemma {:induction false} PendingAfter(clients: seq<Client>, c: nat, client: Client, a: Action)
    requires c < |clients|
    ensures Pending(clients[c := client], a) == Pending(clients, a) - PendingOf(clients[c], a) + PendingOf(client, a)
  {
    var n := |clients| - 1;
    if c < n {
      assert clients[c := client][..n] == clients[..n][c := client];
      PendingAfter(clients[..n], c, client, a);
    } else {
      assert clients[c := client][..n] == clients[..n];
    }
  }

  function Count(actions: seq<Action>, a: Action): nat {
    multiset(actions)[a]
  }

  ghost predicate Accounted(s0: System, s: System, a: Action) {
    && Sane(s)
    && s.store.assets.Keys == Replay(s0.store.assets.Keys, s.journal)
    && Count(s.journal, a) == Count(Actions(s.store.history), a) + Pending(s.clients, a)
  }

  lemma ActionsSnoc(entries: seq<Entry>, e: Entry)
    ensures Actions(entries + [e]) == Actions(entries) + [e.action]
  {
  }

  lemma ReplaySnoc(ids: set<int>, actions: seq<Action>, a: Action)
    ensures Replay(ids, actions + [a]) == Effect(Replay(ids, actions), a)
  {
    assert (actions + [a])[..|actions|] == actions;
  }

  /** An asset statement changes the live ids as its action says. */
  lemma ChangeHasItsEffect(s: System, step: Step)
    requires Enabled(s, step) && (step.Update? || step.Delete? || step.Add?)
    ensures var s' := Apply(s, step);
            s'.store.assets.Keys == Effect(s.store.assets.Keys, s'.clients[step.c].phase.action)
  {
  }

  lemma ChangeKeepsAccounted(s0: System, s: System, step: Step, a: Action)
    requires Accounted(s0, s, a) && Enabled(s, step)
    requires step.Update? || step.Delete? || step.Add?
    ensures Accounted(s0, Apply(s, step), a)
  {
    var s' := Apply(s, step);
    var action := s'.clients[step.c].phase.action;
    StepKeepsSane(s, step);
    PendingAfter(s.clients, step.c, s'.clients[step.c], a);
    ReplaySnoc(s0.store.assets.Keys, s.journal, action);
    ChangeHasItsEffect(s, step);
  }

  lemma LogKeepsAccounted(s0: System, s: System, step: Step, a: Action)
    requires Accounted(s0, s, a) && Enabled(s, step) && step.Log?
    ensures Accounted(s0, Apply(s, step), a)
  {
    var s' := Apply(s, step);
    StepKeepsSane(s, step);
    PendingAfter(s.clients, step.c, s'.clients[step.c], a);
    ActionsSnoc(s.store.history, s'.store.history[|s.store.history|]);
  }

  lemma OtherStepKeepsAccounted(s0: System, s: System, step: Step, a: Action)
    requires Accounted(s0, s, a) && Enabled(s, step)
    requires step.Login? || step.LoadQueue? || step.Trim? || step.BeginUndo? || step.UndoRow?
    ensures Accounted(s0, Apply(s, step), a)
  {
    var s' := Apply(s, step);
    StepKeepsSane(s, step);
    if step.Login? {
      assert s'.clients[..|s.clients|] == s.clients;
    } else {
      PendingAfter(s.clients, step.c, s'.clients[step.c], a);
    }
  }

  lemma {:induction false} RunKeepsAccounted(s0: System, s: System, steps: seq<Step>, a: Action)
    requires Accounted(s0, s, a) && Runs(s, steps)
    ensures Accounted(s0, Exec(s, steps), a)
    decreases |steps|
  {
    if steps == [] {
    } else {
      if steps[0].Update? || steps[0].Delete? || steps[0].Add? {
        ChangeKeepsAccounted(s0, s, steps[0], a);
      } else if steps[0].Log? {
        LogKeepsAccounted(s0, s, steps[0], a);
      } else {
        OtherStepKeepsAccounted(s0, s, steps[0], a);
      }
      RunKeepsAccounted(s0, Apply(s, steps[0]), steps[1..], a);
    }
  }

  /** Over any interleaving the live ids are what the asset statements, replayed
      in the order they ran, make of the initial ids; and every one of those
      statements, of whatever kind a, has been logged exactly once or belongs to
      a request that is about to log it. */
  lemma EveryChangeIsLoggedOnce(s0: System, steps: seq<Step>, a: Action)
    requires Init(s0) && Runs(s0, steps)
    ensures var s := Exec(s0, steps);
            && s.store.assets.Keys == Replay(s0.store.assets.Keys, s.journal)
            && Count(s.journal, a) == Count(Actions(s.store.history), a) + Pending(s.clients, a)
  {
    RunKeepsAccounted(s0, s0, steps, a);
  }
  // ----- entries about assets that are not there -----

  /** An edit is always logged, but it writes the posted row exactly when the id
      exists, and changes the table exactly when that row is a different one. */
  lemma EditWritesIff(st: Store, st': Store, user: string, id: int, fields: Fields, now: int, l: int)
    requires Logged(UpdateAsset(st, id, fields, now), st', user, Edited(id), l)
    ensures st'.history == st.history + [Entry(st.nextLog, l, user, Edited(id))]
    ensures id in st'.assets && st'.assets[id] == Asset(fields, now) <==> id in st.assets
    ensures st'.assets.Keys == st.assets.Keys
    ensures forall other | other in st.assets && other != id :: st'.assets[other] == st.assets[other]
    ensures st'.assets != st.assets <==> id in st.assets && st.assets[id] != Asset(fields, now)
  {
  }

  /** A deletion is always logged.  It removes the listed ids and no others, leaves
      every other row as it was, and so changes the table exactly when one of the
      ids exists. */
  lemma DeletionDeletesIff(st: Store, st': Store, user: string, ids: seq<int>, l: int)
    requires Logged(DeleteAssets(st, ids), st', user, Deleted(ids), l)
    ensures st'.history == st.history + [Entry(st.nextLog, l, user, Deleted(ids))]
    ensures forall id :: id in st'.assets <==> id in st.assets && id !in ids
    ensures forall id | id in st.assets && id !in ids :: st'.assets[id] == st.assets[id]
    ensures st'.assets != st.assets <==> exists i :: 0 <= i < |ids| && ids[i] in st.assets
  {
    if i :| 0 <= i < |ids| && ids[i] in st.assets {
      assert ids[i] !in st'.assets;
    } else {
      assert st'.assets == st.assets;
    }
  }

  /** In a database without assets, an edit and a deletion of asset 7 both leave
      an entry in the log and nothing else. */
  lemma LoggedThoughAbsent() returns (edited: Store, deleted: Store)
    ensures var st := Store(map[], 8, {}, 0, []);
            && Consistent(st)
            && Logged(UpdateAsset(st, 7, map[], 1), edited, "user", Edited(7), 1)
            && edited == Store(map[], 8, {Entry(0, 1, "user", Edited(7))}, 1, [Entry(0, 1, "user", Edited(7))])
            && Logged(DeleteAssets(st, [7]), deleted, "user", Deleted([7]), 1)
            && deleted == Store(map[], 8, {Entry(0, 1, "user", Deleted([7]))}, 1, [Entry(0, 1, "user", Deleted([7]))])
  {
    var st := Store(map[], 8, {}, 0, []);
    edited := FirstEntry(st, Edited(7));
    assert DeleteAssets(st, [7]) == st;
    deleted := FirstEntry(st, Deleted([7]));
  }

  lemma FirstEntry(st: Store, action: Action) returns (st': Store)
    requires st.log == {} && st.history == []
    ensures var e := Entry(st.nextLog, 1, "user", action);
            && Logged(st, st', "user", action, 1)
            && st' == Store(st.assets, st.nextAsset, {e}, st.nextLog + 1, [e])
  {
    var e := Entry(st.nextLog, 1, "user", action);
    st' := Store(st.assets, st.nextAsset, {e}, st.nextLog + 1, [e]);
    OneRowStays(e);
    assert {} + {e} == {e};
  }

  lemma OneRowStays(e: Entry)
    ensures IsTrim({e}, {e}, KEPT_ROWS)
  {
    assert IsAnswer([e], {e}, KEPT_ROWS);
    assert WithIdsOf({e}, [e]) == {e} by {
      assert [e][0].id == e.id;
    }
  }
}
