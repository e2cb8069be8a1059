/** The batch-edit queue: what one request to edit_asset.php does to it, and
    whether repeated requests get through it. */
module EditQueue {
  import opened Wrappers
  import opened LogTable
  import opened Inventory
  import opened Requests
  import LiveAssets

  // ----- one request -----

  datatype UpdateForm = UpdateForm(id: int, post: Fields)

  /** selectedIds is the decoded list when the field was posted (null, here None,
      if it did not decode); update is the submitted edit form. */
  datatype EditRequest = EditRequest(
    selectedIds: Option<Option<seq<int>>>,
    update: Option<UpdateForm>,
    manualId: Option<int>)

  datatype Page = EditForm(id: int, asset: Asset) | NotFound(id: int) | NothingSelected | OnlySuccess

  function QueueAfter(q: Option<seq<int>>, req: EditRequest): Option<seq<int>> {
    Dequeued(if req.selectedIds.Some? then req.selectedIds.value else q,
             if req.update.Some? then Some(req.update.value.id) else None)
  }

  /** The head of a non-empty queue hides a manually entered id. */
  function NextId(q: Option<seq<int>>, req: EditRequest): Option<int> {
    var after := QueueAfter(q, req);
    if after.Some? && after.value != [] then Some(after.value[0]) else req.manualId
  }

  /** An id of 0 counts as no id. */
  function PageFor(assets: map<int, Asset>, next: Option<int>, updated: bool): Page {
    if next.Some? && next.value != 0 then
      if next.value in assets then EditForm(next.value, assets[next.value]) else NotFound(next.value)
    else if updated then OnlySuccess
    else NothingSelected
  }

  /** A plain reload of the page, or its manual-id form. */
  predicate ReloadOrManual(req: EditRequest) {
    req.selectedIds.None? && req.update.None?
  }

  // ----- a queue whose head is gone -----

  /** While the head does not exist, neither a reload nor any manual id changes
      the queue, the chosen id or the page. */
  lemma MissingHeadBlocks(assets: map<int, Asset>, q: seq<int>, req: EditRequest)
    requires q != [] && q[0] !in assets && ReloadOrManual(req)
    ensures QueueAfter(Some(q), req) == Some(q)
    ensures NextId(Some(q), req) == Some(q[0])
    ensures PageFor(assets, NextId(Some(q), req), false) == if q[0] == 0 then NothingSelected else NotFound(q[0])
  {
  }

  /** Session c is not in the middle of an edit of id. */
  predicate NotEditing(client: Client, id: int) {
    client.phase != ToLog(Edited(id)) && client.phase != ToTrim(Some(id))
  }

  predicate HeadIs(client: Client, id: int) {
    client.queue.Some? && client.queue.value != [] && client.queue.value[0] == id
  }

  /** c neither loads a new queue nor submits an edit of id. */
  predicate LeavesAlone(steps: seq<Step>, c: nat, id: int) {
    forall i | 0 <= i < |steps| && !steps[i].Login? && steps[i].c == c ::
      !steps[i].LoadQueue? && (steps[i].Update? ==> steps[i].id != id)
  }

  /** A queue whose head has been deleted is stuck for good: whatever all the
      sessions do, in whatever interleaving, the head stays and stays missing
      until the session itself loads a new queue or submits that id. */
  lemma {:induction false} StuckForGood(s: System, steps: seq<Step>, c: nat, id: int)
    requires LiveAssets.Sane(s) && Runs(s, steps)
    requires c < |s.clients| && HeadIs(s.clients[c], id) && NotEditing(s.clients[c], id)
    requires id !in s.store.assets && id < s.store.nextAsset
    requires LeavesAlone(steps, c, id)
    ensures var s' := Exec(s, steps);
            c < |s'.clients| && HeadIs(s'.clients[c], id) && id !in s'.store.assets
    decreases |steps|
  {
    if steps == [] {
    } else {
      var s1 := Apply(s, steps[0]);
      LiveAssets.StepKeepsSane(s, steps[0]);
      assert HeadIs(s1.clients[c], id) && NotEditing(s1.clients[c], id);
      assert forall i | 0 <= i < |steps[1..]| :: steps[1..][i] == steps[i + 1];
      StuckForGood(s1, steps[1..], c, id);
    }
  }

  // ----- getting through the queue -----

  function EditUnderWay(client: Client): Option<int> {
    match client.phase
    case ToLog(Edited(id)) => Some(id)
    case ToTrim(edited) => edited
    case _ => None
  }

  /** The queue as it will be when the edit under way, if any, is finished. */
  function Remaining(client: Client): Option<seq<int>> {
    Dequeued(client.queue, EditUnderWay(client))
  }

  /** The ids session c submitted edits for, in order. */
  function UpdatesBy(steps: seq<Step>, c: nat): seq<int> {
    if steps == [] then []
    else if steps[0].Update? && steps[0].c == c then [steps[0].id] + UpdatesBy(steps[1..], c)
    else UpdatesBy(steps[1..], c)
  }

  /** The edit form session c sees when it looks at the page for its queue. */
  function Shown(s: System, c: nat): set<int> {
    if c < |s.clients| && s.clients[c].phase.Idle? && s.clients[c].queue.Some? && s.clients[c].queue.value != [] then
      match PageFor(s.store.assets, Some(s.clients[c].queue.value[0]), false)
      case EditForm(id, _) => {id}
      case _ => {}
    else {}
  }

  /** Session c loads no other queue, and submits only the head of its queue and
      only from a form it has seen: in this run, or before it. */
  ghost predicate ByForm(s: System, step: Step, c: nat, seen: set<int>)
    requires Enabled(s, step)
  {
    && (step.LoadQueue? ==> step.c != c)
    && (step.Update? && step.c == c ==> HeadIs(s.clients[c], step.id) && step.id in seen + Shown(s, c))
  }

  /** Session c works through its queue; the other sessions do what they like,
      so that a form may be out of date when it is submitted. */
  ghost predicate FormRuns(s: System, steps: seq<Step>, c: nat, seen: set<int>)
    decreases |steps|
  {
    steps != [] ==>
      && Enabled(s, steps[0])
      && ByForm(s, steps[0], c, seen)
      && FormRuns(Apply(s, steps[0]), steps[1..], c, seen + Shown(s, c))
  }

  lemma FormStep(s: System, step: Step, c: nat, seen: set<int>)
    requires Enabled(s, step) && c < |s.clients| && s.clients[c].queue.Some?
    requires ByForm(s, step, c, seen)
    ensures var s' := Apply(s, step);
            && s'.clients[c].queue.Some?
            && Remaining(s.clients[c]).value
               == (if step.Update? && step.c == c then [step.id] else []) + Remaining(s'.clients[c]).value
  {
  }

  lemma {:induction false} FormRunsAreRuns(s: System, steps: seq<Step>, c: nat, seen: set<int>)
    requires FormRuns(s, steps, c, seen)
    ensures Runs(s, steps)
    decreases |steps|
  {
    if steps == [] {
    } else {
      FormRunsAreRuns(Apply(s, steps[0]), steps[1..], c, seen + Shown(s, c));
    }
  }

  /** Over any interleaving: what c has submitted, followed by what is still
      queued, is the queue it started with. */
  lemma {:induction false} FormRunsConsumeQueue(s: System, steps: seq<Step>, c: nat, seen: set<int>)
    requires FormRuns(s, steps, c, seen) && c < |s.clients| && s.clients[c].queue.Some?
    ensures Runs(s, steps)
    ensures var s' := Exec(s, steps);
            && c < |s'.clients| && s'.clients[c].queue.Some?
            && Remaining(s.clients[c]).value == UpdatesBy(steps, c) + Remaining(s'.clients[c]).value
    decreases |steps|
  {
    FormRunsAreRuns(s, steps, c, seen);
    if steps == [] {
    } else {
      var s1 := Apply(s, steps[0]);
      FormStep(s, steps[0], c, seen);
      FormRunsConsumeQueue(s1, steps[1..], c, seen + Shown(s, c));
      Regroup(if steps[0].Update? && steps[0].c == c then [steps[0].id] else [],
              UpdatesBy(steps[1..], c), Remaining(Exec(s, steps).clients[c]).value);
    }
  }

  lemma Regroup(a: seq<int>, b: seq<int>, c: seq<int>)
    ensures a + (b + c) == a + b + c
  {
  }

  /** Submitting the shown form as often as the queue is long edits exactly the
      queued ids, in order, and empties the queue. */
  lemma AsManySubmissionsAsIds(s: System, steps: seq<Step>, c: nat, seen: set<int>, q: seq<int>)
    requires FormRuns(s, steps, c, seen)
    requires c < |s.clients| && s.clients[c].queue == Some(q) && s.clients[c].phase.Idle?
    requires |UpdatesBy(steps, c)| == |q|
    ensures Runs(s, steps)
    ensures UpdatesBy(steps, c) == q
    ensures var s' := Exec(s, steps);
            c < |s'.clients| && (s'.clients[c].phase.Idle? ==> s'.clients[c].queue == Some([]))
  {
    FormRunsConsumeQueue(s, steps, c, seen);
  }

  // ----- which ids can be submitted -----

  /** The form for id has been seen, or it can be: the asset exists or its id has
      yet to be given out. */
  predicate CanBeShown(st: Store, seen: set<int>, id: int) {
    id in seen || (id != 0 && (id in st.assets || id >= st.nextAsset))
  }

  /** No step makes it possible to show the form for another id. */
  lemma NothingComesBack(s: System, step: Step, c: nat, seen: set<int>, id: int)
    requires LiveAssets.Sane(s) && Enabled(s, step)
    requires CanBeShown(Apply(s, step).store, seen + Shown(s, c), id)
    ensures CanBeShown(s.store, seen, id)
  {
  }

  lemma {:induction false} SubmittedCouldBeShown(s: System, steps: seq<Step>, c: nat, seen: set<int>, id: int)
    requires LiveAssets.Sane(s) && FormRuns(s, steps, c, seen) && id in UpdatesBy(steps, c)
    ensures CanBeShown(s.store, seen, id)
    decreases |steps|
  {
    var step := steps[0];
    if step.Update? && step.c == c && step.id == id {
      assert id in seen + Shown(s, c);
    } else {
      LiveAssets.StepKeepsSane(s, step);
      SubmittedCouldBeShown(Apply(s, step), steps[1..], c, seen + Shown(s, c), id);
      NothingComesBack(s, step, c, seen, id);
    }
  }

  // ----- putting runs together -----

  lemma {:induction false} FormRunsSeenMore(s: System, steps: seq<Step>, c: nat, seen: set<int>, more: set<int>)
    requires FormRuns(s, steps, c, seen) && seen <= more
    ensures FormRuns(s, steps, c, more)
    decreases |steps|
  {
    if steps == [] {
    } else {
      FormRunsSeenMore(Apply(s, steps[0]), steps[1..], c, seen + Shown(s, c), more + Shown(s, c));
    }
  }

  lemma FormRunsCons(s: System, step: Step, rest: seq<Step>, c: nat, seen: set<int>)
    requires Enabled(s, step) && ByForm(s, step, c, seen) && FormRuns(Apply(s, step), rest, c, seen)
    ensures FormRuns(s, [step] + rest, c, seen)
    ensures UpdatesBy([step] + rest, c)
            == (if step.Update? && step.c == c then [step.id] else []) + UpdatesBy(rest, c)
  {
    assert ([step] + rest)[1..] == rest;
    FormRunsSeenMore(Apply(s, step), rest, c, seen, seen + Shown(s, c));
  }

  lemma {:induction false} FormRunsAppend(s: System, first: seq<Step>, second: seq<Step>, c: nat, seen: set<int>)
    requires FormRuns(s, first, c, seen) && Runs(s, first) && FormRuns(Exec(s, first), second, c, seen)
    ensures FormRuns(s, first + second, c, seen)
    decreases |first|
  {
    if first == [] {
      assert first + second == second;
    } else {
      assert (first + second)[1..] == first[1..] + second;
      FormRunsSeenMore(Exec(s, first), second, c, seen, seen + Shown(s, c));
      FormRunsAppend(Apply(s, first[0]), first[1..], second, c, seen + Shown(s, c));
    }
  }

  lemma {:induction false} UpdatesAppend(first: seq<Step>, second: seq<Step>, c: nat)
    ensures UpdatesBy(first + second, c) == UpdatesBy(first, c) + UpdatesBy(second, c)
  {
    if first == [] {
      assert first + second == second;
    } else {
      assert (first + second)[1..] == first[1..] + second;
      UpdatesAppend(first[1..], second, c);
    }
  }

  /** The trim can always run. */
  lemma TrimCanRun(s: System, c: nat) returns (kept: set<Entry>)
    requires Consistent(s.store) && c < |s.clients| && s.clients[c].phase.ToTrim?
    ensures Enabled(s, Trim(c, kept)) && kept <= s.store.log
  {
    var rows := AnswerExists(s.store.log, KEPT_ROWS);
    kept := WithIdsOf(s.store.log, rows);
  }

  /** After its asset statement a request logs and trims, nothing in between. */
  lemma Finish(s: System, change: Step, c: nat, seen: set<int>, now: int) returns (steps: seq<Step>)
    requires Consistent(s.store) && (change.Update? || change.Add?) && change.c == c
    requires Enabled(s, change) && ByForm(s, change, c, seen)
    ensures |steps| == 3 && FormRuns(s, steps, c, seen) && Runs(s, steps)
    ensures UpdatesBy(steps, c) == if change.Update? then [change.id] else []
    ensures var s' := Exec(s, steps); var changed := Apply(s, change).store;
            && Consistent(s'.store)
            && s'.store.assets == changed.assets && s'.store.nextAsset == changed.nextAsset
            && s'.clients == s.clients[c := s.clients[c].(queue := Dequeued(s.clients[c].queue, EditedBy(change)))]
  {
    var s1 := Apply(s, change);
    var s2 := ChangeLogged(s, change, c, now);
    var kept := TrimCanRun(s2, c);
    var trim := Trim(c, kept);
    FormRunsCons(s2, trim, [], c, seen);
    RunCons(s2, trim, []);
    assert [trim] + [] == [trim];
    var ending := Ending(s1, s2, trim, c, seen, now);
    FormRunsCons(s, change, ending, c, seen);
    RunCons(s, change, ending);
    steps := [change] + ending;
  }

  function EditedBy(change: Step): Option<int> {
    if change.Update? then Some(change.id) else None
  }

  lemma Ending(s1: System, s2: System, trim: Step, c: nat, seen: set<int>, now: int) returns (ending: seq<Step>)
    requires Enabled(s1, Log(c, now)) && s2 == Apply(s1, Log(c, now)) && trim.Trim? && Enabled(s2, trim)
    requires FormRuns(s2, [trim], c, seen) && Runs(s2, [trim]) && Exec(s2, [trim]) == Apply(s2, trim)
    ensures |ending| == 2 && FormRuns(s1, ending, c, seen) && UpdatesBy(ending, c) == []
    ensures Runs(s1, ending) && Exec(s1, ending) == Apply(s2, trim)
  {
    ending := [Log(c, now)] + [trim];
    FormRunsCons(s1, Log(c, now), [trim], c, seen);
    RunCons(s1, Log(c, now), [trim]);
    assert UpdatesBy([trim], c) == [];
  }

  /** The first two statements of a request. */
  lemma ChangeLogged(s: System, change: Step, c: nat, now: int) returns (s2: System)
    requires Consistent(s.store) && (change.Update? || change.Add?) && change.c == c && Enabled(s, change)
    ensures Enabled(Apply(s, change), Log(c, now)) && s2 == Apply(Apply(s, change), Log(c, now))
    ensures Consistent(s2.store)
    ensures s2.store.assets == Apply(s, change).store.assets && s2.store.nextAsset == Apply(s, change).store.nextAsset
    ensures s2.clients == s.clients[c := s.clients[c].(phase := ToTrim(EditedBy(change)))]
  {
    s2 := Apply(Apply(s, change), Log(c, now));
  }

  // ----- the queue can be emptied -----

  /** Ids up to n are given out by adding assets. */
  lemma {:induction false} GiveOutIds(s: System, c: nat, seen: set<int>, n: int) returns (steps: seq<Step>)
    requires Consistent(s.store) && c < |s.clients| && s.clients[c].phase.Idle?
    ensures FormRuns(s, steps, c, seen) && Runs(s, steps) && UpdatesBy(steps, c) == []
    ensures var s' := Exec(s, steps);
            && Consistent(s'.store) && s'.clients == s.clients
            && forall id | id in s.store.assets || s.store.nextAsset <= id < n :: id in s'.store.assets
    decreases n - s.store.nextAsset
  {
    if s.store.nextAsset >= n {
      steps := [];
    } else {
      var first := Finish(s, Add(c, map[], 0), c, seen, 0);
      var s1 := Exec(s, first);
      assert s1.clients == s.clients;
      var rest := GiveOutIds(s1, c, seen, n);
      FormRunsAppend(s, first, rest, c, seen);
      UpdatesAppend(first, rest, c);
      RunAppend(s, first, rest);
      steps := first + rest;
    }
  }

  /** The rows after each queued id has been submitted with its own form, those of
      missing assets in vain. */
  function Filled(assets: map<int, Asset>, q: seq<int>, rows: seq<Asset>): map<int, Asset>
    requires |rows| == |q|
  {
    if q == [] then assets
    else Filled(if q[0] in assets then assets[q[0] := rows[0]] else assets, q[1..], rows[1..])
  }

  lemma {:induction false} FilledKeys(assets: map<int, Asset>, q: seq<int>, rows: seq<Asset>)
    requires |rows| == |q|
    ensures Filled(assets, q, rows).Keys == assets.Keys
  {
    if q == [] {
    } else {
      var next := if q[0] in assets then assets[q[0] := rows[0]] else assets;
      FilledKeys(next, q[1..], rows[1..]);
      assert next.Keys == assets.Keys;
    }
  }

  lemma {:induction false} FilledKeeps(assets: map<int, Asset>, q: seq<int>, rows: seq<Asset>, id: int)
    requires |rows| == |q| && id in assets && id !in q
    ensures id in Filled(assets, q, rows) && Filled(assets, q, rows)[id] == assets[id]
  {
    if q == [] {
    } else {
      assert id != q[0];
      FilledKeeps(if q[0] in assets then assets[q[0] := rows[0]] else assets, q[1..], rows[1..], id);
    }
  }

  lemma {:induction false} FilledRow(assets: map<int, Asset>, q: seq<int>, rows: seq<Asset>, i: nat)
    requires |rows| == |q| && i < |q| && q[i] in assets && q[i] !in q[i + 1..]
    ensures q[i] in Filled(assets, q, rows) && Filled(assets, q, rows)[q[i]] == rows[i]
  {
    var next := if q[0] in assets then assets[q[0] := rows[0]] else assets;
    if i == 0 {
      FilledKeeps(next, q[1..], rows[1..], q[0]);
    } else {
      assert q[1..][i..] == q[i + 1..];
      FilledRow(next, q[1..], rows[1..], i - 1);
    }
  }

  /** Every queued asset has the row of its last submission, the others have
      kept theirs. */
  lemma FilledRows(assets: map<int, Asset>, q: seq<int>, rows: seq<Asset>)
    requires |rows| == |q|
    ensures var filled := Filled(assets, q, rows);
            && filled.Keys == assets.Keys
            && (forall id | id in assets && id !in q :: filled[id] == assets[id])
            && forall i | 0 <= i < |q| && q[i] in assets && q[i] !in q[i + 1..] :: filled[q[i]] == rows[i]
  {
    FilledKeys(assets, q, rows);
    forall id | id in assets && id !in q
      ensures Filled(assets, q, rows)[id] == assets[id]
    {
      FilledKeeps(assets, q, rows, id);
    }
    forall i | 0 <= i < |q| && q[i] in assets && q[i] !in q[i + 1..]
      ensures Filled(assets, q, rows)[q[i]] == rows[i]
    {
      FilledRow(assets, q, rows, i);
    }
  }

  /** The page shows the form for id, or has done so. */
  predicate Showable(assets: map<int, Asset>, seen: set<int>, id: int) {
    id in seen || (id != 0 && id in assets)
  }

  /** If every form can be shown the queue can be worked off, three statements
      and one form for each id. */
  lemma {:induction false} QueueCanBeEmptied(s: System, c: nat, seen: set<int>, rows: seq<Asset>) returns (steps: seq<Step>)
    requires Consistent(s.store)
    requires c < |s.clients| && s.clients[c].phase.Idle? && s.clients[c].queue.Some?
    requires |rows| == |s.clients[c].queue.value|
    requires forall i | 0 <= i < |rows| :: Showable(s.store.assets, seen, s.clients[c].queue.value[i])
    ensures |steps| == 3 * |rows| && FormRuns(s, steps, c, seen) && Runs(s, steps)
    ensures UpdatesBy(steps, c) == s.clients[c].queue.value
    ensures var s' := Exec(s, steps);
            && s'.clients == s.clients[c := s.clients[c].(queue := Some([]))]
            && s'.store.assets == Filled(s.store.assets, s.clients[c].queue.value, rows)
    decreases |rows|
  {
    var q := s.clients[c].queue.value;
    if rows == [] {
      steps := [];
      assert s.clients[c := s.clients[c].(queue := Some([]))] == s.clients;
    } else {
      var first := Finish(s, Update(c, q[0], rows[0].fields, rows[0].stamp), c, seen, rows[0].stamp);
      var s1 := Exec(s, first);
      assert s1.clients[c].queue == Some(q[1..]);
      var rest := QueueCanBeEmptied(s1, c, seen, rows[1..]);
      FormRunsAppend(s, first, rest, c, seen);
      UpdatesAppend(first, rest, c);
      RunAppend(s, first, rest);
      steps := first + rest;
      assert [q[0]] + q[1..] == q;
    }
  }

  /** steps empty the queue of session c. */
  ghost predicate Empties(s: System, steps: seq<Step>, c: nat, seen: set<int>) {
    && FormRuns(s, steps, c, seen) && Runs(s, steps)
    && var s' := Exec(s, steps);
       c < |s'.clients| && s'.clients[c].phase.Idle? && s'.clients[c].queue == Some([])
  }

  lemma Largest(q: seq<int>) returns (n: int)
    ensures forall i | 0 <= i < |q| :: q[i] < n
  {
    n := 0;
    if q != [] {
      var m := Largest(q[..|q| - 1]);
      n := if m > q[|q| - 1] then m else q[|q| - 1] + 1;
      assert forall i | 0 <= i < |q| - 1 :: q[i] == q[..|q| - 1][i];
    }
  }

  lemma EmptyingRun(s: System, c: nat, seen: set<int>, q: seq<int>) returns (steps: seq<Step>)
    requires Consistent(s.store)
    requires c < |s.clients| && s.clients[c].phase.Idle? && s.clients[c].queue == Some(q)
    requires forall i | 0 <= i < |q| :: CanBeShown(s.store, seen, q[i])
    ensures Empties(s, steps, c, seen)
  {
    var n := Largest(q);
    var adding := GiveOutIds(s, c, seen, n);
    var s1 := Exec(s, adding);
    var editing := QueueCanBeEmptied(s1, c, seen, seq(|q|, _ => Asset(map[], 0)));
    FormRunsAppend(s, adding, editing, c, seen);
    RunAppend(s, adding, editing);
    steps := adding + editing;
  }

  /** There is a way through the queue exactly when no queued id is 0 or that of
      a deleted asset, apart from ids whose form was seen before.  Whatever other
      sessions do, they can only help by adding assets. */
  lemma QueueCanBeEmptiedIff(s: System, c: nat, seen: set<int>, q: seq<int>)
    requires LiveAssets.Sane(s)
    requires c < |s.clients| && s.clients[c].phase.Idle? && s.clients[c].queue == Some(q)
    ensures (exists steps :: Empties(s, steps, c, seen)) <==> forall i | 0 <= i < |q| :: CanBeShown(s.store, seen, q[i])
  {
    if steps :| Empties(s, steps, c, seen) {
      FormRunsConsumeQueue(s, steps, c, seen);
      assert q == UpdatesBy(steps, c);
      forall i | 0 <= i < |q|
        ensures CanBeShown(s.store, seen, q[i])
      {
        SubmittedCouldBeShown(s, steps, c, seen, q[i]);
      }
    }
    if forall i | 0 <= i < |q| :: CanBeShown(s.store, seen, q[i]) {
      var steps := EmptyingRun(s, c, seen, q);
    }
  }

  // ----- the same form submitted twice -----

  lemma {:induction false} RemoveFirstCounts(q: seq<int>, id: int)
    ensures multiset(RemoveFirst(q, id)) == multiset(q) - multiset{id}
  {
    if q == [] {
    } else {
      assert q == [q[0]] + q[1..];
      if q[0] != id {
        RemoveFirstCounts(q[1..], id);
      }
    }
  }

  /** q' is q without the first id, everything else in its old order. */
  ghost predicate FirstRemoved(q: seq<int>, id: int, q': seq<int>) {
    && (id !in q ==> q' == q)
    && forall k | 0 <= k < |q| && q[k] == id && id !in q[..k] :: q' == q[..k] + q[k + 1..]
  }

  lemma {:induction false} RemoveFirstAt(q: seq<int>, id: int, k: nat)
    requires k < |q| && q[k] == id && id !in q[..k]
    ensures RemoveFirst(q, id) == q[..k] + q[k + 1..]
  {
    if k == 0 {
      assert q[..0] + q[1..] == q[1..];
    } else {
      assert q[..k][0] == q[0];
      assert q[1..][..k - 1] == q[..k][1..];
      RemoveFirstAt(q[1..], id, k - 1);
      assert q[1..][k..] == q[k + 1..];
      assert q[..k] == [q[0]] + q[..k][1..];
    }
  }

  lemma RemoveFirstRemovesFirst(q: seq<int>, id: int)
    ensures FirstRemoved(q, id, RemoveFirst(q, id))
  {
    RemoveAbsent(q, id);
    forall k | 0 <= k < |q| && q[k] == id && id !in q[..k]
      ensures RemoveFirst(q, id) == q[..k] + q[k + 1..]
    {
      RemoveFirstAt(q, id, k);
    }
  }

  lemma {:induction false} RemoveAbsent(q: seq<int>, id: int)
    ensures RemoveFirst(q, id) == q <==> id !in q
  {
    if q == [] {
    } else {
      assert q == [q[0]] + q[1..];
      if q[0] == id {
        assert |RemoveFirst(q, id)| < |q|;
      } else {
        RemoveAbsent(q[1..], id);
      }
    }
  }

  lemma ResubmissionKeepsQueue(q: seq<int>, req: EditRequest)
    requires req.selectedIds.None? && req.update.Some?
    ensures var once := QueueAfter(Some(q), req);
            QueueAfter(once, req) == once <==> multiset(q)[req.update.value.id] <= 1
  {
    var id := req.update.value.id;
    RemoveFirstCounts(q, id);
    RemoveAbsent(RemoveFirst(q, id), id);
    assert id in RemoveFirst(q, id) <==> id in multiset(RemoveFirst(q, id));
  }

  /** Replaying an update POST: the queue, and with it the next page, stays as
      after the first submission exactly when the id was queued at most once.
      The database differs in timestamps only, and by one more history entry. */
  lemma Resubmission(st: Store, st1: Store, st2: Store, user: string, q: seq<int>, req: EditRequest,
                     fields: Fields, t1: int, l1: int, t2: int, l2: int)
    requires req.selectedIds.None? && req.update.Some?
    requires var id := req.update.value.id;
             && Logged(UpdateAsset(st, id, fields, t1), st1, user, Edited(id), l1)
             && Logged(UpdateAsset(st1, id, fields, t2), st2, user, Edited(id), l2)
    ensures var once := QueueAfter(Some(q), req);
            QueueAfter(once, req) == once <==> multiset(q)[req.update.value.id] <= 1
    ensures st2.assets.Keys == st1.assets.Keys == st.assets.Keys && st2.nextAsset == st1.nextAsset
    ensures forall id | id in st1.assets ::
              && st2.assets[id].fields == st1.assets[id].fields
              && (id != req.update.value.id ==> st2.assets[id] == st1.assets[id] == st.assets[id])
    ensures st2.history == st1.history + [Entry(st1.nextLog, l2, user, Edited(req.update.value.id))]
  {
    ResubmissionKeepsQueue(q, req);
  }
}
