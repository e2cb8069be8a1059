/** Requests of any number of sessions as a state machine.  A request is a
    sequence of SQL statements, and other sessions' statements may fall between
    any two of them.  PHP holds the session file's lock for a whole request, so
    one session has at most one request under way, and code that only touches
    the session is part of the statement before it. */
module Requests {
  import opened Wrappers
  import opened LogTable
  import opened Inventory

  /** Where a session's request stands. */
  datatype Phase =
    | Idle
    | ToLog(action: Action)            // the asset statement is done, the log insert comes next
    | ToTrim(edited: Option<int>)      // the log row is in, the trim comes next
    | Undoing(rest: seq<Record>)       // inside the reinsertion loop

  /** A session with its request.  queue is None when edit_queue is unset or null. */
  datatype Client = Client(
    user: string,
    queue: Option<seq<int>>,
    deleted: Option<seq<Record>>,
    phase: Phase)

  /** journal lists the logged kinds of asset statements in the order they ran. */
  datatype System = System(store: Store, journal: seq<Action>, clients: seq<Client>)

  datatype Step =
    | Login(user: string)
    | LoadQueue(c: nat, queue: Option<seq<int>>)
    | Update(c: nat, id: int, fields: Fields, now: int)
    | Delete(c: nat, ids: seq<int>)
    | Add(c: nat, fields: Fields, now: int)
    | Log(c: nat, now: int)
    | Trim(c: nat, kept: set<Entry>)
    | BeginUndo(c: nat)
    | UndoRow(c: nat)

  /** array_search, unset, array_values: the first occurrence goes. */
  function RemoveFirst(q: seq<int>, id: int): seq<int> {
    if q == [] then []
    else if q[0] == id then q[1..]
    else [q[0]] + RemoveFirst(q[1..], id)
  }

  function Dequeued(q: Option<seq<int>>, edited: Option<int>): Option<seq<int>> {
    if q.Some? && edited.Some? then Some(RemoveFirst(q.value, edited.value)) else q
  }

  ghost predicate Enabled(s: System, step: Step) {
    if step.Login? then true
    else
      && step.c < |s.clients|
      && var client := s.clients[step.c];
         match step
         case Login(_) => true
         case LoadQueue(_, _) => client.phase.Idle?
         case Update(_, _, _, _) => client.phase.Idle?
         case Delete(_, ids) => client.phase.Idle? && ids != []
         case Add(_, _, _) => client.phase.Idle?
         case Log(_, _) => client.phase.ToLog?
         case Trim(_, kept) => client.phase.ToTrim? && IsTrim(kept, s.store.log, KEPT_ROWS)
         case BeginUndo(_) => client.phase.Idle? && client.deleted.Some?
         case UndoRow(_) => client.phase.Undoing?
  }

  function At(s: System, c: nat, phase: Phase): System
    requires c < |s.clients|
  {
    s.(clients := s.clients[c := s.clients[c].(phase := phase)])
  }

  /** An asset statement of session c that its request goes on to log. */
  function Changed(s: System, c: nat, store: Store, action: Action): System
    requires c < |s.clients|
  {
    At(s, c, ToLog(action)).(store := store, journal := s.journal + [action])
  }

  function Apply(s: System, step: Step): System
    requires Enabled(s, step)
  {
    match step
    case Login(user) =>
      s.(clients := s.clients + [Client(user, None, None, Idle)])
    case LoadQueue(c, queue) =>
      s.(clients := s.clients[c := s.clients[c].(queue := queue)])
    case Update(c, id, fields, now) =>
      Changed(s, c, UpdateAsset(s.store, id, fields, now), Edited(id))
    case Delete(c, ids) =>
      Changed(s, c, DeleteAssets(s.store, ids), Deleted(ids))
    case Add(c, fields, now) =>
      Changed(s, c, InsertAsset(s.store, fields, now), Added(s.store.nextAsset))
    case Log(c, now) =>
      var action := s.clients[c].phase.action;
      At(s, c, ToTrim(if action.Edited? then Some(action.id) else None))
        .(store := InsertLog(s.store, s.clients[c].user, action, now))
    case Trim(c, kept) =>
      var client := s.clients[c];
      s.(store := s.store.(log := kept),
         clients := s.clients[c := client.(queue := Dequeued(client.queue, client.phase.edited), phase := Idle)])
    case BeginUndo(c) =>
      At(s, c, Undoing(s.clients[c].deleted.value))
    case UndoRow(c) =>
      var client := s.clients[c];
      var rest := client.phase.rest;
      if rest == [] then
        s.(clients := s.clients[c := client.(deleted := None, phase := Idle)])
      else if rest[0].id in s.store.assets then
        At(s, c, Idle)
      else
        At(s, c, Undoing(rest[1..])).(store := RestoreAsset(s.store, rest[0]))
  }

  // ----- runs -----

  /** The server starts with no sessions, and with a log that fits its bound. */
  ghost predicate Init(s: System) {
    && Consistent(s.store)
    && |s.store.log| <= KEPT_ROWS
    && s.store.history == []
    && s.journal == []
    && s.clients == []
  }

  /** steps can run from s, one after the other, in this order. */
  ghost predicate Runs(s: System, steps: seq<Step>)
    decreases |steps|
  {
    steps != [] ==> Enabled(s, steps[0]) && Runs(Apply(s, steps[0]), steps[1..])
  }

  function Exec(s: System, steps: seq<Step>): System
    requires Runs(s, steps)
    decreases |steps|
  {
    if steps == [] then s else Exec(Apply(s, steps[0]), steps[1..])
  }

  lemma RunCons(s: System, step: Step, rest: seq<Step>)
    requires Enabled(s, step) && Runs(Apply(s, step), rest)
    ensures Runs(s, [step] + rest)
    ensures Exec(s, [step] + rest) == Exec(Apply(s, step), rest)
  {
    assert ([step] + rest)[1..] == rest;
  }

  lemma {:induction false} RunAppend(s: System, first: seq<Step>, second: seq<Step>)
    requires Runs(s, first) && Runs(Exec(s, first), second)
    ensures Runs(s, first + second)
    ensures Exec(s, first + second) == Exec(Exec(s, first), second)
    decreases |first|
  {
    if first == [] {
      assert first + second == second;
    } else {
      assert (first + second)[1..] == first[1..] + second;
      RunAppend(Apply(s, first[0]), first[1..], second);
    }
  }

  /** Every log entry there ever was in a run that started from s0. */
  ghost function Everything(s0: System, s: System): set<Entry> {
    s0.store.log + Rows(s.store.history)
  }

  /** The sessions between their log insert and their trim. */
  ghost function Trimming(s: System): set<nat> {
    set c: nat | c < |s.clients| && s.clients[c].phase.ToTrim?
  }
}
