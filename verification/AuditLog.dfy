/** What the trimmed log keeps of the full history, over every interleaving of
    the log inserts and trims of any number of sessions, whatever the tie
    choices of the trims and whatever the clock does. */
module AuditLog {
  import opened Wrappers
  import opened LogTable
  import opened Inventory
  import opened Requests

  ghost predicate LogInv(s0: System, s: System) {
    && Consistent(s.store)
    && Covers(s.store.log, Everything(s0, s), KEPT_ROWS)
    && |s.store.log| <= KEPT_ROWS + |Trimming(s)|
  }

  lemma InitLogInv(s: System)
    requires Init(s)
    ensures LogInv(s, s)
  {
    assert Everything(s, s) == s.store.log;
  }

  /** A session's request moves on: what that does to the count of those
      between insert and trim. */
  lemma TrimmingAfter(s: System, c: nat, client: Client)
    requires c < |s.clients|
    ensures var after := Trimming(s.(clients := s.clients[c := client]));
            |after| == |Trimming(s)|
                       - (if s.clients[c].phase.ToTrim? then 1 else 0)
                       + (if client.phase.ToTrim? then 1 else 0)
  {
    var after := Trimming(s.(clients := s.clients[c := client]));
    assert after == Trimming(s) - {c} + if client.phase.ToTrim? then {c} else {};
  }

  lemma TrimmingAfterLogin(s: System, client: Client)
    requires client.phase.Idle?
    ensures Trimming(s.(clients := s.clients + [client])) == Trimming(s)
  {
  }

  lemma LogKeepsInv(s0: System, s: System, step: Step)
    requires LogInv(s0, s) && Enabled(s, step) && step.Log?
    ensures LogInv(s0, Apply(s, step))
  {
    var s' := Apply(s, step);
    var client := s.clients[step.c];
    var e := Entry(s.store.nextLog, step.now, client.user, client.phase.action);
    TrimmingAfter(s, step.c, s'.clients[step.c]);
    assert Trimming(s') == Trimming(s.(clients := s'.clients));
    assert Rows(s'.store.history) == Rows(s.store.history) + {e};
    assert Everything(s0, s') == Everything(s0, s) + {e};
    CoversAfterInsert(s.store.log, Everything(s0, s), e, KEPT_ROWS);
  }

  lemma TrimKeepsInv(s0: System, s: System, step: Step)
    requires LogInv(s0, s) && Enabled(s, step) && step.Trim?
    ensures LogInv(s0, Apply(s, step))
  {
    var s' := Apply(s, step);
    TrimKeepsNewest(step.kept, s.store.log, KEPT_ROWS);
    CoversAfterTrim(step.kept, s.store.log, Everything(s0, s), KEPT_ROWS);
    assert Everything(s0, s') == Everything(s0, s);
  }

  lemma OtherStepKeepsInv(s0: System, s: System, step: Step)
    requires LogInv(s0, s) && Enabled(s, step) && !step.Log? && !step.Trim?
    ensures LogInv(s0, Apply(s, step))
  {
    var s' := Apply(s, step);
    if step.Login? {
      TrimmingAfterLogin(s, Client(step.user, None, None, Idle));
    } else {
      TrimmingAfter(s, step.c, s'.clients[step.c]);
      assert Trimming(s') == Trimming(s.(clients := s'.clients));
    }
    assert Everything(s0, s') == Everything(s0, s);
    assert s'.store.log == s.store.log;
  }

  lemma {:induction false} RunKeepsLogInv(s0: System, s: System, steps: seq<Step>)
    requires LogInv(s0, s) && Runs(s, steps)
    ensures LogInv(s0, Exec(s, steps))
    decreases |steps|
  {
    if steps == [] {
    } else {
      if steps[0].Log? {
        LogKeepsInv(s0, s, steps[0]);
      } else if steps[0].Trim? {
        TrimKeepsInv(s0, s, steps[0]);
      } else {
        OtherStepKeepsInv(s0, s, steps[0]);
      }
      RunKeepsLogInv(s0, Apply(s, steps[0]), steps[1..]);
    }
  }

  // ----- the theorems -----

  /** Every entry ever discarded is dominated by 15 retained entries. */
  lemma DiscardedIsDominated(s0: System, steps: seq<Step>, e: Entry)
    requires Init(s0) && Runs(s0, steps)
    requires e in Everything(s0, Exec(s0, steps)) && e !in Exec(s0, steps).store.log
    ensures |set m | m in Exec(s0, steps).store.log && m.time >= e.time| >= KEPT_ROWS
  {
    InitLogInv(s0);
    RunKeepsLogInv(s0, s0, steps);
    var log := Exec(s0, steps).store.log;
    assert AtLeast(log, e.time) == set m | m in log && m.time >= e.time;
  }

  /** The log outgrows its bound by no more than one row for each request that
      has inserted its row and not yet trimmed. */
  lemma LogStaysBounded(s0: System, steps: seq<Step>)
    requires Init(s0) && Runs(s0, steps)
    ensures |Exec(s0, steps).store.log| <= KEPT_ROWS + |Trimming(Exec(s0, steps))|
  {
    InitLogInv(s0);
    RunKeepsLogInv(s0, s0, steps);
  }

  /** When no trim is outstanding, the log is exactly what one single trim of the
      whole history could have left, however many trims there were. */
  lemma TrimsComposeToOne(s0: System, steps: seq<Step>)
    requires Init(s0) && Runs(s0, steps)
    requires Trimming(Exec(s0, steps)) == {}
    ensures IsNewest(Exec(s0, steps).store.log, Everything(s0, Exec(s0, steps)), KEPT_ROWS)
  {
    InitLogInv(s0);
    RunKeepsLogInv(s0, s0, steps);
    var s := Exec(s0, steps);
    SmallCoverIsNewest(s.store.log, Everything(s0, s), KEPT_ROWS);
  }

  /** Trimming is invisible to the dashboard: in every reachable state each
      answer it may get is an answer the full history may give, and the
      timestamps it shows are the ones every answer of the full history shows. */
  lemma DashboardSeesFullHistory(s0: System, steps: seq<Step>, shown: seq<Entry>, full: seq<Entry>)
    requires Init(s0) && Runs(s0, steps)
    requires IsAnswer(shown, Exec(s0, steps).store.log, SHOWN_ROWS)
    requires IsAnswer(full, Everything(s0, Exec(s0, steps)), SHOWN_ROWS)
    ensures IsAnswer(shown, Everything(s0, Exec(s0, steps)), SHOWN_ROWS)
    ensures |shown| == |full| && forall i | 0 <= i < |shown| :: shown[i].time == full[i].time
  {
    InitLogInv(s0);
    RunKeepsLogInv(s0, s0, steps);
    var s := Exec(s0, steps);
    AnswerTransfers(shown, s.store.log, Everything(s0, s), SHOWN_ROWS, KEPT_ROWS);
    SameTimes(shown, full, Everything(s0, s), SHOWN_ROWS);
  }

  /** The other way round ties matter: an answer of the full history is one the
      dashboard may get exactly when no row of it was discarded. */
  lemma HistoryAnswerOnDashboard(s0: System, steps: seq<Step>, full: seq<Entry>)
    requires Init(s0) && Runs(s0, steps)
    requires IsAnswer(full, Everything(s0, Exec(s0, steps)), SHOWN_ROWS)
    ensures IsAnswer(full, Exec(s0, steps).store.log, SHOWN_ROWS)
            <==> Rows(full) <= Exec(s0, steps).store.log
  {
    InitLogInv(s0);
    RunKeepsLogInv(s0, s0, steps);
    var s := Exec(s0, steps);
    var shown := AnswerExists(s.store.log, SHOWN_ROWS);
    DashboardSeesFullHistory(s0, steps, shown, full);
  }

  /** If no two entries share a timestamp, the dashboard shows the very rows. */
  lemma DashboardIsExactWithoutTies(s0: System, steps: seq<Step>, shown: seq<Entry>, full: seq<Entry>)
    requires Init(s0) && Runs(s0, steps)
    requires IsAnswer(shown, Exec(s0, steps).store.log, SHOWN_ROWS)
    requires IsAnswer(full, Everything(s0, Exec(s0, steps)), SHOWN_ROWS)
    requires NoTies(Everything(s0, Exec(s0, steps)))
    ensures shown == full
  {
    DashboardSeesFullHistory(s0, steps, shown, full);
    OneAnswerWithoutTies(shown, full, Everything(s0, Exec(s0, steps)), SHOWN_ROWS);
  }
}
