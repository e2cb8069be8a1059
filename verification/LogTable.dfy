/** The history_log table and the two queries made on it: the ordered LIMIT
    query of the dashboard, and the trim that deletes every row whose id is not
    among the newest ones.  Neither query breaks ties between equal timestamps,
    so both are relations: an answer is anything the database may return. */
module LogTable {
  import opened Wrappers

  datatype Action = Added(id: int) | Edited(id: int) | Deleted(ids: seq<int>)

  datatype Entry = Entry(id: nat, time: int, user: string, action: Action)

  /** id is the primary key. */
  ghost predicate UniqueIds(t: set<Entry>) {
    forall a, b | a in t && b in t && a.id == b.id :: a == b
  }

  function Rows(rows: seq<Entry>): set<Entry> {
    set r | r in rows
  }

  ghost predicate Distinct(rows: seq<Entry>) {
    forall i, j | 0 <= i < j < |rows| :: rows[i] != rows[j]
  }

  ghost predicate NewestFirst(rows: seq<Entry>) {
    forall i, j | 0 <= i < j < |rows| :: rows[i].time >= rows[j].time
  }

  /** rows is one possible result of SELECT ... ORDER BY timestamp DESC LIMIT k. */
  ghost predicate IsAnswer(rows: seq<Entry>, t: set<Entry>, k: nat) {
    && |rows| == Min(k, |t|)
    && Distinct(rows) && NewestFirst(rows)
    && Rows(rows) <= t
    && forall e, r | e in t && e !in rows && r in rows :: e.time <= r.time
  }

  /** What is left after DELETE ... WHERE id NOT IN (the ids of rows). */
  function WithIdsOf(t: set<Entry>, rows: seq<Entry>): set<Entry> {
    set e | e in t && exists i :: 0 <= i < |rows| && rows[i].id == e.id
  }

  /** t' is one possible result of trimming t to its k newest rows. */
  ghost predicate IsTrim(t': set<Entry>, t: set<Entry>, k: nat) {
    exists rows: seq<Entry> :: IsAnswer(rows, t, k) && t' == WithIdsOf(t, rows)
  }

  /** The same without the detour through row ids and an ordered list. */
  ghost predicate IsNewest(kept: set<Entry>, t: set<Entry>, k: nat) {
    && kept <= t
    && |kept| == Min(k, |t|)
    && forall e, m | e in t && e !in kept && m in kept :: e.time <= m.time
  }

  /** Every row of all that log has lost is matched by cap rows still in log
      that are at least as new. */
  ghost predicate Covers(log: set<Entry>, all: set<Entry>, cap: nat) {
    && log <= all
    && forall e | e in all && e !in log :: |AtLeast(log, e.time)| >= cap
  }

  ghost function AtLeast(t: set<Entry>, time: int): set<Entry> {
    set m | m in t && m.time >= time
  }

  // ----- counting -----

  lemma SubsetSize<T>(a: set<T>, b: set<T>)
    requires a <= b
    ensures |a| <= |b|
    ensures |a| == |b| ==> a == b
  {
    assert b == a + (b - a);
  }

  lemma {:induction false} DistinctSize(rows: seq<Entry>)
    requires Distinct(rows)
    ensures |Rows(rows)| == |rows|
  {
    if rows == [] {
    } else {
      var front, last := rows[..|rows| - 1], rows[|rows| - 1];
      DistinctSize(front);
      assert Rows(rows) == Rows(front) + {last};
    }
  }

  // ----- answers exist -----

  lemma {:induction false} NewestRow(t: set<Entry>) returns (m: Entry)
    requires t != {}
    ensures m in t && forall e | e in t :: e.time <= m.time
  {
    m :| m in t;
    if t != {m} {
      var n := NewestRow(t - {m});
      if m.time < n.time {
        m := n;
      }
    }
  }

  /** Any set of rows can be listed newest first. */
  lemma {:induction false} Sorted(t: set<Entry>) returns (rows: seq<Entry>)
    ensures Rows(rows) == t && Distinct(rows) && NewestFirst(rows) && |rows| == |t|
  {
    rows := [];
    if t == {} {
    } else {
      var m := NewestRow(t);
      var rest := Sorted(t - {m});
      rows := [m] + rest;
      assert forall r :: r in rows <==> r == m || r in Rows(rest);
      assert forall i | 0 <= i < |rest| :: rest[i] in Rows(rest);
    }
  }

  /** The LIMIT query always has an answer. */
  lemma AnswerExists(t: set<Entry>, k: nat) returns (rows: seq<Entry>)
    ensures IsAnswer(rows, t, k)
  {
    var sorted := Sorted(t);
    rows := sorted[..Min(k, |t|)];
    assert forall e | e in t :: e in Rows(sorted);
    forall e, r | e in t && e !in rows && r in rows
      ensures e.time <= r.time
    {
      var i :| 0 <= i < |sorted| && sorted[i] == e;
      var j :| 0 <= j < |rows| && rows[j] == r;
      assert i >= |rows|;
      assert sorted[j] == r;
    }
    assert forall r | r in rows :: r in Rows(sorted);
  }

  // ----- the trim, in terms of rows instead of ids -----

  lemma KeptRows(t: set<Entry>, rows: seq<Entry>)
    requires UniqueIds(t) && Rows(rows) <= t
    ensures WithIdsOf(t, rows) == Rows(rows)
  {
    forall e | e in WithIdsOf(t, rows)
      ensures e in Rows(rows)
    {
      var i :| 0 <= i < |rows| && rows[i].id == e.id;
      assert rows[i] in Rows(rows);
    }
    forall e | e in Rows(rows)
      ensures e in WithIdsOf(t, rows)
    {
      var i :| 0 <= i < |rows| && rows[i] == e;
    }
  }

  /** The nested query keeps a set of newest rows, and it may keep any of them. */
  lemma TrimKeepsNewest(t': set<Entry>, t: set<Entry>, k: nat)
    requires UniqueIds(t)
    ensures IsTrim(t', t, k) <==> IsNewest(t', t, k)
  {
    if IsTrim(t', t, k) {
      var rows :| IsAnswer(rows, t, k) && t' == WithIdsOf(t, rows);
      KeptRows(t, rows);
      DistinctSize(rows);
    }
    if IsNewest(t', t, k) {
      var rows := Sorted(t');
      KeptRows(t, rows);
      assert forall r | r in rows :: r in Rows(rows);
      assert IsAnswer(rows, t, k);
    }
  }

  // ----- what trimming does to a log that covers the whole history -----

  lemma CoversAfterInsert(log: set<Entry>, all: set<Entry>, e: Entry, cap: nat)
    requires Covers(log, all, cap)
    ensures Covers(log + {e}, all + {e}, cap)
  {
    forall d | d in all + {e} && d !in log + {e}
      ensures |AtLeast(log + {e}, d.time)| >= cap
    {
      SubsetSize(AtLeast(log, d.time), AtLeast(log + {e}, d.time));
    }
  }

  lemma CoversAfterTrim(kept: set<Entry>, log: set<Entry>, all: set<Entry>, cap: nat)
    requires Covers(log, all, cap) && IsNewest(kept, log, cap)
    ensures Covers(kept, all, cap)
  {
    forall d | d in all && d !in kept
      ensures |AtLeast(kept, d.time)| >= cap
    {
      if d in log {
        SubsetSize(kept, log);
        assert AtLeast(kept, d.time) == kept;
      } else {
        DiscardedStaysCovered(kept, log, d.time, cap);
      }
    }
  }

  /** A time matched by cap rows of log is matched by cap of its newest rows. */
  lemma DiscardedStaysCovered(kept: set<Entry>, log: set<Entry>, time: int, cap: nat)
    requires IsNewest(kept, log, cap) && |AtLeast(log, time)| >= cap
    ensures AtLeast(kept, time) == kept && |kept| == cap
  {
    SubsetSize(AtLeast(log, time), log);
    if m :| m in kept && m.time < time {
      assert AtLeast(log, time) + {m} <= kept;
      SubsetSize(AtLeast(log, time) + {m}, kept);
    }
  }

  /** With at most cap rows, a covering log is itself a set of newest rows. */
  lemma SmallCoverIsNewest(log: set<Entry>, all: set<Entry>, cap: nat)
    requires Covers(log, all, cap) && |log| <= cap
    ensures IsNewest(log, all, cap)
  {
    SubsetSize(log, all);
    forall e | e in all && e !in log
      ensures AtLeast(log, e.time) == log && |log| == cap
    {
      SubsetSize(AtLeast(log, e.time), log);
    }
    if e0 :| e0 in all && e0 !in log {
      assert |log| == cap;
    } else {
      assert log == all;
    }
  }

  // ----- what the dashboard can tell -----

  /** Asking a covering log for at most cap rows gives an answer that the whole
      history could have given. */
  lemma AnswerTransfers(rows: seq<Entry>, log: set<Entry>, all: set<Entry>, k: nat, cap: nat)
    requires Covers(log, all, cap) && k <= cap && IsAnswer(rows, log, k)
    ensures IsAnswer(rows, all, k)
  {
    SubsetSize(log, all);
    DistinctSize(rows);
    if e0 :| e0 in all && e0 !in log {
      SubsetSize(AtLeast(log, e0.time), log);
    } else {
      assert log == all;
    }
    forall e, r | e in all && e !in rows && r in rows
      ensures e.time <= r.time
    {
      if e !in log && r.time < e.time {
        assert r in Rows(rows) && AtLeast(log, e.time) + {r} <= Rows(rows);
        SubsetSize(AtLeast(log, e.time) + {r}, Rows(rows));
      }
    }
  }

  /** Ties decide which rows are shown, never which timestamps. */
  lemma SameTimes(a: seq<Entry>, b: seq<Entry>, t: set<Entry>, k: nat)
    requires IsAnswer(a, t, k) && IsAnswer(b, t, k)
    ensures forall i | 0 <= i < |a| :: a[i].time == b[i].time
  {
    forall i | 0 <= i < |a|
      ensures a[i].time == b[i].time
    {
      NotNewer(a, b, t, k, i);
      NotNewer(b, a, t, k, i);
    }
  }

  /** If a's i-th row is newer than b's, then a's rows up to it are among b's
      rows before the i-th. */
  lemma NewerRowsComeFirst(a: seq<Entry>, b: seq<Entry>, t: set<Entry>, k: nat, i: nat, j: nat)
    requires IsAnswer(a, t, k) && IsAnswer(b, t, k) && j <= i < |a|
    requires a[i].time > b[i].time
    ensures a[j] in Rows(b[..i])
  {
    assert a[j] in Rows(a) && a[j].time > b[i].time;
    assert b[i] in b;
    var l :| 0 <= l < |b| && b[l] == a[j];
    assert l < i;
    assert b[..i][l] == a[j];
  }

  lemma NotNewer(a: seq<Entry>, b: seq<Entry>, t: set<Entry>, k: nat, i: nat)
    requires IsAnswer(a, t, k) && IsAnswer(b, t, k) && i < |a|
    ensures a[i].time <= b[i].time
  {
    if a[i].time > b[i].time {
      forall j: nat | j <= i
        ensures a[j] in Rows(b[..i])
      {
        NewerRowsComeFirst(a, b, t, k, i, j);
      }
      DistinctSize(a[..i + 1]);
      DistinctSize(b[..i]);
      SubsetSize(Rows(a[..i + 1]), Rows(b[..i]));
    }
  }

  ghost predicate NoTies(t: set<Entry>) {
    forall e, f | e in t && f in t && e.time == f.time :: e == f
  }

  /** Without ties in the table there is only one answer. */
  lemma OneAnswerWithoutTies(a: seq<Entry>, b: seq<Entry>, t: set<Entry>, k: nat)
    requires IsAnswer(a, t, k) && IsAnswer(b, t, k) && NoTies(t)
    ensures a == b
  {
    SameTimes(a, b, t, k);
    forall i | 0 <= i < |a|
      ensures a[i] == b[i]
    {
      assert a[i] in Rows(a) && b[i] in Rows(b);
    }
  }
}
