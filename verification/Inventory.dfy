/** The database of the application and the SQL statements its handlers run,
    each one atomic.  The history is never trimmed and no handler reads it: it
    is the full list of log entries, which the theorems compare the log with. */
module Inventory {
  import opened LogTable

  const KEPT_ROWS: nat := 15
  const SHOWN_ROWS: nat := 5

  /** The columns of one asset row that the forms fill in; an absent key is NULL. */
  type Fields = map<string, string>

  datatype Asset = Asset(fields: Fields, stamp: int)

  /** A whole asset row, as undo would put it back. */
  datatype Record = Record(id: int, asset: Asset)

  datatype Store = Store(
    assets: map<int, Asset>,
    nextAsset: int,
    log: set<Entry>,
    nextLog: nat,
    history: seq<Entry>)

  /** Both tables have auto-increment primary keys. */
  ghost predicate Consistent(st: Store) {
    && (forall id | id in st.assets :: id < st.nextAsset)
    && (forall e | e in st.log :: e.id < st.nextLog)
    && UniqueIds(st.log)
  }

  /** UPDATE assets SET ... WHERE id = ? */
  function UpdateAsset(st: Store, id: int, fields: Fields, now: int): Store {
    if id in st.assets then st.(assets := st.assets[id := Asset(fields, now)]) else st
  }

  /** DELETE FROM assets WHERE id IN (...) */
  function DeleteAssets(st: Store, ids: seq<int>): Store {
    st.(assets := st.assets - set i | i in ids)
  }

  /** INSERT INTO assets (...) VALUES (...) */
  function InsertAsset(st: Store, fields: Fields, now: int): Store {
    st.(assets := st.assets[st.nextAsset := Asset(fields, now)], nextAsset := st.nextAsset + 1)
  }

  /** INSERT INTO assets with every column given, among them a free id. */
  function RestoreAsset(st: Store, r: Record): Store {
    st.(assets := st.assets[r.id := r.asset],
        nextAsset := if r.id < st.nextAsset then st.nextAsset else r.id + 1)
  }

  /** INSERT INTO history_log (username, action) VALUES (...) */
  function InsertLog(st: Store, user: string, action: Action, now: int): Store {
    var e := Entry(st.nextLog, now, user, action);
    st.(log := st.log + {e}, nextLog := st.nextLog + 1, history := st.history + [e])
  }

  /** DELETE FROM history_log WHERE id NOT IN (the 15 newest). */
  ghost predicate Trimmed(st: Store, st': Store) {
    IsTrim(st'.log, st.log, KEPT_ROWS) && st' == st.(log := st'.log)
  }

  /** A log insert followed by its trim, nothing in between. */
  ghost predicate Logged(st: Store, st': Store, user: string, action: Action, now: int) {
    Trimmed(InsertLog(st, user, action, now), st')
  }

  /** What one logged action says happened to the ids. */
  function Effect(ids: set<int>, a: Action): set<int> {
    match a
    case Added(id) => ids + {id}
    case Edited(_) => ids
    case Deleted(gone) => ids - set i | i in gone
  }

  /** The ids that a list of logged actions leaves alive. */
  function Replay(ids: set<int>, actions: seq<Action>): set<int> {
    if actions == [] then ids
    else Effect(Replay(ids, actions[..|actions| - 1]), actions[|actions| - 1])
  }

  function Actions(entries: seq<Entry>): seq<Action> {
    seq(|entries|, i requires 0 <= i < |entries| => entries[i].action)
  }
}
