/** The request handlers as they run, statement by statement, on one database
    and one session. */
module Handlers {
  import opened Wrappers
  import opened LogTable
  import opened Inventory
  import opened EditQueue
  import Requests
  import UndoDelete
  import LiveAssets

  const REQUIRED_FIELDS: seq<string> := [
    "asset_tag", "tag_number", "brand_model", "serial_number",
    "type_os_type", "processor", "type_of_hard_disk", "size_of_disk", "memory",
    "office_version", "ip_address", "section", "type_of_user", "user",
    "email_password", "date_purchased", "ups", "recovery_type", "unit_type"]

  const NOT_GIVEN := "n/a"

  /** PHP's empty() of a form field: absent, "" or "0". */
  predicate IsEmpty(post: Fields, field: string) {
    field !in post || post[field] == "" || post[field] == "0"
  }

  predicate IsBlank(c: char) {
    c == ' ' || c == '\t' || c == '\n' || c == '\r' || c == '\0' || c == '\U{0B}'
  }

  function TrimLeft(s: string): string {
    if s != "" && IsBlank(s[0]) then TrimLeft(s[1..]) else s
  }

  function TrimRight(s: string): string {
    if s != "" && IsBlank(s[|s| - 1]) then TrimRight(s[..|s| - 1]) else s
  }

  /** The posted columns, with the e-mail address as the handler stores it. */
  function Columns(post: Fields, email: string): Fields {
    (map f | f in post && f in REQUIRED_FIELDS :: post[f])["email_address" := email]
  }

  function NewAssetFields(post: Fields): Fields {
    Columns(post, if IsEmpty(post, "email_address") then NOT_GIVEN else post["email_address"])
  }

  function Stripped(s: string): string {
    TrimRight(TrimLeft(s))
  }

  /** Here a blank address counts as not given, too. */
  function EditedAssetFields(post: Fields): Fields {
    var given := if "email_address" in post then post["email_address"] else "";
    Columns(post, if Stripped(given) == "" || Stripped(given) == "0" then NOT_GIVEN else given)
  }

  lemma EmailIsNotRequired()
    ensures "email_address" !in REQUIRED_FIELDS
  {
    forall i | 0 <= i < |REQUIRED_FIELDS|
      ensures REQUIRED_FIELDS[i] != "email_address"
    {
      assert |"email_address"| == 13;
      assert |REQUIRED_FIELDS[i]| != 13 || REQUIRED_FIELDS[i][0] != 'e';
    }
  }

  /** A row holds exactly the posted required columns, each with the value posted
      under its own name, and the given e-mail address. */
  ghost predicate HoldsPosted(row: Fields, post: Fields, email: string) {
    && (forall f :: f in row <==> f == "email_address" || (f in REQUIRED_FIELDS && f in post))
    && (forall f | f in row && f != "email_address" :: row[f] == post[f])
    && row["email_address"] == email
  }

  /** Nothing but blanks, or a single 0 among blanks. */
  ghost predicate TrimsToNothing(s: string) {
    || AllBlank(s)
    || exists i :: 0 <= i < |s| && s[i] == '0' && AllBlank(s[..i]) && AllBlank(s[i + 1..])
  }

  ghost predicate AllBlank(s: string) {
    forall i | 0 <= i < |s| :: IsBlank(s[i])
  }

  /** What a new entry stores: the posted address unless it is absent, "" or "0". */
  ghost function NewAddress(post: Fields): string {
    if "email_address" in post && post["email_address"] !in {"", "0"} then post["email_address"] else "n/a"
  }

  /** What an edit stores: the posted address unless it is absent or, without the
      blanks around it, "" or "0". */
  ghost function EditedAddress(post: Fields): string {
    if "email_address" in post && !TrimsToNothing(post["email_address"]) then post["email_address"] else "n/a"
  }

  /** Both handlers store the posted columns with those addresses; from the same
      form they store the same row, unless the address is neither "" nor "0" but
      trims to one of these: that one a new entry keeps and an edit replaces. */
  lemma StoredRows(post: Fields)
    ensures HoldsPosted(NewAssetFields(post), post, NewAddress(post))
    ensures HoldsPosted(EditedAssetFields(post), post, EditedAddress(post))
    ensures NewAssetFields(post) == EditedAssetFields(post)
            <==> IsEmpty(post, "email_address") || !TrimsToNothing(post["email_address"])
  {
    EmailIsNotRequired();
    EmptyAfterTrimmingIff(if "email_address" in post then post["email_address"] else "");
    EmptyAfterTrimmingIff(NOT_GIVEN);
    if "email_address" in post {
      ShortStrings(post["email_address"]);
    }
    assert NewAssetFields(post)["email_address"] == EditedAssetFields(post)["email_address"]
           <==> NewAssetFields(post) == EditedAssetFields(post);
  }

  /** "" and "0" trim to nothing, "n/a" does not. */
  lemma ShortStrings(s: string)
    ensures s == "" || s == "0" ==> TrimsToNothing(s)
    ensures s == NOT_GIVEN ==> !TrimsToNothing(s)
  {
    if s == "0" {
      assert s[0] == '0' && AllBlank(s[..0]) && AllBlank(s[1..]);
    } else if s == NOT_GIVEN {
      assert !IsBlank(s[0]) && s[0] != '0' && s[1] != '0' && s[2] != '0';
    }
  }

  // ----- trim() -----

  lemma {:induction false} LeftBlanks(s: string) returns (a: string)
    ensures AllBlank(a) && s == a + TrimLeft(s)
    ensures TrimLeft(s) == "" || !IsBlank(TrimLeft(s)[0])
  {
    if s == "" || !IsBlank(s[0]) {
      a := "";
    } else {
      a := LeftBlanks(s[1..]);
      a := [s[0]] + a;
    }
  }

  lemma {:induction false} RightBlanks(s: string) returns (b: string)
    ensures AllBlank(b) && s == TrimRight(s) + b
    ensures TrimRight(s) == "" || !IsBlank(TrimRight(s)[|TrimRight(s)| - 1])
    decreases |s|
  {
    if s == "" || !IsBlank(s[|s| - 1]) {
      b := "";
    } else {
      b := RightBlanks(s[..|s| - 1]);
      b := b + [s[|s| - 1]];
    }
  }

  /** Trimming takes the blanks off both ends and nothing else. */
  lemma StrippedOf(s: string) returns (a: string, b: string)
    ensures AllBlank(a) && AllBlank(b) && s == a + Stripped(s) + b
    ensures Stripped(s) != "" ==> !IsBlank(Stripped(s)[0]) && !IsBlank(Stripped(s)[|Stripped(s)| - 1])
  {
    a := LeftBlanks(s);
    b := RightBlanks(TrimLeft(s));
    assert a + (Stripped(s) + b) == a + Stripped(s) + b;
    if Stripped(s) != "" {
      assert TrimLeft(s)[0] == Stripped(s)[0];
    }
  }

  lemma EmptyAfterTrimmingIff(s: string)
    ensures Stripped(s) == "" || Stripped(s) == "0" <==> TrimsToNothing(s)
  {
    var a, b := StrippedOf(s);
    if Stripped(s) == "0" {
      assert s[|a|] == '0' && s[..|a|] == a && s[|a| + 1..] == b;
    } else if Stripped(s) != "" {
      LongerStripped(s, a, Stripped(s), b);
    }
  }

  lemma LongerStripped(s: string, a: string, core: string, b: string)
    requires s == a + core + b && core != "" && core != "0"
    requires !IsBlank(core[0]) && !IsBlank(core[|core| - 1])
    ensures !TrimsToNothing(s)
  {
    var first, last := |a|, |a| + |core| - 1;
    assert s[first] == core[0] && s[last] == core[|core| - 1];
    assert |core| == 1 ==> core == [core[0]];
    forall i | 0 <= i < |s| && s[i] == '0'
      ensures !(AllBlank(s[..i]) && AllBlank(s[i + 1..]))
    {
      if first < i {
        assert s[..i][first] == s[first];
      } else if i < last {
        assert s[i + 1..][last - i - 1] == s[last];
      }
    }
  }

  /** The ordered LIMIT query, whichever way the ties fall. */
  method SelectNewest(t: set<Entry>, k: nat) returns (rows: seq<Entry>)
    ensures IsAnswer(rows, t, k)
  {
    rows := [];
    var rest := t;
    while |rows| < k && rest != {}
      invariant |rows| <= k && |rest| == |t| - |rows|
      invariant Distinct(rows) && NewestFirst(rows)
      invariant forall e :: e in t <==> e in rest || e in rows
      invariant forall r | r in rows :: r !in rest
      invariant forall e, r | e in rest && r in rows :: e.time <= r.time
      decreases rest
    {
      ghost var newest := NewestRow(rest);
      var m :| m in rest && forall e | e in rest :: e.time <= m.time;
      rows := rows + [m];
      rest := rest - {m};
    }
  }

  class Database {
    var assets: map<int, Asset>
    var nextAsset: int
    var log: set<Entry>
    var nextLog: nat
    ghost var history: seq<Entry>

    ghost function View(): Store
      reads this
    {
      Store(assets, nextAsset, log, nextLog, history)
    }

    ghost predicate Valid()
      reads this
    {
      Consistent(View())
    }

    method Update(id: int, fields: Fields, now: int)
      requires Valid()
      modifies this`assets
      ensures Valid() && View() == UpdateAsset(old(View()), id, fields, now)
    {
      if id in assets {
        assets := assets[id := Asset(fields, now)];
      }
    }

    method Delete(ids: seq<int>)
      requires Valid()
      modifies this`assets
      ensures Valid() && View() == DeleteAssets(old(View()), ids)
    {
      assets := assets - set i | i in ids;
    }

    method Insert(fields: Fields, now: int) returns (insertId: int)
      requires Valid()
      modifies this`assets, this`nextAsset
      ensures Valid() && View() == InsertAsset(old(View()), fields, now)
      ensures insertId == old(nextAsset) && insertId !in old(assets)
    {
      insertId := nextAsset;
      assets := assets[nextAsset := Asset(fields, now)];
      nextAsset := nextAsset + 1;
    }

    /** The primary key refuses an id that is taken. */
    method Restore(r: Record) returns (ok: bool)
      requires Valid()
      modifies this`assets, this`nextAsset
      ensures Valid() && ok == (r.id !in old(assets))
      ensures View() == if ok then RestoreAsset(old(View()), r) else old(View())
    {
      ok := r.id !in assets;
      if ok {
        assets := assets[r.id := r.asset];
        nextAsset := if r.id < nextAsset then nextAsset else r.id + 1;
      }
    }

    method InsertLogRow(user: string, action: Action, now: int)
      requires Valid()
      modifies this`log, this`nextLog, this`history
      ensures Valid() && View() == InsertLog(old(View()), user, action, now)
    {
      var e := Entry(nextLog, now, user, action);
      log, nextLog, history := log + {e}, nextLog + 1, history + [e];
    }

    method TrimLog()
      requires Valid()
      modifies this`log
      ensures Valid() && Trimmed(old(View()), View())
    {
      var keep := SelectNewest(log, KEPT_ROWS);
      log := WithIdsOf(log, keep);
    }
  }

  class Session {
    var user: string
    var editQueue: Option<seq<int>>
    var deletedRecords: Option<seq<Record>>
  }

  /** One entry has been added to the history, and the log is its 15 newest rows. */
  ghost predicate LogsOne(before: Store, after: Store, user: string, action: Action, time: int) {
    var e := Entry(before.nextLog, time, user, action);
    && after.history == before.history + [e]
    && after.nextLog == before.nextLog + 1
    && IsNewest(after.log, before.log + {e}, 15)
  }

  lemma LoggedLogsOne(st: Store, st': Store, user: string, action: Action, time: int)
    requires Consistent(st) && Logged(st, st', user, action, time)
    ensures LogsOne(st, st', user, action, time)
  {
    TrimKeepsNewest(st'.log, InsertLog(st, user, action, time).log, KEPT_ROWS);
  }

  /** The edited row, if there is one, has the posted values and the new time; no
      other row changes, none appears or goes. */
  ghost predicate EditStored(before: Store, after: Store, user: string, form: UpdateForm, now: int, later: int) {
    && after.assets.Keys == before.assets.Keys && after.nextAsset == before.nextAsset
    && (forall id | id in before.assets && id != form.id :: after.assets[id] == before.assets[id])
    && (form.id in after.assets ==>
          && after.assets[form.id].stamp == now
          && HoldsPosted(after.assets[form.id].fields, form.post, EditedAddress(form.post)))
    && LogsOne(before, after, user, Edited(form.id), later)
  }

  lemma EditIsStored(st: Store, st': Store, user: string, form: UpdateForm, now: int, later: int)
    requires Consistent(st)
    requires Logged(UpdateAsset(st, form.id, EditedAssetFields(form.post), now), st', user, Edited(form.id), later)
    ensures EditStored(st, st', user, form, now, later)
  {
    StoredRows(form.post);
    LoggedLogsOne(UpdateAsset(st, form.id, EditedAssetFields(form.post), now), st', user, Edited(form.id), later);
  }

  /** There is one new row, with the next id, the posted values and the current
      time; no other row changes. */
  ghost predicate EntryStored(before: Store, after: Store, user: string, post: Fields, now: int, later: int) {
    var id := before.nextAsset;
    && id !in before.assets && after.assets.Keys == before.assets.Keys + {id} && after.nextAsset == id + 1
    && (forall other | other in before.assets :: after.assets[other] == before.assets[other])
    && after.assets[id].stamp == now
    && HoldsPosted(after.assets[id].fields, post, NewAddress(post))
    && LogsOne(before, after, user, Added(id), later)
  }

  lemma EntryIsStored(st: Store, st': Store, user: string, post: Fields, now: int, later: int)
    requires Consistent(st)
    requires Logged(InsertAsset(st, NewAssetFields(post), now), st', user, Added(st.nextAsset), later)
    ensures EntryStored(st, st', user, post, now, later)
  {
    StoredRows(post);
    LoggedLogsOne(InsertAsset(st, NewAssetFields(post), now), st', user, Added(st.nextAsset), later);
  }

  /** A complete form gives a complete row. */
  lemma CompleteRow(row: Fields, post: Fields)
    requires HoldsPosted(row, post, NewAddress(post))
    requires forall f | f in REQUIRED_FIELDS :: !IsEmpty(post, f)
    ensures forall f | f in REQUIRED_FIELDS :: !IsEmpty(row, f)
    ensures !IsEmpty(row, "email_address")
  {
    EmailIsNotRequired();
  }

  /** The listed rows are gone, all others are as they were. */
  ghost predicate DeletionStored(before: Store, after: Store, user: string, ids: seq<int>, now: int) {
    && (forall id :: id in after.assets <==> id in before.assets && id !in ids)
    && (forall id | id in before.assets && id !in ids :: after.assets[id] == before.assets[id])
    && after.nextAsset == before.nextAsset
    && LogsOne(before, after, user, Deleted(ids), now)
  }

  lemma DeletionIsStored(st: Store, st': Store, user: string, ids: seq<int>, now: int)
    requires Consistent(st) && Logged(DeleteAssets(st, ids), st', user, Deleted(ids), now)
    ensures DeletionStored(st, st', user, ids, now)
  {
    LiveAssets.DeletionDeletesIff(st, st', user, ids, now);
    LoggedLogsOne(DeleteAssets(st, ids), st', user, Deleted(ids), now);
  }

  /** The page is about asset id; an id of 0 counts as none. */
  ghost predicate PageIsFor(page: Page, assets: map<int, Asset>, id: int, updated: bool) {
    && (page.EditForm? <==> id != 0 && id in assets)
    && (page.EditForm? ==> page.id == id && page.asset == assets[id])
    && (page.NotFound? <==> id != 0 && id !in assets)
    && (page.NotFound? ==> page.id == id)
    && (page.OnlySuccess? <==> id == 0 && updated)
    && (page.NothingSelected? <==> id == 0 && !updated)
  }

  method EditAsset(db: Database, session: Session, req: EditRequest, now: int, later: int) returns (page: Page)
    requires db.Valid()
    modifies db, session`editQueue
    ensures db.Valid()
    ensures req.update.None? ==> db.View() == old(db.View())
    ensures req.update.Some? ==>
              var form := req.update.value;
              Logged(UpdateAsset(old(db.View()), form.id, EditedAssetFields(form.post), now), db.View(),
                     session.user, Edited(form.id), later)
    ensures req.update.Some? ==>
              EditStored(old(db.View()), db.View(), session.user, req.update.value, now, later)
    // the queue: a posted selection replaces it, null included, and a submitted id leaves it
    ensures req.update.None? ==>
              session.editQueue == if req.selectedIds.Some? then req.selectedIds.value else old(session.editQueue)
    ensures req.update.Some? ==>
              var before := if req.selectedIds.Some? then req.selectedIds.value else old(session.editQueue);
              && session.editQueue.Some? == before.Some?
              && (before.Some? ==> FirstRemoved(before.value, req.update.value.id, session.editQueue.value))
    // the page: the head of the queue, or the manual id if there is none
    ensures session.editQueue.Some? && session.editQueue.value != [] ==>
              PageIsFor(page, db.assets, session.editQueue.value[0], req.update.Some?)
    ensures (session.editQueue.None? || session.editQueue.value == []) && req.manualId.Some? ==>
              PageIsFor(page, db.assets, req.manualId.value, req.update.Some?)
    ensures (session.editQueue.None? || session.editQueue.value == []) && req.manualId.None? ==>
              page == if req.update.Some? then OnlySuccess else NothingSelected
    // in particular the load request of the master list
    ensures req.selectedIds.Some? && req.selectedIds.value.Some? && req.update.None? ==>
              var ids := req.selectedIds.value.value;
              && session.editQueue == Some(ids)
              && (ids != [] && ids[0] != 0 && ids[0] in db.assets ==> page == EditForm(ids[0], db.assets[ids[0]]))
    ensures session.editQueue == QueueAfter(old(session.editQueue), req)
    ensures page == PageFor(db.assets, NextId(old(session.editQueue), req), req.update.Some?)
  {
    if req.selectedIds.Some? {
      session.editQueue := req.selectedIds.value;
    }
    if req.update.Some? {
      StoreEdit(db, session, req.update.value, now, later);
      if session.editQueue.Some? {
        RemoveFirstRemovesFirst(session.editQueue.value, req.update.value.id);
        session.editQueue := Some(Requests.RemoveFirst(session.editQueue.value, req.update.value.id));
      }
    }
    var next := req.manualId;
    if session.editQueue.Some? && session.editQueue.value != [] {
      next := Some(session.editQueue.value[0]);
    }
    page := Show(db, next, req.update.Some?);
  }

  /** The update, its log entry and the trim. */
  method StoreEdit(db: Database, session: Session, form: UpdateForm, now: int, later: int)
    requires db.Valid()
    modifies db
    ensures db.Valid()
    ensures Logged(UpdateAsset(old(db.View()), form.id, EditedAssetFields(form.post), now), db.View(),
                   session.user, Edited(form.id), later)
    ensures EditStored(old(db.View()), db.View(), session.user, form, now, later)
  {
    db.Update(form.id, EditedAssetFields(form.post), now);
    db.InsertLogRow(session.user, Edited(form.id), later);
    db.TrimLog();
    EditIsStored(old(db.View()), db.View(), session.user, form, now, later);
  }

  /** Looks up the chosen asset. */
  method Show(db: Database, next: Option<int>, updated: bool) returns (page: Page)
    ensures page == PageFor(db.assets, next, updated)
    ensures next.Some? ==> PageIsFor(page, db.assets, next.value, updated)
    ensures next.None? ==> page == if updated then OnlySuccess else NothingSelected
  {
    if next.Some? && next.value != 0 {
      if next.value in db.assets {
        page := EditForm(next.value, db.assets[next.value]);
      } else {
        page := NotFound(next.value);
      }
    } else if !updated {
      page := NothingSelected;
    } else {
      page := OnlySuccess;
    }
  }

  datatype DeleteReply = Success | ExecError | InvalidInput

  /** ids is None when the posted list does not decode to an array; executes
      says whether the database accepts the DELETE. */
  method DeleteSelected(db: Database, session: Session, ids: Option<seq<int>>, executes: bool, now: int)
    returns (reply: DeleteReply)
    requires db.Valid()
    modifies db
    ensures db.Valid()
    ensures reply == if ids.None? || ids.value == [] then InvalidInput else if executes then Success else ExecError
    ensures reply.Success? ==>
              Logged(DeleteAssets(old(db.View()), ids.value), db.View(), session.user, Deleted(ids.value), now)
    ensures reply.Success? ==> DeletionStored(old(db.View()), db.View(), session.user, ids.value, now)
    ensures !reply.Success? ==> db.View() == old(db.View())
  {
    if ids.None? || ids.value == [] {
      return InvalidInput;
    }
    if !executes {
      return ExecError;
    }
    db.Delete(ids.value);
    db.InsertLogRow(session.user, Deleted(ids.value), now);
    db.TrimLog();
    DeletionIsStored(old(db.View()), db.View(), session.user, ids.value, now);
    return Success;
  }

  datatype EntryReply = Redirect(id: int) | Missing(fields: seq<string>) | DatabaseError

  /** The required fields left empty, in the order of the form. */
  function EmptyFields(fields: seq<string>, post: Fields): (missing: seq<string>)
    ensures missing == [] <==> forall f | f in fields :: !IsEmpty(post, f)
    ensures forall f :: f in missing <==> f in fields && IsEmpty(post, f)
  {
    if fields == [] then []
    else
      var last := fields[|fields| - 1];
      assert fields == fields[..|fields| - 1] + [last];
      EmptyFields(fields[..|fields| - 1], post) + if IsEmpty(post, last) then [last] else []
  }

  /** missing is what stands in fields at the places places, which are those of
      all the empty fields, in ascending order. */
  ghost predicate AreEmptyPlaces(fields: seq<string>, post: Fields, places: seq<nat>, missing: seq<string>) {
    && |places| == |missing|
    && (forall i, j | 0 <= i < j < |places| :: places[i] < places[j])
    && (forall i | 0 <= i < |places| :: places[i] < |fields| && missing[i] == fields[places[i]])
    && (forall k: nat | k < |fields| :: k in places <==> IsEmpty(post, fields[k]))
  }

  /** missing lists exactly the empty fields, in their order and each place once. */
  ghost predicate ListsEmptyFields(fields: seq<string>, post: Fields, missing: seq<string>) {
    exists places :: AreEmptyPlaces(fields, post, places, missing)
  }

  lemma NextPlace(fields: seq<string>, post: Fields, places: seq<nat>, missing: seq<string>)
    requires fields != [] && AreEmptyPlaces(fields[..|fields| - 1], post, places, missing)
    ensures var last := |fields| - 1;
            if IsEmpty(post, fields[last]) then AreEmptyPlaces(fields, post, places + [last], missing + [fields[last]])
            else AreEmptyPlaces(fields, post, places, missing)
  {
    var last := |fields| - 1;
    assert forall k | 0 <= k < last :: fields[..last][k] == fields[k];
    assert forall k: nat :: k in places + [last] <==> k in places || k == last;
    assert last !in places;
  }

  lemma {:induction false} EmptyFieldsInOrder(fields: seq<string>, post: Fields) returns (places: seq<nat>)
    ensures AreEmptyPlaces(fields, post, places, EmptyFields(fields, post))
  {
    if fields == [] {
      places := [];
    } else {
      var last := |fields| - 1;
      places := EmptyFieldsInOrder(fields[..last], post);
      NextPlace(fields, post, places, EmptyFields(fields[..last], post));
      if IsEmpty(post, fields[last]) {
        places := places + [last];
      }
    }
  }

  method FindMissing(fields: seq<string>, post: Fields) returns (missing: seq<string>)
    ensures missing == EmptyFields(fields, post)
    ensures ListsEmptyFields(fields, post, missing)
  {
    missing := [];
    var i := 0;
    while i < |fields|
      invariant 0 <= i <= |fields|
      invariant missing == EmptyFields(fields[..i], post)
    {
      assert fields[..i + 1][..i] == fields[..i];
      if IsEmpty(post, fields[i]) {
        missing := missing + [fields[i]];
      }
      i := i + 1;
    }
    assert fields[..|fields|] == fields;
    ghost var places := EmptyFieldsInOrder(fields, post);
  }

  method NewEntry(db: Database, session: Session, post: Fields, executes: bool, now: int, later: int)
    returns (reply: EntryReply)
    requires db.Valid()
    modifies db
    ensures db.Valid()
    ensures reply.Redirect? ==>
              && reply.id !in old(db.assets)
              && Logged(InsertAsset(old(db.View()), NewAssetFields(post), now), db.View(),
                        session.user, Added(reply.id), later)
              && reply.id == old(db.nextAsset)
              && EntryStored(old(db.View()), db.View(), session.user, post, now, later)
              && (forall f | f in REQUIRED_FIELDS :: !IsEmpty(db.assets[reply.id].fields, f))
    ensures !reply.Redirect? ==> db.View() == old(db.View())
    ensures reply.Missing? <==> exists f :: f in REQUIRED_FIELDS && (f !in post || post[f] in {"", "0"})
    ensures reply.Missing? ==>
              reply.fields == EmptyFields(REQUIRED_FIELDS, post) && ListsEmptyFields(REQUIRED_FIELDS, post, reply.fields)
    ensures reply.DatabaseError? ==> !executes
    ensures reply.Redirect? ==> executes
  {
    var missing := FindMissing(REQUIRED_FIELDS, post);
    if missing != [] {
      return Missing(missing);
    }
    if !executes {
      return DatabaseError;
    }
    var id := db.Insert(NewAssetFields(post), now);
    db.InsertLogRow(session.user, Added(id), later);
    db.TrimLog();
    EntryIsStored(old(db.View()), db.View(), session.user, post, now, later);
    CompleteRow(db.assets[id].fields, post);
    return Redirect(id);
  }

  datatype UndoReply = NoRecords | Undone | Failed

  method Undo(db: Database, session: Session) returns (reply: UndoReply)
    requires db.Valid()
    modifies db, session`deletedRecords
    ensures db.Valid()
    ensures db.log == old(db.log) && db.history == old(db.history) && db.nextLog == old(db.nextLog)
    ensures old(session.deletedRecords).None? ==>
              reply.NoRecords? && db.View() == old(db.View()) && session.deletedRecords.None?
    ensures old(session.deletedRecords).Some? ==>
              var records := old(session.deletedRecords).value;
              var k := UndoDelete.Accepted(old(db.assets), records);
              && db.assets == UndoDelete.Restored(old(db.assets), records[..k])
              && reply == (if k == |records| then Undone else Failed)
              && session.deletedRecords == (if k == |records| then None else Some(records))
  {
    if session.deletedRecords.None? {
      return NoRecords;
    }
    var records := session.deletedRecords.value;
    var success := true;
    var i := 0;
    while i < |records|
      invariant 0 <= i <= |records| && success
      invariant db.Valid()
      invariant db.log == old(db.log) && db.history == old(db.history) && db.nextLog == old(db.nextLog)
      invariant session.deletedRecords == old(session.deletedRecords)
      invariant UndoDelete.Accepted(old(db.assets), records) == i + UndoDelete.Accepted(db.assets, records[i..])
      invariant db.assets == UndoDelete.Restored(old(db.assets), records[..i])
    {
      assert records[i..][1..] == records[i + 1..];
      var ok := db.Restore(records[i]);
      if !ok {
        success := false;
        break;
      }
      UndoDelete.RestoredSnoc(old(db.assets), records[..i], records[i]);
      assert records[..i] + [records[i]] == records[..i + 1];
      i := i + 1;
    }
    if success {
      session.deletedRecords := None;
      assert records[..|records|] == records;
      return Undone;
    } else {
      return Failed;
    }
  }

  // ----- the handlers and the state machine -----

  /** A write handler that nobody interrupts is a run of three steps of the state
      machine: whatever store it leaves, some choice of ties in the trim leaves
      the same one there, and the queue changes as Requests says. */
  lemma UninterruptedHandlerIsARun(s: Requests.System, change: Requests.Step, now: int, st: Store)
    returns (kept: set<Entry>)
    requires change.Update? || change.Delete? || change.Add?
    requires Requests.Enabled(s, change)
    requires change.Update? ==>
               Logged(UpdateAsset(s.store, change.id, change.fields, change.now), st,
                      s.clients[change.c].user, Edited(change.id), now)
    requires change.Delete? ==>
               Logged(DeleteAssets(s.store, change.ids), st, s.clients[change.c].user, Deleted(change.ids), now)
    requires change.Add? ==>
               Logged(InsertAsset(s.store, change.fields, change.now), st,
                      s.clients[change.c].user, Added(s.store.nextAsset), now)
    ensures var steps := [change, Requests.Log(change.c, now), Requests.Trim(change.c, kept)];
            && Requests.Runs(s, steps)
            && Requests.Exec(s, steps).store == st
            && Requests.Exec(s, steps).clients == s.clients[change.c := s.clients[change.c].(queue :=
                 Requests.Dequeued(s.clients[change.c].queue, if change.Update? then Some(change.id) else None))]
  {
    kept := st.log;
    var log, trim := Requests.Log(change.c, now), Requests.Trim(change.c, kept);
    var s1 := Requests.Apply(s, change);
    var s2 := Requests.Apply(s1, log);
    var s3 := Requests.Apply(s2, trim);
    Requests.RunCons(s2, trim, []);
    Requests.RunCons(s1, log, [trim]);
    Requests.RunCons(s, change, [log] + [trim]);
    assert [change] + ([log] + [trim]) == [change, log, trim];
  }
  /** A request to edit_asset.php that nobody interrupts is a run, too: one
      LoadQueue step if a selection was posted, then the three steps of an edit if
      a form was submitted. */
  lemma UninterruptedEditIsARun(s: Requests.System, c: nat, req: EditRequest, now: int, later: int, st: Store)
    returns (steps: seq<Requests.Step>)
    requires c < |s.clients| && s.clients[c].phase.Idle?
    requires req.update.None? ==> st == s.store
    requires req.update.Some? ==>
               var form := req.update.value;
               Logged(UpdateAsset(s.store, form.id, EditedAssetFields(form.post), now), st,
                      s.clients[c].user, Edited(form.id), later)
    ensures |steps| == (if req.selectedIds.Some? then 1 else 0) + if req.update.Some? then 3 else 0
    ensures req.selectedIds.Some? ==> steps[0] == Requests.LoadQueue(c, req.selectedIds.value)
    ensures Requests.Runs(s, steps)
    ensures var s' := Requests.Exec(s, steps);
            && s'.store == st
            && s'.clients == s.clients[c := s.clients[c].(queue := QueueAfter(s.clients[c].queue, req))]
  {
    var load := if req.selectedIds.Some? then [Requests.LoadQueue(c, req.selectedIds.value)] else [];
    var s1 := Loaded(s, c, req, load);
    var edit := [];
    if req.update.Some? {
      var form := req.update.value;
      var change := Requests.Update(c, form.id, EditedAssetFields(form.post), now);
      var kept := UninterruptedHandlerIsARun(s1, change, later, st);
      edit := [change, Requests.Log(c, later), Requests.Trim(c, kept)];
    }
    Requests.RunAppend(s, load, edit);
    steps := load + edit;
  }

  lemma Loaded(s: Requests.System, c: nat, req: EditRequest, load: seq<Requests.Step>) returns (s1: Requests.System)
    requires c < |s.clients| && s.clients[c].phase.Idle?
    requires load == if req.selectedIds.Some? then [Requests.LoadQueue(c, req.selectedIds.value)] else []
    ensures Requests.Runs(s, load) && s1 == Requests.Exec(s, load)
    ensures s1.store == s.store
    ensures s1.clients == s.clients[c := s.clients[c].(
              queue := if req.selectedIds.Some? then req.selectedIds.value else s.clients[c].queue)]
  {
    s1 := if load == [] then s else Requests.Apply(s, load[0]);
    if load != [] {
      Requests.RunCons(s, load[0], []);
      assert [load[0]] + [] == load;
    }
  }
}
