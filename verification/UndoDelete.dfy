/** The reinsertion loop of undo_delete.php: it stops at the first row that the
    primary key refuses. */
module UndoDelete {
  import opened Inventory

  /** How many records go in before one fails. */
  function Accepted(assets: map<int, Asset>, records: seq<Record>): (k: nat)
    ensures k <= |records|
    decreases |records|
  {
    if records == [] || records[0].id in assets then 0
    else 1 + Accepted(assets[records[0].id := records[0].asset], records[1..])
  }

  /** The table with records put back. */
  function Restored(assets: map<int, Asset>, records: seq<Record>): map<int, Asset>
    decreases |records|
  {
    if records == [] then assets
    else Restored(assets[records[0].id := records[0].asset], records[1..])
  }

  function Ids(records: seq<Record>): set<int> {
    set r | r in records :: r.id
  }

  ghost predicate DistinctIds(records: seq<Record>) {
    forall i, j | 0 <= i < j < |records| :: records[i].id != records[j].id
  }

  lemma {:induction false} RestoredKeys(assets: map<int, Asset>, records: seq<Record>)
    ensures Restored(assets, records).Keys == assets.Keys + Ids(records)
    decreases |records|
  {
    if records == [] {
    } else {
      RestoredKeys(assets[records[0].id := records[0].asset], records[1..]);
      assert records == [records[0]] + records[1..];
    }
  }

  lemma {:induction false} RestoredSnoc(assets: map<int, Asset>, records: seq<Record>, r: Record)
    ensures Restored(assets, records + [r]) == Restored(assets, records)[r.id := r.asset]
    decreases |records|
  {
    if records == [] {
      assert [r][1..] == [];
    } else {
      assert (records + [r])[1..] == records[1..] + [r];
      RestoredSnoc(assets[records[0].id := records[0].asset], records[1..], r);
    }
  }

  /** Exactly the first k records are in, each with its own values, and no other
      row is touched; the next one is refused. */
  lemma {:induction false} FirstRecordsAreIn(assets: map<int, Asset>, records: seq<Record>)
    ensures var k := Accepted(assets, records);
            var after := Restored(assets, records[..k]);
            && after.Keys == assets.Keys + Ids(records[..k])
            && (forall id | id in assets :: after[id] == assets[id])
            && (forall i | 0 <= i < k :: records[i].id !in assets && after[records[i].id] == records[i].asset)
            && (k < |records| ==> records[k].id in after)
    decreases |records|
  {
    var k := Accepted(assets, records);
    RestoredKeys(assets, records[..k]);
    if k > 0 {
      var one := assets[records[0].id := records[0].asset];
      FirstRecordsAreIn(one, records[1..]);
      assert records[1..][..k - 1] == records[..k][1..];
      forall i | 0 <= i < k
        ensures records[i].id !in assets
        ensures Restored(assets, records[..k])[records[i].id] == records[i].asset
      {
        if i > 0 {
          assert records[i] == records[1..][i - 1];
        }
      }
    } else {
      assert records[..k] == [];
    }
  }

  /** Everything goes in exactly when the records have distinct ids, none of them
      taken. */
  lemma {:induction false} AllAcceptedIff(assets: map<int, Asset>, records: seq<Record>)
    ensures Accepted(assets, records) == |records| <==> DistinctIds(records) && Ids(records) !! assets.Keys
    decreases |records|
  {
    if records == [] {
    } else {
      var one := assets[records[0].id := records[0].asset];
      AllAcceptedIff(one, records[1..]);
      assert forall i | 1 <= i < |records| :: records[i] == records[1..][i - 1];
      assert records == [records[0]] + records[1..];
      assert Ids(records) == Ids(records[1..]) + {records[0].id};
      if records[0].id in assets {
        assert records[0].id in Ids(records);
      }
    }
  }

  /** After a failed undo every retry that still finds those rows fails at once:
      it accepts no record and so changes nothing. */
  lemma RetryChangesNothing(assets: map<int, Asset>, records: seq<Record>, later: map<int, Asset>)
    requires Accepted(assets, records) < |records|
    requires Restored(assets, records[..Accepted(assets, records)]).Keys <= later.Keys
    ensures Accepted(later, records) == 0
  {
    var k := Accepted(assets, records);
    FirstRecordsAreIn(assets, records);
    if k > 0 {
      assert records[0] in records[..k];
    }
  }
}
