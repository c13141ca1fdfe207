/** The server actions of app/lib/actions.ts that carry logic: saving an
    owner's whole link list against the `link` table (saveLinks), and the
    small pure rules of the avatar upload, the profile image check and the
    verification e-mail. */
module Actions {
  import opened Wrappers
  import opened Types

  /** The session's user id (a text column). */
  type UserId = string

  /** One row of the `link` table, keyed by its id. */
  datatype Row = Row(owner: UserId, website: Website, username: string, position: int)

  /** The `link` table and the next value of its id sequence. */
  datatype Table = Table(rows: map<int, Row>, nextId: int)

  /** Fits the SQL `int` (4-byte) type. */
  predicate FitsInt4(x: int) {
    -0x8000_0000 <= x < 0x8000_0000
  }

  /** Fits the SQL `bigint` (8-byte) type. */
  predicate FitsInt8(x: int) {
    -0x8000_0000_0000_0000 <= x < 0x8000_0000_0000_0000
  }

  /** What the table's column types and its id sequence guarantee: ids are
      positive bigints, positions are ints, the sequence starts above 0. */
  predicate ValidTable(t: Table) {
    t.nextId > 0
    && forall id :: id in t.rows ==> 0 < id && FitsInt8(id) && FitsInt4(t.rows[id].position)
  }

  /** The ways the save transaction can fail. */
  datatype SaveError =
    | IdOutOfRange        // a submitted id does not fit the bigint array cast
    | PositionOutOfRange  // a submitted position does not fit the int column
    | DuplicateClaim      // one upsert statement would update the same row twice
    | IdsExhausted        // the id sequence has left the bigint range
    | IdTaken(id: int)    // the id drawn for a new row already names a row

  /** The result of saveLinks: it returns nothing when there is no list or
      no session, and a failure with the error when the transaction fails. */
  datatype SaveOutcome = Skipped | Saved | Failed(error: SaveError)

  // ---------------------------------------------------------------------
  // Partition of the submitted list by the sign of the id
  // ---------------------------------------------------------------------

  /** The entries with a positive id: rows the client claims are stored. */
  function Claimed(links: seq<UserLink>): (r: seq<UserLink>)
    ensures forall i :: 0 <= i < |r| ==> r[i].id > 0
  {
    if links == [] then []
    else if links[0].id > 0 then [links[0]] + Claimed(links[1..])
    else Claimed(links[1..])
  }

  /** The entries with a negative id: entries the client has just added. */
  function Pending(links: seq<UserLink>): (r: seq<UserLink>)
    ensures forall i :: 0 <= i < |r| ==> r[i].id < 0
  {
    if links == [] then []
    else if links[0].id < 0 then [links[0]] + Pending(links[1..])
    else Pending(links[1..])
  }

  /** The partition is a filter: each entry with a positive id is claimed
      as often as it occurs, each with a negative id is pending as often as
      it occurs, and nothing else is in either part. */
  lemma {:induction false} PartitionIsFilter(links: seq<UserLink>)
    ensures forall l :: multiset(Claimed(links))[l] == if l.id > 0 then multiset(links)[l] else 0
    ensures forall l :: multiset(Pending(links))[l] == if l.id < 0 then multiset(links)[l] else 0
  {
    if links != [] {
      PartitionIsFilter(links[1..]);
      assert links == [links[0]] + links[1..];
    }
  }

  /** The partition of a concatenation is the concatenation of the
      partitions. */
  lemma PartitionConcat(a: seq<UserLink>, b: seq<UserLink>)
    ensures Claimed(a + b) == Claimed(a) + Claimed(b)
    ensures Pending(a + b) == Pending(a) + Pending(b)
  {
    ClaimedConcat(a, b);
    PendingConcat(a, b);
  }

  lemma {:induction false} ClaimedConcat(a: seq<UserLink>, b: seq<UserLink>)
    ensures Claimed(a + b) == Claimed(a) + Claimed(b)
  {
    if a == [] {
      assert a + b == b;
    } else {
      assert (a + b)[0] == a[0];
      assert (a + b)[1..] == a[1..] + b;
      ClaimedConcat(a[1..], b);
    }
  }

  lemma {:induction false} PendingConcat(a: seq<UserLink>, b: seq<UserLink>)
    ensures Pending(a + b) == Pending(a) + Pending(b)
  {
    if a == [] {
      assert a + b == b;
    } else {
      assert (a + b)[0] == a[0];
      assert (a + b)[1..] == a[1..] + b;
      PendingConcat(a[1..], b);
    }
  }

  /** The ids kept by the delete: the claimed ids, or the sentinel [-1]
      when there are none. */
  function KeepList(links: seq<UserLink>): (r: seq<int>)
    ensures r != []
    ensures forall id :: id in r ==> id == -1 || id in Ids(Claimed(links))
    ensures forall id :: id in Ids(Claimed(links)) ==> id in r
  {
    var claimedIds := Ids(Claimed(links));
    if |claimedIds| > 0 then claimedIds else [-1]
  }

  predicate IdsFitInt8(ids: seq<int>) {
    forall i :: 0 <= i < |ids| ==> FitsInt8(ids[i])
  }

  predicate PositionsFitInt4(links: seq<UserLink>) {
    forall i :: 0 <= i < |links| ==> FitsInt4(links[i].position)
  }

  // ---------------------------------------------------------------------
  // The three phases
  // ---------------------------------------------------------------------

  /** Phase 1, the exclusion delete: the owner's rows whose id is not in
      `keep` go; every other row stays as it is. */
  function DeleteExcluded(rows: map<int, Row>, owner: UserId, keep: seq<int>): (r: map<int, Row>)
    ensures forall id :: id in r ==> id in rows && r[id] == rows[id]
    ensures forall id :: id in rows && rows[id].owner != owner ==> id in r
    ensures forall id :: id in rows && id in keep ==> id in r
    ensures forall id :: id in r && r[id].owner == owner ==> id in keep
  {
    map id | id in rows && (rows[id].owner != owner || id in keep) :: rows[id]
  }

  /** The row the upsert leaves for a claimed entry: an existing row keeps
      its owner and takes the entry's website, username and position; a
      missing one is created for `owner` under the claimed id. */
  function Written(rows: map<int, Row>, owner: UserId, l: UserLink): (r: Row)
    ensures r.website == l.website && r.username == l.username && r.position == l.position
    ensures r.owner == if l.id in rows then rows[l.id].owner else owner
  {
    if l.id in rows then
      rows[l.id].(website := l.website, username := l.username, position := l.position)
    else
      Row(owner, l.website, l.username, l.position)
  }

  /** Phase 2, the upsert of the claimed entries, one after the other. */
  function UpsertAll(rows: map<int, Row>, owner: UserId, claimed: seq<UserLink>): map<int, Row>
    decreases |claimed|
  {
    if claimed == [] then rows
    else UpsertAll(rows[claimed[0].id := Written(rows, owner, claimed[0])], owner, claimed[1..])
  }

  /** The upsert adds exactly the claimed ids, leaves every other row as it
      was, and, when no id is claimed twice, leaves under each claimed id
      the row written for its entry. */
  lemma UpsertAllSpec(rows: map<int, Row>, owner: UserId, claimed: seq<UserLink>)
    ensures forall id :: id in UpsertAll(rows, owner, claimed) <==> id in rows || id in Ids(claimed)
    ensures forall id :: id in rows && id !in Ids(claimed) ==> UpsertAll(rows, owner, claimed)[id] == rows[id]
    ensures DistinctIds(claimed) ==>
      forall i :: 0 <= i < |claimed| ==>
        claimed[i].id in UpsertAll(rows, owner, claimed)
        && UpsertAll(rows, owner, claimed)[claimed[i].id] == Written(rows, owner, claimed[i])
  {
    UpsertAllKeeps(rows, owner, claimed);
    if DistinctIds(claimed) {
      UpsertAllWrites(rows, owner, claimed);
    }
  }

  lemma {:induction false} UpsertAllKeeps(rows: map<int, Row>, owner: UserId, claimed: seq<UserLink>)
    decreases |claimed|
    ensures forall id :: id in UpsertAll(rows, owner, claimed) <==> id in rows || id in Ids(claimed)
    ensures forall id :: id in rows && id !in Ids(claimed) ==> UpsertAll(rows, owner, claimed)[id] == rows[id]
  {
    if claimed != [] {
      var c := claimed[0];
      var next := rows[c.id := Written(rows, owner, c)];
      UpsertAllKeeps(next, owner, claimed[1..]);
      assert UpsertAll(rows, owner, claimed) == UpsertAll(next, owner, claimed[1..]);
      assert Ids(claimed) == [c.id] + Ids(claimed[1..]);
    }
  }

  lemma {:induction false} UpsertAllWrites(rows: map<int, Row>, owner: UserId, claimed: seq<UserLink>)
    requires DistinctIds(claimed)
    decreases |claimed|
    ensures forall i :: 0 <= i < |claimed| ==>
      claimed[i].id in UpsertAll(rows, owner, claimed)
      && UpsertAll(rows, owner, claimed)[claimed[i].id] == Written(rows, owner, claimed[i])
  {
    if claimed != [] {
      var c := claimed[0];
      var next := rows[c.id := Written(rows, owner, c)];
      var tail := claimed[1..];
      assert UpsertAll(rows, owner, claimed) == UpsertAll(next, owner, tail);
      assert DistinctIds(tail);
      UpsertAllWrites(next, owner, tail);
      assert c.id !in Ids(tail) by {
        forall i | 0 <= i < |tail| ensures Ids(tail)[i] != c.id {
          assert tail[i] == claimed[i + 1];
        }
      }
      UpsertAllKeeps(next, owner, tail);
      forall i | 1 <= i < |claimed|
        ensures UpsertAll(next, owner, tail)[claimed[i].id] == Written(rows, owner, claimed[i])
      {
        assert claimed[i] == tail[i - 1];
      }
    }
  }

  /** The row inserted for a pending entry. */
  function NewRow(owner: UserId, l: UserLink): Row {
    Row(owner, l.website, l.username, l.position)
  }

  /** Phase 3, the inserts of the pending entries in list order, each under
      the next id of the sequence; the submitted negative id is not used. */
  function InsertAll(t: Table, owner: UserId, pending: seq<UserLink>): (r: Result<Table, SaveError>)
    decreases |pending|
    ensures r.Ok? ==> r.value.nextId == t.nextId + |pending|
  {
    if pending == [] then Ok(t)
    else
      var l := pending[0];
      if !FitsInt4(l.position) then Err(PositionOutOfRange)
      else if !FitsInt8(t.nextId) then Err(IdsExhausted)
      else if t.nextId in t.rows then Err(IdTaken(t.nextId))
      else InsertAll(Table(t.rows[t.nextId := NewRow(owner, l)], t.nextId + 1), owner, pending[1..])
  }

  /** The inserts add exactly the ids drawn from the sequence and leave
      every existing row as it was. */
  lemma {:induction false} InsertAllFrame(t: Table, owner: UserId, pending: seq<UserLink>, after: Table)
    requires InsertAll(t, owner, pending) == Ok(after)
    ensures forall id :: id in after.rows <==> id in t.rows || t.nextId <= id < after.nextId
    ensures forall id :: id in t.rows ==> after.rows[id] == t.rows[id]
    decreases |pending|
  {
    if pending != [] {
      var t1 := Table(t.rows[t.nextId := NewRow(owner, pending[0])], t.nextId + 1);
      assert InsertAll(t, owner, pending) == InsertAll(t1, owner, pending[1..]);
      InsertAllFrame(t1, owner, pending[1..], after);
    }
  }

  /** Each id the inserts draw named no row before, and afterwards holds
      the pending entry it was drawn for. */
  lemma {:induction false} InsertAllAssigns(t: Table, owner: UserId, pending: seq<UserLink>, after: Table, id: int)
    requires InsertAll(t, owner, pending) == Ok(after)
    requires t.nextId <= id < t.nextId + |pending|
    ensures id !in t.rows && id in after.rows
    ensures after.rows[id] == NewRow(owner, pending[id - t.nextId])
    decreases |pending|
  {
    var t1 := Table(t.rows[t.nextId := NewRow(owner, pending[0])], t.nextId + 1);
    assert InsertAll(t, owner, pending) == InsertAll(t1, owner, pending[1..]);
    if id > t.nextId {
      InsertAllAssigns(t1, owner, pending[1..], after, id);
      assert pending[1..][id - t1.nextId] == pending[id - t.nextId];
    } else {
      InsertAllFrame(t1, owner, pending[1..], after);
      assert id in t1.rows;
    }
  }

  /** The table the delete and the upsert leave, before the inserts. */
  function Staged(t: Table, owner: UserId, links: seq<UserLink>): map<int, Row> {
    UpsertAll(DeleteExcluded(t.rows, owner, KeepList(links)), owner, Claimed(links))
  }

  /** The whole save transaction for `owner`: the table it commits, or the
      first error, in which case nothing of it takes effect. */
  function Reconcile(t: Table, owner: UserId, links: seq<UserLink>): Result<Table, SaveError> {
    if !IdsFitInt8(KeepList(links)) then Err(IdOutOfRange)
    else if !PositionsFitInt4(Claimed(links)) then Err(PositionOutOfRange)
    else if !DistinctIds(Claimed(links)) then Err(DuplicateClaim)
    else InsertAll(Table(Staged(t, owner, links), t.nextId), owner, Pending(links))
  }

  // ---------------------------------------------------------------------
  // The store
  // ---------------------------------------------------------------------

  /** The `link` table with its id sequence. */
  class LinkStore {
    var rows: map<int, Row>
    var nextId: int

    ghost predicate Valid()
      reads this
    {
      ValidTable(Table(rows, nextId))
    }

    constructor ()
      ensures Valid() && rows == map[] && nextId == 1
    {
      rows := map[];
      nextId := 1;
    }

    /** saveLinks: the owner comes from the session, never from the list.
        The transaction works on a private copy of the table and installs
        it only at COMMIT, so a failure leaves the table as it was. */
    method SaveLinks(session: Option<UserId>, links: Option<seq<UserLink>>) returns (outcome: SaveOutcome)
      requires Valid()
      modifies this
      ensures Valid()
      ensures links.None? || session.None? ==>
        outcome == Skipped && rows == old(rows) && nextId == old(nextId)
      ensures links.Some? && session.Some? ==>
        var result := Reconcile(old(Table(rows, nextId)), session.value, links.value);
        (result.Ok? ==> outcome == Saved && Table(rows, nextId) == result.value)
        && (result.Err? ==> outcome == Failed(result.error) && rows == old(rows) && nextId == old(nextId))
    {
      if links.None? {
        return Skipped;
      }
      if session.None? {
        return Skipped;
      }
      var owner := session.value;
      var submitted := links.value;
      ghost var before := Table(rows, nextId);

      // BEGIN
      var work := rows;

      var keep := KeepList(submitted);
      if !IdsFitInt8(keep) {
        return Failed(IdOutOfRange);
      }
      work := DeleteExcluded(work, owner, keep);

      var claimed := Claimed(submitted);
      if !PositionsFitInt4(claimed) {
        return Failed(PositionOutOfRange);
      }
      if !DistinctIds(claimed) {
        return Failed(DuplicateClaim);
      }
      work := UpsertAll(work, owner, claimed);

      var pending := Pending(submitted);
      var next := nextId;
      ghost var staged := Table(work, next);
      assert Reconcile(before, owner, submitted) == InsertAll(staged, owner, pending);
      for i := 0 to |pending|
        invariant InsertAll(staged, owner, pending) == InsertAll(Table(work, next), owner, pending[i..])
      {
        var l := pending[i];
        assert pending[i..][0] == l && pending[i..][1..] == pending[i + 1..];
        if !FitsInt4(l.position) {
          return Failed(PositionOutOfRange);
        }
        if !FitsInt8(next) {
          return Failed(IdsExhausted);
        }
        if next in work {
          return Failed(IdTaken(next));
        }
        work := work[next := NewRow(owner, l)];
        next := next + 1;
      }

      // COMMIT
      ReconcileKeepsValid(before, owner, submitted);
      rows, nextId := work, next;
      return Saved;
    }
  }

  // ---------------------------------------------------------------------
  // Properties of the save
  // ---------------------------------------------------------------------

  /** What a successful Reconcile had to pass: the range checks, no id
      claimed twice, and the inserts on top of the staged table. */
  lemma ReconcileOk(t: Table, owner: UserId, links: seq<UserLink>)
    requires Reconcile(t, owner, links).Ok?
    ensures IdsFitInt8(KeepList(links)) && PositionsFitInt4(Claimed(links))
    ensures DistinctIds(Claimed(links))
    ensures Reconcile(t, owner, links) == InsertAll(Table(Staged(t, owner, links), t.nextId), owner, Pending(links))
  {
  }

  /** The committed table: the staged rows unchanged, plus the rows
      inserted under the ids the sequence handed out. */
  lemma ReconcileFrame(t: Table, owner: UserId, links: seq<UserLink>, after: Table)
    requires Reconcile(t, owner, links) == Ok(after)
    ensures after.nextId == t.nextId + |Pending(links)|
    ensures forall id :: id in after.rows <==> id in Staged(t, owner, links) || t.nextId <= id < after.nextId
    ensures forall id :: id in Staged(t, owner, links) ==> after.rows[id] == Staged(t, owner, links)[id]
  {
    ReconcileOk(t, owner, links);
    InsertAllFrame(Table(Staged(t, owner, links), t.nextId), owner, Pending(links), after);
  }

  /** A committed save keeps the table's invariant: in particular no
      negative (client-minted) id is ever stored. */
  lemma ReconcileKeepsValid(t: Table, owner: UserId, links: seq<UserLink>)
    requires ValidTable(t) && Reconcile(t, owner, links).Ok?
    ensures ValidTable(Reconcile(t, owner, links).value)
  {
    ReconcileOk(t, owner, links);
    var claimed := Claimed(links);
    var deleted := DeleteExcluded(t.rows, owner, KeepList(links));
    var staged := Staged(t, owner, links);
    UpsertAllSpec(deleted, owner, claimed);
    forall id | id in staged
      ensures 0 < id && FitsInt8(id) && FitsInt4(staged[id].position)
    {
      if id in Ids(claimed) {
        var i :| 0 <= i < |claimed| && Ids(claimed)[i] == id;
        assert claimed[i] in claimed;
        assert Ids(claimed) == KeepList(links);
        assert staged[id] == Written(deleted, owner, claimed[i]);
      }
    }
    InsertAllKeepsValid(Table(staged, t.nextId), owner, Pending(links));
  }

  lemma {:induction false} InsertAllKeepsValid(t: Table, owner: UserId, pending: seq<UserLink>)
    requires ValidTable(t) && InsertAll(t, owner, pending).Ok?
    ensures ValidTable(InsertAll(t, owner, pending).value)
    decreases |pending|
  {
    if pending != [] {
      var l := pending[0];
      InsertAllKeepsValid(Table(t.rows[t.nextId := NewRow(owner, l)], t.nextId + 1), owner, pending[1..]);
    }
  }

  /** The owner's rows other than those just inserted all carry an id the
      list claims: every stored row missing from the list is deleted. */
  lemma SaveRemovesUnlisted(t: Table, owner: UserId, links: seq<UserLink>, after: Table)
    requires ValidTable(t) && Reconcile(t, owner, links) == Ok(after)
    ensures forall id :: id in after.rows && after.rows[id].owner == owner ==>
      id in Ids(Claimed(links)) || t.nextId <= id < after.nextId
  {
    ReconcileFrame(t, owner, links, after);
    var claimed := Claimed(links);
    var deleted := DeleteExcluded(t.rows, owner, KeepList(links));
    var staged := Staged(t, owner, links);
    UpsertAllSpec(deleted, owner, claimed);
    forall id | id in after.rows && after.rows[id].owner == owner && !(t.nextId <= id < after.nextId)
      ensures id in Ids(claimed)
    {
      assert id in staged;
    }
  }

  /** The rows of everybody but `owner`. */
  function OthersRows(rows: map<int, Row>, owner: UserId): map<int, Row> {
    map id | id in rows && rows[id].owner != owner :: rows[id]
  }

  /** A list without positive ids keeps none of the owner's rows: the
      sentinel [-1] matches no stored id, so the delete removes them all
      and only them. */
  lemma SentinelDeletesAllOwnerRows(t: Table, owner: UserId, links: seq<UserLink>)
    requires ValidTable(t) && Ids(Claimed(links)) == []
    ensures DeleteExcluded(t.rows, owner, KeepList(links)) == OthersRows(t.rows, owner)
  {
    var deleted := DeleteExcluded(t.rows, owner, KeepList(links));
    assert KeepList(links) == [-1];
    forall id | id in deleted ensures deleted[id].owner != owner {
      assert id > 0;
    }
  }

  /** Saving the empty list deletes exactly the owner's rows. */
  lemma SaveEmptyList(t: Table, owner: UserId)
    requires ValidTable(t)
    ensures Reconcile(t, owner, []) == Ok(Table(OthersRows(t.rows, owner), t.nextId))
  {
    SentinelDeletesAllOwnerRows(t, owner, []);
    assert Staged(t, owner, []) == DeleteExcluded(t.rows, owner, [-1]);
  }

  /** Rows of other owners are never deleted; they keep their owner, and
      those whose id the list does not claim keep all their fields. */
  lemma SaveIsolatesOtherOwners(t: Table, owner: UserId, links: seq<UserLink>, after: Table)
    requires Reconcile(t, owner, links) == Ok(after)
    ensures forall id :: id in t.rows && t.rows[id].owner != owner ==>
      id in after.rows && after.rows[id].owner == t.rows[id].owner
      && (id !in Ids(Claimed(links)) ==> after.rows[id] == t.rows[id])
  {
    ReconcileFrame(t, owner, links, after);
    ReconcileOk(t, owner, links);
    var claimed := Claimed(links);
    var deleted := DeleteExcluded(t.rows, owner, KeepList(links));
    var staged := Staged(t, owner, links);
    UpsertAllSpec(deleted, owner, claimed);
    forall id | id in t.rows && t.rows[id].owner != owner
      ensures id in staged && staged[id].owner == t.rows[id].owner
    {
      if id in Ids(claimed) {
        var i :| 0 <= i < |claimed| && Ids(claimed)[i] == id;
        assert staged[id] == Written(deleted, owner, claimed[i]);
      }
    }
  }

  /** Each claimed entry ends up as the row with its id, carrying its
      website, username and position; an existing row keeps its owner,
      even one that belongs to somebody else. */
  lemma SaveWritesClaimed(t: Table, owner: UserId, links: seq<UserLink>, after: Table)
    requires Reconcile(t, owner, links) == Ok(after)
    ensures forall i :: 0 <= i < |Claimed(links)| ==>
      var c := Claimed(links)[i];
      c.id in after.rows
      && after.rows[c.id].website == c.website
      && after.rows[c.id].username == c.username
      && after.rows[c.id].position == c.position
      && after.rows[c.id].owner == if c.id in t.rows then t.rows[c.id].owner else owner
  {
    ReconcileFrame(t, owner, links, after);
    ReconcileOk(t, owner, links);
    var claimed := Claimed(links);
    var deleted := DeleteExcluded(t.rows, owner, KeepList(links));
    UpsertAllSpec(deleted, owner, claimed);
    forall i | 0 <= i < |claimed|
      ensures claimed[i].id in t.rows ==> claimed[i].id in deleted
    {
      assert Ids(claimed)[i] == claimed[i].id;
      assert KeepList(links) == Ids(claimed);
    }
  }

  /** Each pending entry becomes exactly one new row of the owner, under
      the next ids of the sequence, in list order; no such id is one the
      list claims. */
  lemma SaveInsertsPending(t: Table, owner: UserId, links: seq<UserLink>, after: Table)
    requires Reconcile(t, owner, links) == Ok(after)
    ensures forall id :: t.nextId <= id < after.nextId ==>
      id in after.rows && id !in Ids(Claimed(links))
      && after.rows[id] == NewRow(owner, Pending(links)[id - t.nextId])
  {
    ReconcileOk(t, owner, links);
    StagedInsertsPending(t, owner, links, after);
  }

  /** SaveInsertsPending, for the inserts on top of the staged table. */
  lemma StagedInsertsPending(t: Table, owner: UserId, links: seq<UserLink>, after: Table)
    requires InsertAll(Table(Staged(t, owner, links), t.nextId), owner, Pending(links)) == Ok(after)
    ensures forall id :: t.nextId <= id < after.nextId ==>
      id in after.rows && id !in Ids(Claimed(links))
      && after.rows[id] == NewRow(owner, Pending(links)[id - t.nextId])
  {
    StagedHoldsClaimed(t, owner, links);
    InsertAllFresh(Staged(t, owner, links), t.nextId, owner, Pending(links), after, Ids(Claimed(links)));
  }

  /** Every claimed id names a row once the upsert is done. */
  lemma StagedHoldsClaimed(t: Table, owner: UserId, links: seq<UserLink>)
    ensures forall x :: x in Ids(Claimed(links)) ==> x in Staged(t, owner, links)
  {
    UpsertAllSpec(DeleteExcluded(t.rows, owner, KeepList(links)), owner, Claimed(links));
  }

  /** The inserts on top of `rows`, starting the sequence at `start`, use
      fresh ids only, so none of them is an id already present, in
      particular none of the ids in `present`. */
  lemma InsertAllFresh(rows: map<int, Row>, start: int, owner: UserId, pending: seq<UserLink>,
                       after: Table, present: seq<int>)
    requires InsertAll(Table(rows, start), owner, pending) == Ok(after)
    requires forall x :: x in present ==> x in rows
    ensures after.nextId == start + |pending|
    ensures forall id :: start <= id < after.nextId ==>
      id in after.rows && id !in present
      && after.rows[id] == NewRow(owner, pending[id - start])
  {
    forall id | start <= id < after.nextId
      ensures id in after.rows && id !in present
        && after.rows[id] == NewRow(owner, pending[id - start])
    {
      InsertAllAssigns(Table(rows, start), owner, pending, after, id);
    }
  }

  /** The save sees the list only through its two parts. */
  lemma ReconcileSeesOnlyPartition(t: Table, owner: UserId, a: seq<UserLink>, b: seq<UserLink>)
    requires Claimed(a) == Claimed(b) && Pending(a) == Pending(b)
    ensures Reconcile(t, owner, a) == Reconcile(t, owner, b)
  {
    assert KeepList(a) == KeepList(b);
    assert Staged(t, owner, a) == Staged(t, owner, b);
  }

  /** An entry with id 0 is neither claimed nor pending: adding one
      anywhere to the list changes nothing about the save. */
  lemma SaveIgnoresZeroId(t: Table, owner: UserId, front: seq<UserLink>, zero: UserLink, back: seq<UserLink>)
    requires zero.id == 0
    ensures Reconcile(t, owner, front + [zero] + back) == Reconcile(t, owner, front + back)
  {
    PartitionConcat(front, [zero]);
    PartitionConcat(front + [zero], back);
    PartitionConcat(front, back);
    assert Claimed([zero]) == [] && Pending([zero]) == [] by {
      assert [zero][1..] == [];
    }
    assert Claimed(front) + [] == Claimed(front);
    assert Pending(front) + [] == Pending(front);
    ReconcileSeesOnlyPartition(t, owner, front + [zero] + back, front + back);
  }

  // ---------------------------------------------------------------------
  // Reading back, and re-saving what was read
  // ---------------------------------------------------------------------

  /** `out` is what the read of the owner's links may return: each of the
      owner's rows once, as an entry with its id, ordered by position. */
  predicate ReadResult(rows: map<int, Row>, owner: UserId, out: seq<UserLink>) {
    DistinctIds(out)
    && (forall i :: 0 <= i < |out| ==>
          out[i].id in rows
          && rows[out[i].id] == Row(owner, out[i].website, out[i].username, out[i].position))
    && (forall id :: id in rows && rows[id].owner == owner ==> id in Ids(out))
    && (forall i, j :: 0 <= i < j < |out| ==> out[i].position <= out[j].position)
  }

  lemma {:induction false} AllPositiveIsClaimed(links: seq<UserLink>)
    requires forall i :: 0 <= i < |links| ==> links[i].id > 0
    ensures Claimed(links) == links && Pending(links) == []
  {
    if links != [] {
      AllPositiveIsClaimed(links[1..]);
      assert links == [links[0]] + links[1..];
    }
  }

  /** Saving again exactly what the read returned leaves the table as it is. */
  lemma SaveIdempotent(t: Table, owner: UserId, out: seq<UserLink>)
    requires ValidTable(t) && ReadResult(t.rows, owner, out)
    ensures Reconcile(t, owner, out) == Ok(t)
  {
    AllPositiveIsClaimed(out);
    var keep := KeepList(out);
    assert IdsFitInt8(keep) by {
      if |Ids(out)| > 0 {
        forall i | 0 <= i < |keep| ensures FitsInt8(keep[i]) {
          assert keep[i] == out[i].id;
        }
      }
    }
    var deleted := DeleteExcluded(t.rows, owner, keep);
    assert deleted == t.rows by {
      forall id | id in t.rows ensures id in deleted {
        if t.rows[id].owner == owner {
          assert id in Ids(out);
          assert keep == Ids(out);
        }
      }
    }
    var staged := UpsertAll(deleted, owner, out);
    UpsertAllSpec(deleted, owner, out);
    assert staged == t.rows by {
      assert forall id :: id in t.rows ==> id in staged;
      forall id | id in staged ensures id in t.rows && staged[id] == t.rows[id] {
        if id in Ids(out) {
          var i :| 0 <= i < |out| && Ids(out)[i] == id;
          assert staged[id] == Written(t.rows, owner, out[i]);
        }
      }
    }
  }

  /** A foreign row named by a claimed id: the save commits and rewrites
      that row's fields while its owner stays the other user. */
  lemma ForeignClaimRewritesRow()
    ensures var t := Table(map[7 := Row("bob", GitHub, "bob", 1)], 8);
      Reconcile(t, "alice", [UserLink(7, YouTube, "alice", 1)])
        == Ok(Table(map[7 := Row("bob", YouTube, "alice", 1)], 8))
  {
    var t := Table(map[7 := Row("bob", GitHub, "bob", 1)], 8);
    var links := [UserLink(7, YouTube, "alice", 1)];
    assert links[1..] == [];
    assert Claimed(links) == links && Pending(links) == [];
    assert KeepList(links) == [7];
    assert DeleteExcluded(t.rows, "alice", [7]) == t.rows;
    assert Staged(t, "alice", links) == map[7 := Row("bob", YouTube, "alice", 1)];
  }

  // ---------------------------------------------------------------------
  // Avatar upload, profile image check, verification e-mail key
  // ---------------------------------------------------------------------

  /** The file extension of an uploaded avatar: jpg for JPEG, png for
      anything else. */
  function AvatarExtension(mimeType: string): (ext: string)
    ensures ext == "jpg" <==> mimeType == "image/jpeg"
    ensures ext != "jpg" ==> ext == "png"
    ensures |ext| == 3
  {
    if mimeType == "image/jpeg" then "jpg" else "png"
  }

  /** The object key of an uploaded avatar. */
  function AvatarKey(userId: UserId, uniqueId: string, mimeType: string): (key: string)
    ensures |key| == 13 + |userId| + |uniqueId|
    ensures key[..8] == "avatars/" && key[8..8 + |userId|] == userId
    ensures key[8 + |userId|] == '-'
    ensures key[9 + |userId|..9 + |userId| + |uniqueId|] == uniqueId
    ensures key[|key| - 4..] == "." + AvatarExtension(mimeType)
  {
    "avatars/" + userId + "-" + uniqueId + "." + AvatarExtension(mimeType)
  }

  /** With unique ids of one fixed length, as the upload draws them, a key
      determines the user, the unique id and the extension: avatars of
      different users, or with different unique ids, never share a key. */
  lemma AvatarKeyInjective(u1: UserId, id1: string, m1: string, u2: UserId, id2: string, m2: string)
    requires |id1| == |id2|
    requires AvatarKey(u1, id1, m1) == AvatarKey(u2, id2, m2)
    ensures u1 == u2 && id1 == id2 && AvatarExtension(m1) == AvatarExtension(m2)
  {
    var key := AvatarKey(u1, id1, m1);
    assert |u1| == |u2|;
    assert key[|key| - 3..] == AvatarExtension(m1) by {
      assert key[|key| - 3..] == key[|key| - 4..][1..];
    }
    assert key[|key| - 3..] == AvatarExtension(m2) by {
      assert key[|key| - 3..] == AvatarKey(u2, id2, m2)[|key| - 4..][1..];
    }
  }

  const MaxImageSide := 1024
  const ImageTooLargeMessage := "Image should be below 1024x1024px."

  /** The profile image check on decoded dimensions. */
  function ImageDimensionIssue(width: int, height: int): (r: Option<string>)
    ensures r.None? <==> width <= MaxImageSide && height <= MaxImageSide
    ensures r.Some? ==> r.value == ImageTooLargeMessage
  {
    if width > MaxImageSide || height > MaxImageSide then Some(ImageTooLargeMessage) else None
  }

  const MillisPerHour := 1000 * 60 * 60

  /** Hours since the epoch, rounded down (also for negative readings). */
  function HourOf(ms: int): (h: int)
    ensures h * MillisPerHour <= ms < (h + 1) * MillisPerHour
  {
    ms / MillisPerHour
  }

  function Digit(d: nat): (c: char)
    requires d < 10
    ensures '0' <= c <= '9' && c as int - '0' as int == d
  {
    ('0' as int + d) as char
  }

  /** Decimal notation of a natural number. */
  function DecimalString(n: nat): (s: string)
    ensures |s| >= 1 && (n >= 10 ==> |s| >= 2)
    ensures forall i :: 0 <= i < |s| ==> '0' <= s[i] <= '9'
  {
    if n < 10 then [Digit(n)] else DecimalString(n / 10) + [Digit(n % 10)]
  }

  /** Decimal notation of an integer, with a minus sign when negative. */
  function IntString(i: int): (s: string)
    ensures |s| >= 1 && (s[0] == '-' <==> i < 0)
    ensures forall k :: 1 <= k < |s| ==> '0' <= s[k] <= '9'
  {
    if i < 0 then "-" + DecimalString(-i) else DecimalString(i)
  }

  lemma {:induction false} DecimalStringInjective(a: nat, b: nat)
    requires DecimalString(a) == DecimalString(b)
    ensures a == b
  {
    var s := DecimalString(a);
    if a >= 10 && b >= 10 {
      var sa, sb := DecimalString(a / 10), DecimalString(b / 10);
      assert sa == s[..|s| - 1] && sb == s[..|s| - 1];
      assert Digit(a % 10) == Digit(b % 10);
      DecimalStringInjective(a / 10, b / 10);
    } else if a < 10 && b < 10 {
      assert Digit(a) == Digit(b);
    }
  }

  lemma IntStringInjective(a: int, b: int)
    requires IntString(a) == IntString(b)
    ensures a == b
  {
    var s := IntString(a);
    assert s[0] == '-' <==> a < 0;
    assert IntString(b)[0] == '-' <==> b < 0;
    if a < 0 {
      assert s[1..] == DecimalString(-a);
      assert IntString(b)[1..] == DecimalString(-b);
      DecimalStringInjective(-a, -b);
    } else {
      DecimalStringInjective(a, b);
    }
  }

  /** The idempotency key of the verification e-mail sent at clock reading
      `now` (milliseconds). */
  function VerificationKey(userId: UserId, now: int): (key: string)
    ensures |key| == 13 + |userId| + |IntString(HourOf(now))|
    ensures key[..12] == "verify-user/" && key[12..12 + |userId|] == userId
    ensures key[12 + |userId|] == '-'
    ensures key[13 + |userId|..] == IntString(HourOf(now))
  {
    "verify-user/" + userId + "-" + IntString(HourOf(now))
  }

  /** For one user, two sends share a key exactly when they fall in the
      same clock hour, so a resend within the hour is deduplicated. */
  lemma VerificationKeySameHour(userId: UserId, now1: int, now2: int)
    ensures VerificationKey(userId, now1) == VerificationKey(userId, now2)
        <==> HourOf(now1) == HourOf(now2)
  {
    var prefix := "verify-user/" + userId + "-";
    if VerificationKey(userId, now1) == VerificationKey(userId, now2) {
      assert VerificationKey(userId, now1)[|prefix|..] == IntString(HourOf(now1));
      assert VerificationKey(userId, now2)[|prefix|..] == IntString(HourOf(now2));
      IntStringInjective(HourOf(now1), HourOf(now2));
    }
  }
}
