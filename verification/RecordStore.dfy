/** The content of `InMemoryRecordRepository` as a value, its operations, and what they keep. */
module RecordStore {
  import opened Basics

  /** The sentinels, in seconds since the start of year 1: 2000-01-01 and 9999-12-31 23:59:59. */
  const DELETED: Time := 63082281600
  const ARCHIVED: Time := 315537897599

  /** Days from the start of year 1 to the start of a year. */
  function DaysBefore(year: nat): int
    requires year >= 1
  {
    365 * (year - 1) + (year - 1) / 4 - (year - 1) / 100 + (year - 1) / 400
  }

  lemma SentinelDates()
    ensures DELETED == DaysBefore(2000) * 24 * 60 * 60
    ensures ARCHIVED == DaysBefore(10000) * 24 * 60 * 60 - 1
  {
  }

  datatype Record = Record(memoryId: Uuid, createdAt: Time, version: int, updatedAt: Time, expiresAt: Option<Time>,
                           contentHash: Text, content: Text, ownerId: Uuid, memoryType: Text, visibility: Text,
                           workflowId: Option<Uuid>)

  /** The fields given to an update; identity, creation time and version are ignored. */
  datatype Fields = Fields(memoryId: Option<Uuid>, createdAt: Option<Time>, version: Option<int>,
                           expiresAt: Option<Option<Time>>, contentHash: Option<Text>, content: Option<Text>,
                           ownerId: Option<Uuid>, memoryType: Option<Text>, visibility: Option<Text>)

  /** `order` is the iteration order of the record dictionary. */
  datatype Store = Store(records: map<Uuid, Record>, order: seq<Uuid>, hashIndex: map<Text, Uuid>)

  const EMPTY: Store := Store(map[], [], map[])

  datatype Op =
    | Save(record: Record)
    | Update(id: Uuid, version: int, fields: Fields, now: Time)
    | Delete(id: Uuid, now: Time)
    | Archive(id: Uuid, now: Time)

  function Or<T>(given: Option<T>, otherwise: T): T {
    match given case Some(v) => v case None => otherwise
  }

  function Patched(r: Record, f: Fields, version: int, now: Time): Record {
    r.(version := version + 1, updatedAt := now, expiresAt := Or(f.expiresAt, r.expiresAt),
       contentHash := Or(f.contentHash, r.contentHash), content := Or(f.content, r.content),
       ownerId := Or(f.ownerId, r.ownerId), memoryType := Or(f.memoryType, r.memoryType),
       visibility := Or(f.visibility, r.visibility))
  }

  function Expired(r: Record, at: Time, now: Time): Record {
    r.(expiresAt := Some(at), updatedAt := now, version := r.version + 1)
  }

  /** Does the operation find its record, at the version it expects? */
  predicate Succeeds(s: Store, op: Op) {
    match op
    case Save(_) => true
    case Update(id, version, _, _) => id in s.records && s.records[id].version == version
    case Delete(id, _) => id in s.records
    case Archive(id, _) => id in s.records
  }

  function Apply(s: Store, op: Op): Store {
    if !Succeeds(s, op) then s
    else match op
      case Save(r) =>
        Store(s.records[r.memoryId := r],
              if r.memoryId in s.records then s.order else s.order + [r.memoryId],
              s.hashIndex[r.contentHash := r.memoryId])
      case Update(id, version, fields, now) =>
        s.(records := s.records[id := Patched(s.records[id], fields, version, now)],
           hashIndex := if fields.contentHash.None? then s.hashIndex
                        else (s.hashIndex - {s.records[id].contentHash})[fields.contentHash.value := id])
      case Delete(id, now) => s.(records := s.records[id := Expired(s.records[id], DELETED, now)])
      case Archive(id, now) => s.(records := s.records[id := Expired(s.records[id], ARCHIVED, now)])
  }

  /** The state before operation `k` of a run. */
  function RunTo(s: Store, ops: seq<Op>, k: nat): Store
    requires k <= |ops|
  {
    if k == 0 then s else Apply(RunTo(s, ops, k - 1), ops[k - 1])
  }

  /** Saves always bring a new id. */
  predicate FreshSave(s: Store, op: Op) {
    op.Save? ==> op.record.memoryId !in s.records
  }

  ghost predicate FreshRun(s: Store, ops: seq<Op>) {
    forall k :: 0 <= k < |ops| ==> FreshSave(RunTo(s, ops, k), ops[k])
  }

  /** Records are filed under their own id, and each id is iterated once. */
  ghost predicate Filed(s: Store) {
    && (forall id :: id in s.records ==> s.records[id].memoryId == id)
    && Distinct(s.order)
    && (forall id :: id in s.order <==> id in s.records)
  }

  lemma FiledKept(s: Store, op: Op)
    requires Filed(s)
    ensures Filed(Apply(s, op))
  {
  }

  // ----- versions

  /** A record is never lost, keeps its identity and creation time, and every change to it raises
      its version. */
  lemma OneStep(s: Store, op: Op, id: Uuid)
    requires id in s.records && FreshSave(s, op)
    ensures id in Apply(s, op).records
    ensures Apply(s, op).records[id].memoryId == s.records[id].memoryId
    ensures Apply(s, op).records[id].createdAt == s.records[id].createdAt
    ensures Apply(s, op).records[id] == s.records[id] || Apply(s, op).records[id].version == s.records[id].version + 1
  {
  }

  lemma {:induction false} VersionsGrow(s: Store, ops: seq<Op>, i: nat, j: nat, id: Uuid)
    requires i <= j <= |ops| && FreshRun(s, ops) && id in RunTo(s, ops, i).records
    ensures id in RunTo(s, ops, j).records
    ensures RunTo(s, ops, j).records[id].memoryId == RunTo(s, ops, i).records[id].memoryId
    ensures RunTo(s, ops, j).records[id].createdAt == RunTo(s, ops, i).records[id].createdAt
    ensures RunTo(s, ops, i).records[id] == RunTo(s, ops, j).records[id]
            || RunTo(s, ops, i).records[id].version < RunTo(s, ops, j).records[id].version
    decreases j
  {
    if i < j {
      VersionsGrow(s, ops, i, j - 1, id);
      OneStep(RunTo(s, ops, j - 1), ops[j - 1], id);
    }
  }

  /** Optimistic concurrency: of two updates expecting the same version of one record, at most one
      succeeds, whatever runs between them. */
  lemma AtMostOneUpdateWins(s: Store, ops: seq<Op>, i: nat, j: nat)
    requires i < j < |ops| && FreshRun(s, ops)
    requires ops[i].Update? && ops[j].Update? && ops[i].id == ops[j].id && ops[i].version == ops[j].version
    ensures !(Succeeds(RunTo(s, ops, i), ops[i]) && Succeeds(RunTo(s, ops, j), ops[j]))
  {
    hide FreshRun;
    if Succeeds(RunTo(s, ops, i), ops[i]) {
      assert RunTo(s, ops, i + 1) == Apply(RunTo(s, ops, i), ops[i]);
      VersionsGrow(s, ops, i + 1, j, ops[i].id);
    }
  }

  // ----- what an update writes

  /** Each field given has the given value, each other its old one. */
  ghost predicate IsUpdated(was: Record, r: Record, f: Fields, version: int, now: Time) {
    && r.memoryId == was.memoryId && r.createdAt == was.createdAt && r.workflowId == was.workflowId
    && r.version == version + 1 && r.updatedAt == now
    && (f.content.Some? ==> r.content == f.content.value) && (f.content.None? ==> r.content == was.content)
    && (f.contentHash.Some? ==> r.contentHash == f.contentHash.value)
    && (f.contentHash.None? ==> r.contentHash == was.contentHash)
    && (f.ownerId.Some? ==> r.ownerId == f.ownerId.value) && (f.ownerId.None? ==> r.ownerId == was.ownerId)
    && (f.memoryType.Some? ==> r.memoryType == f.memoryType.value)
    && (f.memoryType.None? ==> r.memoryType == was.memoryType)
    && (f.visibility.Some? ==> r.visibility == f.visibility.value)
    && (f.visibility.None? ==> r.visibility == was.visibility)
    && (f.expiresAt.Some? ==> r.expiresAt == f.expiresAt.value) && (f.expiresAt.None? ==> r.expiresAt == was.expiresAt)
  }

  /** The value of a field of one record as its history gives it: of the last save, or of the last
      successful update after it that gave the field. */
  ghost function LastGiven<T>(ops: seq<Op>, k: nat, id: Uuid, of: Record -> T, given: Fields -> Option<T>): Option<T>
    requires k <= |ops|
  {
    if k == 0 then None
    else
      var op, before := ops[k - 1], LastGiven(ops, k - 1, id, of, given);
      if op.Save? && op.record.memoryId == id then Some(of(op.record))
      else if op.Update? && op.id == id && Succeeds(RunTo(EMPTY, ops, k - 1), op) && given(op.fields).Some? then
        given(op.fields)
      else before
  }

  lemma {:induction false} FieldOverRuns<T>(ops: seq<Op>, k: nat, id: Uuid, of: Record -> T, given: Fields -> Option<T>)
    requires k <= |ops|
    requires forall r, f, version, now :: of(Patched(r, f, version, now)) == Or(given(f), of(r))
    requires forall r, at, now :: of(Expired(r, at, now)) == of(r)
    ensures var s := RunTo(EMPTY, ops, k);
            LastGiven(ops, k, id, of, given) == if id in s.records then Some(of(s.records[id])) else None
  {
    hide Patched, Expired;
    if k > 0 {
      FieldOverRuns(ops, k - 1, id, of, given);
    }
  }

  /** Over any run, content, hash, owner, type and visibility of a record are those last given. */
  lemma FieldsOverRuns(ops: seq<Op>, k: nat, id: Uuid)
    requires k <= |ops| && id in RunTo(EMPTY, ops, k).records
    ensures var r := RunTo(EMPTY, ops, k).records[id];
            && LastGiven(ops, k, id, (r: Record) => r.content, (f: Fields) => f.content) == Some(r.content)
            && LastGiven(ops, k, id, (r: Record) => r.contentHash, (f: Fields) => f.contentHash) == Some(r.contentHash)
            && LastGiven(ops, k, id, (r: Record) => r.ownerId, (f: Fields) => f.ownerId) == Some(r.ownerId)
            && LastGiven(ops, k, id, (r: Record) => r.memoryType, (f: Fields) => f.memoryType) == Some(r.memoryType)
            && LastGiven(ops, k, id, (r: Record) => r.visibility, (f: Fields) => f.visibility) == Some(r.visibility)
  {
    FieldOverRuns(ops, k, id, (r: Record) => r.content, (f: Fields) => f.content);
    FieldOverRuns(ops, k, id, (r: Record) => r.contentHash, (f: Fields) => f.contentHash);
    FieldOverRuns(ops, k, id, (r: Record) => r.ownerId, (f: Fields) => f.ownerId);
    FieldOverRuns(ops, k, id, (r: Record) => r.memoryType, (f: Fields) => f.memoryType);
    FieldOverRuns(ops, k, id, (r: Record) => r.visibility, (f: Fields) => f.visibility);
  }

  // ----- the hash index

  /** Whatever a hash leads to has that hash. */
  ghost predicate HashSound(s: Store) {
    forall h :: h in s.hashIndex ==> s.hashIndex[h] in s.records && s.records[s.hashIndex[h]].contentHash == h
  }

  /** Every record is found under its hash. */
  ghost predicate HashComplete(s: Store) {
    forall id :: id in s.records ==>
      s.records[id].contentHash in s.hashIndex && s.hashIndex[s.records[id].contentHash] == id
  }

  /** Another hash than the record's leads to its id. */
  ghost predicate IndexedOtherwise(s: Store, r: Record) {
    exists h :: h in s.hashIndex && s.hashIndex[h] == r.memoryId && h != r.contentHash
  }

  /** Soundness survives every operation but a save that gives an indexed record another hash. */
  lemma SoundKeptIff(s: Store, op: Op)
    requires HashSound(s)
    ensures HashSound(Apply(s, op)) <==>
              !(op.Save? && IndexedOtherwise(s, op.record))
  {
    if op.Save? && IndexedOtherwise(s, op.record) {
      var h :| h in s.hashIndex && s.hashIndex[h] == op.record.memoryId && h != op.record.contentHash;
      assert h in Apply(s, op).hashIndex;
    }
  }

  lemma SoundKeptByFreshSaves(s: Store, op: Op)
    requires HashSound(s) && FreshSave(s, op)
    ensures HashSound(Apply(s, op))
  {
  }

  /** No other record has the hash that the operation writes. */
  ghost predicate BringsUnusedHash(s: Store, op: Op) {
    match op
    case Save(r) => forall id :: id in s.records && id != r.memoryId ==> s.records[id].contentHash != r.contentHash
    case Update(x, _, fields, _) => Succeeds(s, op) && fields.contentHash.Some? ==>
      forall id :: id in s.records && id != x ==> s.records[id].contentHash != fields.contentHash.value
    case Delete(_, _) => true
    case Archive(_, _) => true
  }

  /** With fresh saves every record stays findable iff the operation writes no hash another record has. */
  lemma CompleteKeptIff(s: Store, op: Op)
    requires HashSound(s) && HashComplete(s) && FreshSave(s, op)
    ensures HashComplete(Apply(s, op)) <==> BringsUnusedHash(s, op)
  {
    var s' := Apply(s, op);
    if Succeeds(s, op) {
      var x := if op.Save? then op.record.memoryId else op.id;
      assert x in s'.records;
      if HashComplete(s') {
        assert forall id :: id in s.records && id != x ==> id in s'.records && s'.records[id] == s.records[id];
      }
      if BringsUnusedHash(s, op) {
        forall id | id in s'.records
          ensures s'.records[id].contentHash in s'.hashIndex && s'.hashIndex[s'.records[id].contentHash] == id
        {
          if id != x {
            assert s'.records[id] == s.records[id];
            assert x in s.records ==> s.records[id].contentHash != s.records[x].contentHash;
          }
        }
      }
    }
  }

  lemma EmptyStoreOk()
    ensures HashSound(EMPTY) && HashComplete(EMPTY) && Filed(EMPTY)
  {
  }

  /** Over runs from the empty repository hashes always lead to a record that has them, and up to any
      point every record was always findable iff no operation before it wrote a hash in use. */
  lemma {:induction false} HashIndexOverRuns(ops: seq<Op>, k: nat)
    requires k <= |ops| && FreshRun(EMPTY, ops)
    ensures HashSound(RunTo(EMPTY, ops, k)) && Filed(RunTo(EMPTY, ops, k))
    ensures (forall i :: 0 <= i <= k ==> HashComplete(RunTo(EMPTY, ops, i)))
              <==> (forall i :: 0 <= i < k ==> BringsUnusedHash(RunTo(EMPTY, ops, i), ops[i]))
    decreases k
  {
    hide Apply, HashSound, HashComplete, BringsUnusedHash, Filed;
    EmptyStoreOk();
    if k > 0 {
      var s := RunTo(EMPTY, ops, k - 1);
      HashIndexOverRuns(ops, k - 1);
      FiledKept(s, ops[k - 1]);
      SoundKeptByFreshSaves(s, ops[k - 1]);
      if HashComplete(s) {
        CompleteKeptIff(s, ops[k - 1]);
      }
    }
  }

  /** Saving a record again with another hash: the first hash then leads to a record without it. */
  lemma SoundLostExample(r: Record, h: Text)
    requires h != r.contentHash
    ensures var s := RunTo(EMPTY, [Save(r), Save(r.(contentHash := h))], 2);
            && r.contentHash in s.hashIndex && s.hashIndex[r.contentHash] in s.records
            && s.records[s.hashIndex[r.contentHash]].contentHash == h && !HashSound(s)
  {
    var ops := [Save(r), Save(r.(contentHash := h))];
    assert RunTo(EMPTY, ops, 1) == Apply(EMPTY, ops[0]);
    assert r.contentHash in RunTo(EMPTY, ops, 2).hashIndex;
  }

  /** Two records of one hash: only the second is findable. */
  lemma CompleteLostExample(r: Record, id: Uuid)
    requires id != r.memoryId
    ensures var s := RunTo(EMPTY, [Save(r), Save(r.(memoryId := id))], 2);
            r.memoryId in s.records && s.hashIndex == map[r.contentHash := id] && !HashComplete(s)
  {
    var ops := [Save(r), Save(r.(memoryId := id))];
    assert RunTo(EMPTY, ops, 1) == Apply(EMPTY, ops[0]);
    assert r.memoryId in RunTo(EMPTY, ops, 2).records;
  }

  // ----- listing

  datatype Query = Query(ownerId: Option<Uuid>, memoryType: Option<Text>, visibility: Option<Text>,
                         sessionId: Option<Uuid>, includeDeleted: bool, includeArchived: bool)

  predicate Matches(r: Record, q: Query, now: Time) {
    && (q.includeDeleted || r.expiresAt.None? || r.expiresAt.value >= now)
    && (q.includeArchived || r.expiresAt != Some(ARCHIVED))
    && (q.ownerId.None? || r.ownerId == q.ownerId.value)
    && (q.memoryType.None? || r.memoryType == q.memoryType.value)
    && (q.visibility.None? || r.visibility == q.visibility.value)
    && (q.sessionId.None? || r.workflowId == q.sessionId)
  }

  /** A deleted record shows only to queries that include deleted ones, an archived one only to
      queries that include archived ones; archiving a deleted record brings it back to the former. */
  lemma HiddenAfter(s: Store, op: Op, q: Query, now: Time)
    requires (op.Delete? || op.Archive?) && Succeeds(s, op) && DELETED < now <= ARCHIVED
    ensures Matches(Apply(s, op).records[op.id], q, now) <==>
              && (if op.Delete? then q.includeDeleted else q.includeArchived)
              && Matches(s.records[op.id], q.(includeDeleted := true, includeArchived := true), now)
  {
  }

  /** The matching records in iteration order. */
  function Listing(records: map<Uuid, Record>, order: seq<Uuid>, q: Query, now: Time): seq<Record>
    requires forall id :: id in order ==> id in records
  {
    if order == [] then []
    else
      var n := |order| - 1;
      Listing(records, order[..n], q, now) + if Matches(records[order[n]], q, now) then [records[order[n]]] else []
  }

  /** A listing holds exactly the matching records, each once. */
  lemma {:induction false} ListingHolds(records: map<Uuid, Record>, order: seq<Uuid>, q: Query, now: Time)
    requires forall id :: id in order ==> id in records && records[id].memoryId == id
    requires Distinct(order)
    ensures forall r :: r in Listing(records, order, q, now) <==>
              r.memoryId in order && records[r.memoryId] == r && Matches(r, q, now)
    ensures Distinct(Listing(records, order, q, now))
  {
    if order == [] {
    } else {
      var n := |order| - 1;
      assert order == order[..n] + [order[n]];
      ListingHolds(records, order[..n], q, now);
      var l := Listing(records, order[..n], q, now);
      assert forall i :: 0 <= i < |l| ==> l[i] in l;
    }
  }

  /** A listing that includes archived records is longer, and as long iff none of them matches otherwise. */
  lemma {:induction false} ArchivedCounted(records: map<Uuid, Record>, order: seq<Uuid>, q: Query, now: Time)
    requires forall id :: id in order ==> id in records
    requires !q.includeArchived
    ensures var all := Listing(records, order, q.(includeArchived := true), now);
            var shown := Listing(records, order, q, now);
            && |shown| <= |all|
            && (|shown| == |all| <==>
                 forall id :: id in order && Matches(records[id], q.(includeArchived := true), now) ==>
                     records[id].expiresAt != Some(ARCHIVED))
  {
    if order == [] {
    } else {
      var n := |order| - 1;
      assert order == order[..n] + [order[n]];
      ArchivedCounted(records, order[..n], q, now);
    }
  }

  /** One archived record is counted and not listed. */
  lemma ArchivedCountedExample(r: Record, now: Time)
    requires DELETED < now <= ARCHIVED
    ensures var s := RunTo(EMPTY, [Save(r), Archive(r.memoryId, now)], 2);
            var q := Query(None, None, None, None, false, false);
            && s.order == [r.memoryId] && r.memoryId in s.records
            && |Listing(s.records, s.order, q.(includeArchived := true), now)| == 1
            && |Listing(s.records, s.order, q, now)| == 0
  {
    var ops := [Save(r), Archive(r.memoryId, now)];
    assert RunTo(EMPTY, ops, 1) == Apply(EMPTY, ops[0]);
  }

  /** The entries with a property, in order. */
  ghost function Where<T>(s: seq<T>, p: T -> bool): seq<T> {
    if s == [] then [] else Where(s[..|s| - 1], p) + if p(s[|s| - 1]) then [s[|s| - 1]] else []
  }

  /** The listing that asks for nothing in particular is the whole repository in insertion order. */
  lemma {:induction false} AllListed(records: map<Uuid, Record>, order: seq<Uuid>, now: Time)
    requires forall id :: id in order ==> id in records
    ensures Listing(records, order, Query(None, None, None, None, true, true), now)
         == seq(|order|, i requires 0 <= i < |order| => records[order[i]])
  {
    if order == [] {
    } else {
      assert order == order[..|order| - 1] + [order[|order| - 1]];
      AllListed(records, order[..|order| - 1], now);
    }
  }

  lemma WhereSnoc<T>(s: seq<T>, x: T, p: T -> bool)
    ensures Where(s + [x], p) == Where(s, p) + if p(x) then [x] else []
  {
    assert (s + [x])[..|s|] == s;
  }

  /** A query that asks for one thing more lists what has it, in the same order. */
  lemma {:induction false} RestrictBy(records: map<Uuid, Record>, order: seq<Uuid>, q: Query, less: Query,
                                      p: Record -> bool, now: Time)
    requires forall id :: id in order ==> id in records
    requires forall id :: id in order ==>
        (Matches(records[id], q, now) <==> Matches(records[id], less, now) && p(records[id]))
    ensures Listing(records, order, q, now) == Where(Listing(records, order, less, now), p)
  {
    hide Matches;
    if order == [] {
    } else {
      var n := |order| - 1;
      assert order == order[..n] + [order[n]];
      RestrictBy(records, order[..n], q, less, p, now);
      var before := Listing(records, order[..n], less, now);
      WhereSnoc(before, records[order[n]], p);
      assert before + [] == before && Where(before, p) + [] == Where(before, p);
    }
  }

  ghost function HasOwner(o: Uuid): Record -> bool { (r: Record) => r.ownerId == o }
  ghost function HasType(t: Text): Record -> bool { (r: Record) => r.memoryType == t }
  ghost function HasVisibility(v: Text): Record -> bool { (r: Record) => r.visibility == v }
  ghost function OfSession(id: Uuid): Record -> bool { (r: Record) => r.workflowId == Some(id) }
  ghost function Unexpired(now: Time): Record -> bool { (r: Record) => r.expiresAt.Some? ==> r.expiresAt.value >= now }
  ghost function Unarchived(): Record -> bool { (r: Record) => r.expiresAt != Some(ARCHIVED) }
  ghost function OwnerIn(owners: seq<Uuid>): Record -> bool { (r: Record) => r.ownerId in owners }

  /** Each filter restricts the listing without it to the records that have what it asks for. */
  lemma FiltersRestrict(records: map<Uuid, Record>, order: seq<Uuid>, q: Query, now: Time)
    requires forall id :: id in order ==> id in records
    ensures q.ownerId.Some? ==>
              Listing(records, order, q, now)
                == Where(Listing(records, order, q.(ownerId := None), now), HasOwner(q.ownerId.value))
    ensures q.memoryType.Some? ==>
              Listing(records, order, q, now)
                == Where(Listing(records, order, q.(memoryType := None), now), HasType(q.memoryType.value))
    ensures q.visibility.Some? ==>
              Listing(records, order, q, now)
                == Where(Listing(records, order, q.(visibility := None), now), HasVisibility(q.visibility.value))
    ensures q.sessionId.Some? ==>
              Listing(records, order, q, now)
                == Where(Listing(records, order, q.(sessionId := None), now), OfSession(q.sessionId.value))
  {
    hide Listing, Where;
    if q.ownerId.Some? {
      RestrictBy(records, order, q, q.(ownerId := None), HasOwner(q.ownerId.value), now);
    }
    if q.memoryType.Some? {
      RestrictBy(records, order, q, q.(memoryType := None), HasType(q.memoryType.value), now);
    }
    if q.visibility.Some? {
      RestrictBy(records, order, q, q.(visibility := None), HasVisibility(q.visibility.value), now);
    }
    if q.sessionId.Some? {
      RestrictBy(records, order, q, q.(sessionId := None), OfSession(q.sessionId.value), now);
    }
  }

  /** So do the two defaults, which leave out expired and archived records. */
  lemma DefaultsRestrict(records: map<Uuid, Record>, order: seq<Uuid>, q: Query, now: Time)
    requires forall id :: id in order ==> id in records
    ensures !q.includeDeleted ==>
              Listing(records, order, q, now)
                == Where(Listing(records, order, q.(includeDeleted := true), now), Unexpired(now))
    ensures !q.includeArchived ==>
              Listing(records, order, q, now)
                == Where(Listing(records, order, q.(includeArchived := true), now), Unarchived())
  {
    hide Listing, Where;
    if !q.includeDeleted {
      RestrictBy(records, order, q, q.(includeDeleted := true), Unexpired(now), now);
    }
    if !q.includeArchived {
      RestrictBy(records, order, q, q.(includeArchived := true), Unarchived(), now);
    }
  }

  /** What a caller may rely on for every record of a page. */
  ghost predicate Answers(r: Record, q: Query, now: Time) {
    && (q.ownerId.Some? ==> r.ownerId == q.ownerId.value)
    && (q.memoryType.Some? ==> r.memoryType == q.memoryType.value)
    && (q.visibility.Some? ==> r.visibility == q.visibility.value)
    && (q.sessionId.Some? ==> r.workflowId == q.sessionId)
    && (!q.includeDeleted && r.expiresAt.Some? ==> r.expiresAt.value >= now)
    && (!q.includeArchived ==> r.expiresAt != Some(ARCHIVED))
  }

  lemma {:induction false} ListedAnswers(records: map<Uuid, Record>, order: seq<Uuid>, q: Query, now: Time, r: Record)
    requires forall id :: id in order ==> id in records && records[id].memoryId == id
    requires r in Listing(records, order, q, now)
    ensures Answers(r, q, now) && r.memoryId in order && records[r.memoryId] == r
  {
    if order == [] {
    } else {
      var n := |order| - 1;
      assert order == order[..n] + [order[n]];
      if r in Listing(records, order[..n], q, now) {
        ListedAnswers(records, order[..n], q, now, r);
      }
    }
  }

  ghost function CountsByOwner(records: map<Uuid, Record>, order: seq<Uuid>, q: Query, now: Time,
                               owners: seq<Uuid>): nat
    requires forall id :: id in order ==> id in records
  {
    if owners == [] then 0
    else
      CountsByOwner(records, order, q, now, owners[..|owners| - 1])
        + |Listing(records, order, q.(ownerId := Some(owners[|owners| - 1])), now)|
  }

  /** Counting without an owner adds up the counts of the owners there are. */
  lemma CountsAddUp(records: map<Uuid, Record>, order: seq<Uuid>, q: Query, now: Time, owners: seq<Uuid>)
    requires forall id :: id in order ==> id in records && records[id].ownerId in owners
    requires Distinct(owners) && q.ownerId.None?
    ensures |Listing(records, order, q, now)| == CountsByOwner(records, order, q, now, owners)
  {
    CountsOfSome(records, order, q, now, owners);
    ListedFromOrder(records, order, q, now);
    WhereAll(Listing(records, order, q, now), OwnerIn(owners));
  }

  lemma {:induction false} WhereAll<T>(s: seq<T>, p: T -> bool)
    requires forall x :: x in s ==> p(x)
    ensures Where(s, p) == s
  {
    if s == [] {
    } else {
      WhereAll(s[..|s| - 1], p);
    }
  }

  lemma {:induction false} ListedFromOrder(records: map<Uuid, Record>, order: seq<Uuid>, q: Query, now: Time)
    requires forall id :: id in order ==> id in records
    ensures forall r :: r in Listing(records, order, q, now) ==> exists id :: id in order && records[id] == r
  {
    if order == [] {
    } else {
      assert order == order[..|order| - 1] + [order[|order| - 1]];
      ListedFromOrder(records, order[..|order| - 1], q, now);
    }
  }

  lemma {:induction false} CountsOfSome(records: map<Uuid, Record>, order: seq<Uuid>, q: Query, now: Time,
                                        owners: seq<Uuid>)
    requires forall id :: id in order ==> id in records
    requires Distinct(owners) && q.ownerId.None?
    ensures CountsByOwner(records, order, q, now, owners)
         == |Where(Listing(records, order, q, now), OwnerIn(owners))|
  {
    var all := Listing(records, order, q, now);
    if owners == [] {
      WhereNone(all);
    } else {
      var n := |owners| - 1;
      assert owners == owners[..n] + [owners[n]];
      CountsOfSome(records, order, q, now, owners[..n]);
      var q' := q.(ownerId := Some(owners[n]));
      FiltersRestrict(records, order, q', now);
      assert q'.(ownerId := None) == q;
      WhereSplit(all, owners[..n], owners[n]);
    }
  }

  lemma {:induction false} WhereNone(rs: seq<Record>)
    ensures Where(rs, OwnerIn([])) == []
  {
    if rs != [] {
      WhereNone(rs[..|rs| - 1]);
    }
  }

  lemma {:induction false} WhereSplit(rs: seq<Record>, owners: seq<Uuid>, o: Uuid)
    requires o !in owners
    ensures |Where(rs, OwnerIn(owners + [o]))| == |Where(rs, OwnerIn(owners))| + |Where(rs, HasOwner(o))|
  {
    if rs != [] {
      WhereSplit(rs[..|rs| - 1], owners, o);
    }
  }

  /** The first `n` pages of size `limit`. */
  function Pages<T>(all: seq<T>, limit: nat, n: nat): seq<T> {
    if n == 0 then [] else Pages(all, limit, n - 1) + Slice(all, (n - 1) * limit, (n - 1) * limit + limit)
  }

  /** Pages taken at one time put together are the beginning of the full listing, and all of it as
      soon as they are enough. */
  lemma {:induction false} PagesConcatenate<T>(all: seq<T>, limit: nat, n: nat)
    ensures Pages(all, limit, n) == all[..Bound(n * limit, |all|)]
    ensures n * limit >= |all| ==> Pages(all, limit, n) == all
  {
    hide Slice;
    assert all[..|all|] == all;
    if n == 0 {
    } else {
      PagesConcatenate(all, limit, n - 1);
      NextPage(all, (n - 1) * limit, limit);
      assert n * limit == (n - 1) * limit + limit;
    }
  }

  lemma NextPage<T>(all: seq<T>, lo: nat, limit: nat)
    ensures all[..Bound(lo, |all|)] + Slice(all, lo, lo + limit) == all[..Bound(lo + limit, |all|)]
  {
  }

  class InMemoryRecordRepository {
    var records: map<Uuid, Record>
    var order: seq<Uuid>
    var hashIndex: map<Text, Uuid>

    ghost function Content(): Store
      reads this
    {
      Store(records, order, hashIndex)
    }

    ghost predicate Valid()
      reads this
    {
      Filed(Content())
    }

    constructor ()
      ensures Valid() && Content() == EMPTY
    {
      records, order, hashIndex := map[], [], map[];
    }

    method SaveRecord(record: Record)
      requires Valid()
      modifies this
      ensures Valid() && Content() == Apply(old(Content()), Save(record))
      ensures records == old(records)[record.memoryId := record]
      ensures hashIndex == old(hashIndex)[record.contentHash := record.memoryId]
      ensures order == if record.memoryId in old(records) then old(order) else old(order) + [record.memoryId]
    {
      FiledKept(Content(), Save(record));
      if record.memoryId !in records {
        order := order + [record.memoryId];
      }
      records := records[record.memoryId := record];
      hashIndex := hashIndex[record.contentHash := record.memoryId];
    }

    method GetById(id: Uuid) returns (r: Option<Record>)
      ensures r == if id in records then Some(records[id]) else None
    {
      r := if id in records then Some(records[id]) else None;
    }

    /** What is found under a hash is a record, and one that has it while the index is sound; every
        record is found while the index is complete. */
    method GetByHash(h: Text) returns (r: Option<Record>)
      requires Valid()
      ensures r.Some? ==> r.value.memoryId in records && records[r.value.memoryId] == r.value
      ensures HashSound(Content()) && r.Some? ==> r.value.contentHash == h
      ensures HashComplete(Content()) ==>
                forall id :: id in records && records[id].contentHash == h ==> r == Some(records[id])
    {
      if h in hashIndex {
        r := GetById(hashIndex[h]);
      } else {
        r := None;
      }
    }

    method UpdateRecord(id: Uuid, version: int, fields: Fields, now: Time) returns (r: Option<Record>)
      requires Valid()
      modifies this
      ensures Valid() && Content() == Apply(old(Content()), Update(id, version, fields, now))
      ensures r.Some? <==> Succeeds(old(Content()), Update(id, version, fields, now))
      ensures r.Some? ==> id in old(records) && IsUpdated(old(records)[id], r.value, fields, version, now)
      ensures records == (if r.Some? then old(records)[id := r.value] else old(records)) && order == old(order)
    {
      FiledKept(Content(), Update(id, version, fields, now));
      if id !in records || records[id].version != version {
        return None;
      }
      var record := records[id];
      var updated := Patched(record, fields, version, now);
      records := records[id := updated];
      if fields.contentHash.Some? {
        var oldHash := record.contentHash;
        if oldHash in hashIndex {
          hashIndex := hashIndex - {oldHash};
        }
        assert hashIndex == old(hashIndex) - {oldHash};
        hashIndex := hashIndex[fields.contentHash.value := id];
      }
      return Some(updated);
    }

    method DeleteRecord(id: Uuid, now: Time) returns (ok: bool)
      requires Valid()
      modifies this
      ensures Valid() && Content() == Apply(old(Content()), Delete(id, now)) && ok == (id in old(records))
      ensures ok ==> records == old(records)[id := old(records)[id].(expiresAt := Some(DELETED), updatedAt := now,
                                                                     version := old(records)[id].version + 1)]
      ensures (!ok ==> records == old(records)) && order == old(order) && hashIndex == old(hashIndex)
    {
      FiledKept(Content(), Delete(id, now));
      if id !in records {
        return false;
      }
      records := records[id := Expired(records[id], DELETED, now)];
      return true;
    }

    method ArchiveRecord(id: Uuid, now: Time) returns (ok: bool)
      requires Valid()
      modifies this
      ensures Valid() && Content() == Apply(old(Content()), Archive(id, now)) && ok == (id in old(records))
      ensures ok ==> records == old(records)[id := old(records)[id].(expiresAt := Some(ARCHIVED), updatedAt := now,
                                                                     version := old(records)[id].version + 1)]
      ensures (!ok ==> records == old(records)) && order == old(order) && hashIndex == old(hashIndex)
    {
      FiledKept(Content(), Archive(id, now));
      if id !in records {
        return false;
      }
      records := records[id := Expired(records[id], ARCHIVED, now)];
      return true;
    }

    /** One page of the matching records. */
    method ListRecords(q: Query, limit: int, offset: int, now: Time) returns (page: seq<Record>)
      requires Valid()
      ensures page == Slice(Listing(records, order, q, now), offset, offset + limit)
      ensures forall r :: r in page ==>
                Answers(r, q, now) && r.memoryId in records && records[r.memoryId] == r
    {
      var results: seq<Record> := [];
      for i := 0 to |order|
        invariant results == Listing(records, order[..i], q, now)
      {
        var record := records[order[i]];
        assert order[..i + 1][..i] == order[..i];
        if !q.includeDeleted && record.expiresAt.Some? && record.expiresAt.value < now { continue; }
        if !q.includeArchived && record.expiresAt == Some(ARCHIVED) { continue; }
        if q.ownerId.Some? && record.ownerId != q.ownerId.value { continue; }
        if q.memoryType.Some? && record.memoryType != q.memoryType.value { continue; }
        if q.visibility.Some? && record.visibility != q.visibility.value { continue; }
        if q.sessionId.Some? && record.workflowId != q.sessionId { continue; }
        results := results + [record];
      }
      assert order[..|order|] == order;
      page := Slice(results, offset, offset + limit);
      forall r | r in page ensures Answers(r, q, now) && r.memoryId in records && records[r.memoryId] == r {
        assert r in results;
        ListedAnswers(records, order, q, now, r);
      }
    }

    /** Unlike a default listing, the count includes archived records. */
    method Count(ownerId: Option<Uuid>, memoryType: Option<Text>, now: Time) returns (count: nat)
      requires Valid()
      ensures count == |Listing(records, order, Query(ownerId, memoryType, None, None, false, true), now)|
    {
      count := 0;
      ghost var q := Query(ownerId, memoryType, None, None, false, true);
      for i := 0 to |order|
        invariant count == |Listing(records, order[..i], q, now)|
      {
        var record := records[order[i]];
        assert order[..i + 1][..i] == order[..i];
        if record.expiresAt.Some? && record.expiresAt.value < now { continue; }
        if ownerId.Some? && record.ownerId != ownerId.value { continue; }
        if memoryType.Some? && record.memoryType != memoryType.value { continue; }
        count := count + 1;
      }
      assert order[..|order|] == order;
    }
  }
}
