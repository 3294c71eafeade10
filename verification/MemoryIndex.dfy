/** The working-memory index of `core/memory/memory_index.py`: one record map and three
    secondary indexes kept beside it. */
module MemoryIndex {
  import opened Basics

  /** A record object, shared by the cache and its callers. `tags` is empty when the metadata holds no
      list or set of tags. */
  class MemoryRecord {
    const memoryId: Uuid
    const memoryType: Text
    const createdAt: Time
    var tags: seq<Text>
    var content: Text
    var version: int

    constructor (memoryId: Uuid, memoryType: Text, createdAt: Time, tags: seq<Text>, content: Text, version: int)
      ensures this.memoryId == memoryId && this.memoryType == memoryType && this.createdAt == createdAt
      ensures this.tags == tags && this.content == content && this.version == version
    {
      this.memoryId, this.memoryType, this.createdAt := memoryId, memoryType, createdAt;
      this.tags, this.content, this.version := tags, content, version;
    }
  }

  datatype Stamp = Stamp(time: Time, id: Uuid)

  function Ids(index: map<Text, set<Uuid>>, key: Text): set<Uuid> {
    if key in index then index[key] else {}
  }

  // ----- the timestamp list

  ghost predicate Sorted(ts: seq<Stamp>) {
    forall i, j :: 0 <= i < j < |ts| ==> ts[i].time <= ts[j].time
  }

  function Insert(ts: seq<Stamp>, x: Stamp): seq<Stamp> {
    if ts == [] || ts[|ts| - 1].time <= x.time then ts + [x]
    else Insert(ts[..|ts| - 1], x) + [ts[|ts| - 1]]
  }

  /** A stable sort by time. */
  function SortByTime(ts: seq<Stamp>): seq<Stamp> {
    if ts == [] then []
    else Insert(SortByTime(ts[..|ts| - 1]), ts[|ts| - 1])
  }

  lemma {:induction false} InsertKeeps(ts: seq<Stamp>, x: Stamp)
    ensures multiset(Insert(ts, x)) == multiset(ts) + multiset{x}
  {
    if ts == [] || ts[|ts| - 1].time <= x.time {
    } else {
      assert ts == ts[..|ts| - 1] + [ts[|ts| - 1]];
      InsertKeeps(ts[..|ts| - 1], x);
    }
  }

  lemma {:induction false} InsertSorts(ts: seq<Stamp>, x: Stamp)
    requires Sorted(ts)
    ensures Sorted(Insert(ts, x))
  {
    if ts == [] || ts[|ts| - 1].time <= x.time {
    } else {
      var rest, r := ts[..|ts| - 1], Insert(ts[..|ts| - 1], x);
      InsertSorts(rest, x);
      InsertKeeps(rest, x);
      forall i | 0 <= i < |r| ensures r[i].time <= ts[|ts| - 1].time {
        assert r[i] in multiset(r);
        assert r[i] in rest || r[i] == x;
      }
    }
  }

  lemma {:induction false} SortByTimeSorts(ts: seq<Stamp>)
    ensures Sorted(SortByTime(ts)) && multiset(SortByTime(ts)) == multiset(ts)
  {
    if ts == [] {
    } else {
      var n := |ts| - 1;
      assert ts == ts[..n] + [ts[n]];
      SortByTimeSorts(ts[..n]);
      InsertSorts(SortByTime(ts[..n]), ts[n]);
      InsertKeeps(SortByTime(ts[..n]), ts[n]);
    }
  }

  /** The entries of one time, in order. */
  ghost function AtTime(ts: seq<Stamp>, t: Time): seq<Stamp> {
    if ts == [] then [] else AtTime(ts[..|ts| - 1], t) + if ts[|ts| - 1].time == t then [ts[|ts| - 1]] else []
  }

  lemma AtTimeSnoc(ts: seq<Stamp>, x: Stamp, t: Time)
    ensures AtTime(ts + [x], t) == AtTime(ts, t) + if x.time == t then [x] else []
  {
    assert (ts + [x])[..|ts|] == ts;
  }

  lemma {:induction false} InsertIsStable(ts: seq<Stamp>, x: Stamp, t: Time)
    ensures AtTime(Insert(ts, x), t) == AtTime(ts + [x], t)
  {
    hide AtTime;
    if ts == [] || ts[|ts| - 1].time <= x.time {
    } else {
      var rest, last := ts[..|ts| - 1], ts[|ts| - 1];
      InsertIsStable(rest, x, t);
      AtTimeSnoc(rest, x, t);
      AtTimeSnoc(Insert(rest, x), last, t);
      AtTimeSnoc(rest, last, t);
      AtTimeSnoc(ts, x, t);
      assert ts == rest + [last];
    }
  }

  /** Records of one time stay in the order they had. */
  lemma {:induction false} SortIsStable(ts: seq<Stamp>, t: Time)
    ensures AtTime(SortByTime(ts), t) == AtTime(ts, t)
  {
    if ts == [] {
    } else {
      var rest, last := ts[..|ts| - 1], ts[|ts| - 1];
      SortIsStable(rest, t);
      InsertIsStable(SortByTime(rest), last, t);
      AtTimeSnoc(SortByTime(rest), last, t);
      AtTimeSnoc(rest, last, t);
      assert ts == rest + [last];
    }
  }

  /** The list without the entries of one record. */
  function WithoutId(ts: seq<Stamp>, id: Uuid): seq<Stamp> {
    if ts == [] then []
    else WithoutId(ts[..|ts| - 1], id) + if ts[|ts| - 1].id == id then [] else [ts[|ts| - 1]]
  }

  lemma {:induction false} WithoutIdFilters(ts: seq<Stamp>, id: Uuid)
    requires Sorted(ts) && DistinctIds(ts)
    ensures Sorted(WithoutId(ts, id)) && DistinctIds(WithoutId(ts, id))
    ensures forall s :: s in WithoutId(ts, id) <==> s in ts && s.id != id
  {
    if ts == [] {
    } else {
      var n := |ts| - 1;
      var rest, r := ts[..n], WithoutId(ts[..n], id);
      assert ts == rest + [ts[n]];
      WithoutIdFilters(rest, id);
      forall i | 0 <= i < |r| ensures r[i].time <= ts[n].time && r[i].id != ts[n].id {
        assert r[i] in r;
        assert r[i] in rest;
      }
    }
  }

  ghost predicate DistinctIds(ts: seq<Stamp>) {
    forall i, j :: 0 <= i < j < |ts| ==> ts[i].id != ts[j].id
  }

  /** The time list is sorted and holds one stamp per record. */
  ghost predicate TimesExact(ts: seq<Stamp>, records: map<Uuid, MemoryRecord>) {
    && Sorted(ts)
    && DistinctIds(ts)
    && forall s :: s in ts <==> s.id in records && s.time == records[s.id].createdAt
  }

  lemma PermutationKeepsIds(ts: seq<Stamp>, r: seq<Stamp>)
    requires multiset(ts) == multiset(r) && DistinctIds(ts)
    ensures DistinctIds(r) && forall s :: s in r <==> s in ts
  {
    forall s ensures s in r <==> s in ts {
      assert s in r <==> s in multiset(r);
    }
    forall i, j | 0 <= i < j < |r| ensures r[i].id != r[j].id {
      assert r == r[..j] + [r[j]] + r[j + 1..];
      assert multiset(r[..j])[r[i]] >= 1;
      assert multiset(r) == multiset(r[..j]) + multiset{r[j]} + multiset(r[j + 1..]);
      DistinctIdsCount(ts, r[j]);
      assert r[i] in ts && r[j] in ts;
    }
  }

  lemma {:induction false} DistinctIdsCount(ts: seq<Stamp>, s: Stamp)
    requires DistinctIds(ts)
    ensures multiset(ts)[s] <= 1
  {
    if ts == [] {
    } else {
      var n := |ts| - 1;
      assert ts == ts[..n] + [ts[n]];
      DistinctIdsCount(ts[..n], s);
      assert ts[n] !in ts[..n];
    }
  }

  ghost predicate TypesExact(index: map<Text, set<Uuid>>, records: map<Uuid, MemoryRecord>) {
    forall t, k :: k in Ids(index, t) <==> k in records && records[k].memoryType == t
  }

  lemma TimesAt(ts: seq<Stamp>, records: map<Uuid, MemoryRecord>, i: nat)
    requires TimesExact(ts, records) && i < |ts|
    ensures ts[i].id in records && ts[i].time == records[ts[i].id].createdAt
    ensures forall k :: 0 <= k < i ==> ts[k].time <= ts[i].time && ts[k].id != ts[i].id
  {
    assert ts[i] in ts;
  }

  lemma TimesCover(ts: seq<Stamp>, records: map<Uuid, MemoryRecord>)
    requires TimesExact(ts, records)
    ensures forall id :: id in records ==> Stamp(records[id].createdAt, id) in ts
  {
  }

  lemma TimesAdd(ts: seq<Stamp>, records: map<Uuid, MemoryRecord>, r: MemoryRecord)
    requires TimesExact(ts, records) && r.memoryId !in records
    ensures TimesExact(SortByTime(ts + [Stamp(r.createdAt, r.memoryId)]), records[r.memoryId := r])
  {
    var ts' := ts + [Stamp(r.createdAt, r.memoryId)];
    SortByTimeSorts(ts');
    assert forall i :: 0 <= i < |ts| ==> ts[i] in ts;
    PermutationKeepsIds(ts', SortByTime(ts'));
  }

  lemma TimesRemove(ts: seq<Stamp>, records: map<Uuid, MemoryRecord>, id: Uuid)
    requires TimesExact(ts, records)
    ensures TimesExact(WithoutId(ts, id), records - {id})
  {
    WithoutIdFilters(ts, id);
  }

  lemma TypesAdd(index: map<Text, set<Uuid>>, records: map<Uuid, MemoryRecord>, r: MemoryRecord)
    requires TypesExact(index, records) && r.memoryId !in records
    ensures TypesExact(index[r.memoryType := Ids(index, r.memoryType) + {r.memoryId}], records[r.memoryId := r])
  {
    var index' := index[r.memoryType := Ids(index, r.memoryType) + {r.memoryId}];
    assert forall t :: t != r.memoryType ==> Ids(index', t) == Ids(index, t);
  }

  lemma TypesRemove(index: map<Text, set<Uuid>>, records: map<Uuid, MemoryRecord>, id: Uuid)
    requires TypesExact(index, records) && id in records
    ensures TypesExact(index[records[id].memoryType := Ids(index, records[id].memoryType) - {id}], records - {id})
  {
    var index' := index[records[id].memoryType := Ids(index, records[id].memoryType) - {id}];
    assert forall t :: t != records[id].memoryType ==> Ids(index', t) == Ids(index, t);
  }

  // ----- the tag index

  /** The tag index after `id` lost the tags `dropped` and gained the tags `added`. */
  ghost predicate Retagged(before: map<Text, set<Uuid>>, after: map<Text, set<Uuid>>, id: Uuid,
                           dropped: seq<Text>, added: seq<Text>) {
    forall t, k :: k in Ids(after, t) <==>
      (k == id && t in added) || (k in Ids(before, t) && !(k == id && t in dropped))
  }

  function TagsIn(tags: map<Uuid, seq<Text>>, id: Uuid): seq<Text> {
    if id in tags then tags[id] else []
  }

  /** The id is filed exactly under the tags that its indexed record carries, if there is one. */
  ghost predicate FiledRight(index: map<Text, set<Uuid>>, tags: map<Uuid, seq<Text>>, id: Uuid) {
    forall t :: id in Ids(index, t) <==> t in TagsIn(tags, id)
  }

  ghost predicate AllFiledRight(index: map<Text, set<Uuid>>, tags: map<Uuid, seq<Text>>) {
    forall id :: FiledRight(index, tags, id)
  }

  lemma RetaggedCompose(a: map<Text, set<Uuid>>, b: map<Text, set<Uuid>>, c: map<Text, set<Uuid>>, id: Uuid,
                        dropped: seq<Text>, added: seq<Text>)
    requires Retagged(a, b, id, dropped, []) && Retagged(b, c, id, [], added)
    ensures Retagged(a, c, id, dropped, added)
  {
    hide Ids;
  }

  lemma RetaggedSame(index: map<Text, set<Uuid>>, id: Uuid)
    ensures Retagged(index, index, id, [], [])
  {
  }

  /** Adding a record takes the id from under the tags of the record indexed so far, as they are now.
      So the id is filed right afterwards iff each tag it was filed under belongs to either record. */
  lemma RightAfterAdd(before: map<Text, set<Uuid>>, after: map<Text, set<Uuid>>, tags: map<Uuid, seq<Text>>, id: Uuid,
                      added: seq<Text>)
    requires Retagged(before, after, id, TagsIn(tags, id), added)
    ensures FiledRight(after, tags[id := added], id) <==>
              forall t :: id in Ids(before, t) ==> t in added || t in TagsIn(tags, id)
    ensures forall k :: k != id && FiledRight(before, tags, k) ==> FiledRight(after, tags[id := added], k)
  {
    hide Ids;
    var tags' := tags[id := added];
    if FiledRight(after, tags', id) {
      forall t | id in Ids(before, t) ensures t in added || t in TagsIn(tags, id) {
        assert t !in TagsIn(tags, id) ==> id in Ids(after, t);
      }
    }
    forall k | k != id && FiledRight(before, tags, k) ensures FiledRight(after, tags', k) {
      assert TagsIn(tags', k) == TagsIn(tags, k);
    }
  }

  lemma AgreesAfterAdd(before: map<Text, set<Uuid>>, after: map<Text, set<Uuid>>, tags: map<Uuid, seq<Text>>, id: Uuid,
                       added: seq<Text>)
    requires Retagged(before, after, id, TagsIn(tags, id), added) && AllFiledRight(before, tags)
    ensures AllFiledRight(after, tags[id := added])
  {
    hide FiledRight, Retagged, Ids;
    RightAfterAdd(before, after, tags, id, added);
    FiledUnder(before, tags, id);
    var tags' := tags[id := added];
    forall k ensures FiledRight(after, tags', k) {
      assert FiledRight(before, tags, k);
    }
  }

  lemma RightAfterRemove(before: map<Text, set<Uuid>>, after: map<Text, set<Uuid>>, tags: map<Uuid, seq<Text>>,
                         id: Uuid, k: Uuid)
    requires Retagged(before, after, id, TagsIn(tags, id), []) && FiledRight(before, tags, k)
    ensures FiledRight(after, tags - {id}, k)
  {
    hide Ids;
  }

  /** Re-adding a record that was changed while indexed leaves it filed right iff no old tag was given up. */
  lemma ReaddAfterMutation(before: map<Text, set<Uuid>>, after: map<Text, set<Uuid>>, tags: map<Uuid, seq<Text>>,
                           id: Uuid, now: seq<Text>)
    requires id in tags && FiledRight(before, tags, id)
    requires Retagged(before, after, id, now, now)
    ensures FiledRight(after, tags[id := now], id) <==> forall t :: t in tags[id] ==> t in now
  {
    hide Ids, FiledRight;
    RightAfterAdd(before, after, tags[id := now], id, now);
    assert tags[id := now][id := now] == tags[id := now];
    FiledUnder(before, tags, id);
  }

  lemma FiledUnder(index: map<Text, set<Uuid>>, tags: map<Uuid, seq<Text>>, id: Uuid)
    requires FiledRight(index, tags, id)
    ensures forall t :: id in Ids(index, t) <==> t in TagsIn(tags, id)
  {
  }

  /** A change in place that is never re-added leaves the record filed right iff the tags are the same. */
  lemma MutationWithoutReadd(index: map<Text, set<Uuid>>, tags: map<Uuid, seq<Text>>, id: Uuid, now: seq<Text>)
    requires id in tags && FiledRight(index, tags, id)
    ensures FiledRight(index, tags[id := now], id) <==> forall t :: t in tags[id] <==> t in now
  {
    hide Ids;
    if FiledRight(index, tags[id := now], id) {
      forall t ensures t in tags[id] <==> t in now {
        assert id in Ids(index, t) <==> t in tags[id];
      }
    }
  }

  class MemoryIndex {
    var idIndex: map<Uuid, MemoryRecord>
    var tagIndex: map<Text, set<Uuid>>
    var typeIndex: map<Text, set<Uuid>>
    var timestamps: seq<Stamp>

    /** Types and times are indexed exactly, whatever happens to the records elsewhere; the time list
        is a sorted permutation of the stamps. */
    ghost predicate Valid()
      reads this
    {
      && (forall k :: k in idIndex ==> idIndex[k].memoryId == k)
      && TypesExact(typeIndex, idIndex)
      && TimesExact(timestamps, idIndex)
    }

    /** The tags that the indexed records carry now. */
    ghost function Tags(): map<Uuid, seq<Text>>
      reads this, idIndex.Values
    {
      map k | k in idIndex :: idIndex[k].tags
    }

    ghost predicate TagsRight(id: Uuid)
      reads this, idIndex.Values
    {
      FiledRight(tagIndex, Tags(), id)
    }

    ghost predicate TagsAgree()
      reads this, idIndex.Values
    {
      AllFiledRight(tagIndex, Tags())
    }

    constructor ()
      ensures Valid() && TagsAgree() && idIndex == map[] && tagIndex == map[]
    {
      idIndex, tagIndex, typeIndex, timestamps := map[], map[], map[], [];
    }

    method Add(record: MemoryRecord)
      requires Valid()
      modifies this
      ensures Valid()
      ensures idIndex == old(idIndex)[record.memoryId := record]
                && Tags() == old(Tags())[record.memoryId := record.tags]
      ensures Retagged(old(tagIndex), tagIndex, record.memoryId, TagsIn(old(Tags()), record.memoryId), record.tags)
      ensures old(TagsAgree()) ==> TagsAgree()
    {
      hide TimesExact, TypesExact, FiledRight, Retagged, Ids;
      var id := record.memoryId;
      ghost var before, tags := tagIndex, Tags();
      if id in idIndex {
        var _ := Remove(id);
      } else {
        RetaggedSame(tagIndex, id);
      }
      ghost var untagged := tagIndex;
      assert idIndex == old(idIndex) - {id} && Tags() == tags - {id};
      File(record);
      RetaggedCompose(before, untagged, tagIndex, id, TagsIn(tags, id), record.tags);
      if old(TagsAgree()) {
        AgreesAfterAdd(before, tagIndex, tags, id, record.tags);
      }
    }

    method File(record: MemoryRecord)
      requires Valid() && record.memoryId !in idIndex
      modifies this
      ensures Valid()
      ensures idIndex == old(idIndex)[record.memoryId := record]
                && Tags() == old(Tags())[record.memoryId := record.tags]
      ensures Retagged(old(tagIndex), tagIndex, record.memoryId, [], record.tags)
    {
      hide TimesExact, TypesExact, Retagged, Ids;
      var id := record.memoryId;
      TimesAdd(timestamps, idIndex, record);
      TypesAdd(typeIndex, idIndex, record);
      idIndex := idIndex[id := record];
      typeIndex := typeIndex[record.memoryType := Ids(typeIndex, record.memoryType) + {id}];
      Tag(record.tags, id);
      timestamps := SortByTime(timestamps + [Stamp(record.createdAt, id)]);
    }

    method Tag(tags: seq<Text>, id: Uuid)
      modifies `tagIndex
      ensures Retagged(old(tagIndex), tagIndex, id, [], tags)
    {
      for i := 0 to |tags|
        invariant forall t, k :: k in Ids(tagIndex, t) <==> k in old(Ids(tagIndex, t)) || (k == id && t in tags[..i])
      {
        tagIndex := tagIndex[tags[i] := Ids(tagIndex, tags[i]) + {id}];
      }
      assert tags[..|tags|] == tags;
    }

    method Untag(tags: seq<Text>, id: Uuid)
      modifies `tagIndex
      ensures Retagged(old(tagIndex), tagIndex, id, tags, [])
    {
      for i := 0 to |tags|
        invariant forall t, k :: k in Ids(tagIndex, t) <==> k in old(Ids(tagIndex, t)) && !(k == id && t in tags[..i])
      {
        tagIndex := tagIndex[tags[i] := Ids(tagIndex, tags[i]) - {id}];
      }
      assert tags[..|tags|] == tags;
    }

    method Remove(id: Uuid) returns (removed: Option<MemoryRecord>)
      requires Valid()
      modifies this
      ensures Valid()
      ensures idIndex == old(idIndex) - {id} && Tags() == old(Tags()) - {id}
      ensures removed == if id in old(idIndex) then Some(old(idIndex)[id]) else None
      ensures Retagged(old(tagIndex), tagIndex, id, TagsIn(old(Tags()), id), [])
      ensures forall k :: old(TagsRight(k)) ==> TagsRight(k)
    {
      hide TimesExact, TypesExact, FiledRight;
      ghost var before, tags := tagIndex, Tags();
      if id !in idIndex {
        assert idIndex - {id} == idIndex && tags - {id} == tags;
        return None;
      }
      TimesRemove(timestamps, idIndex, id);
      TypesRemove(typeIndex, idIndex, id);
      var record := idIndex[id];
      idIndex := idIndex - {id};
      typeIndex := typeIndex[record.memoryType := Ids(typeIndex, record.memoryType) - {id}];
      Untag(record.tags, id);
      timestamps := WithoutId(timestamps, id);
      assert Tags() == tags - {id};
      forall k | old(TagsRight(k)) ensures TagsRight(k) {
        RightAfterRemove(before, tagIndex, tags, id, k);
      }
      return Some(record);
    }

    method GetById(id: Uuid) returns (r: Option<MemoryRecord>)
      ensures r == if id in idIndex then Some(idIndex[id]) else None
    {
      r := if id in idIndex then Some(idIndex[id]) else None;
    }

    /** The indexed records filed under a tag, each once: while the index is right, those carrying it. */
    method GetByTag(tag: Text) returns (rs: seq<MemoryRecord>)
      requires Valid()
      ensures forall r :: r in rs <==>
                r.memoryId in Ids(tagIndex, tag) && r.memoryId in idIndex && idIndex[r.memoryId] == r
      ensures TagsAgree() ==> forall r :: r in rs <==>
                r.memoryId in idIndex && idIndex[r.memoryId] == r && tag in r.tags
      ensures forall i, j :: 0 <= i < j < |rs| ==> rs[i].memoryId != rs[j].memoryId
    {
      rs := Collect(Ids(tagIndex, tag));
      if TagsAgree() {
        forall r: MemoryRecord | r.memoryId in idIndex && idIndex[r.memoryId] == r
          ensures r.memoryId in Ids(tagIndex, tag) <==> tag in r.tags {
          assert FiledRight(tagIndex, Tags(), r.memoryId);
        }
      }
    }

    /** The records of a type, each once. */
    method GetByType(memoryType: Text) returns (rs: seq<MemoryRecord>)
      requires Valid()
      ensures forall r :: r in rs <==> r.memoryId in idIndex && idIndex[r.memoryId] == r && r.memoryType == memoryType
      ensures forall i, j :: 0 <= i < j < |rs| ==> rs[i].memoryId != rs[j].memoryId
    {
      rs := Collect(Ids(typeIndex, memoryType));
    }

    /** The indexed records among `ids`, in the order the set is iterated. */
    method Collect(ids: set<Uuid>) returns (rs: seq<MemoryRecord>)
      requires Valid()
      ensures forall r :: r in rs <==> r.memoryId in ids && r.memoryId in idIndex && idIndex[r.memoryId] == r
      ensures forall i, j :: 0 <= i < j < |rs| ==> rs[i].memoryId != rs[j].memoryId
    {
      rs := [];
      var todo := ids;
      while todo != {}
        invariant todo <= ids
        invariant forall r :: r in rs <==> r.memoryId in ids - todo && r.memoryId in idIndex && idIndex[r.memoryId] == r
        invariant forall i, j :: 0 <= i < j < |rs| ==> rs[i].memoryId != rs[j].memoryId
        decreases todo
      {
        var id :| id in todo;
        if id in idIndex {
          assert forall i :: 0 <= i < |rs| ==> rs[i] in rs;
          rs := rs + [idIndex[id]];
        }
        todo := todo - {id};
      }
    }

    /** The records created in a closed interval, each once, oldest first. */
    method GetByTimeRange(start: Time, end: Time) returns (rs: seq<MemoryRecord>)
      requires Valid()
      ensures forall r :: r in rs <==> r.memoryId in idIndex && idIndex[r.memoryId] == r && start <= r.createdAt <= end
      ensures forall i, j :: 0 <= i < j < |rs| ==>
                rs[i].createdAt <= rs[j].createdAt && rs[i].memoryId != rs[j].memoryId
    {
      hide TypesExact, TimesExact;
      TimesCover(timestamps, idIndex);
      rs := [];
      for i := 0 to |timestamps|
        invariant forall r :: r in rs <==>
                    r.memoryId in idIndex && idIndex[r.memoryId] == r && start <= r.createdAt <= end
                    && Stamp(r.createdAt, r.memoryId) in timestamps[..i]
        invariant forall k, l :: 0 <= k < l < |rs| ==>
            rs[k].createdAt <= rs[l].createdAt && rs[k].memoryId != rs[l].memoryId
      {
        var Stamp(ts, id) := timestamps[i];
        TimesAt(timestamps, idIndex, i);
        assert timestamps[..i + 1] == timestamps[..i] + [timestamps[i]];
        assert forall k :: 0 <= k < |rs| ==> rs[k] in rs;
        if start <= ts <= end {
          if id in idIndex {
            rs := rs + [idIndex[id]];
          }
        }
      }
      assert timestamps[..|timestamps|] == timestamps;
    }

    method Clear()
      modifies this
      ensures Valid() && TagsAgree() && idIndex == map[]
    {
      idIndex, tagIndex, typeIndex, timestamps := map[], map[], map[], [];
    }
  }
}
