/** The L1 cache of `core/memory/memory_engine.py`: an LRU list over the working-memory index.
    What the repository answers is a parameter of each operation. */
module MemoryEngine {
  import opened Basics
  import opened MemoryIndex
  import opened RecencyList

  class MemoryEngine {
    const capacity: nat
    const working: MemoryIndex
    var lruOrder: seq<Uuid>
    ghost var history: seq<Op<Uuid>>

    /** The list is what the history of touches and deletions leaves in a list of this capacity,
        and the index holds exactly the listed ids. */
    ghost predicate Valid()
      reads this, working
    {
      && working.Valid()
      && lruOrder == Run(history, capacity)
      && Elements(lruOrder) == working.idIndex.Keys
    }

    constructor (capacity: nat)
      ensures Valid() && fresh(working) && working.TagsAgree()
      ensures this.capacity == capacity && lruOrder == [] && history == []
    {
      this.capacity := capacity;
      working := new MemoryIndex();
      lruOrder := [];
      history := [];
    }

    /** In every reachable state: no duplicates, one list entry per cached record, within capacity. */
    lemma LruInvariant()
      requires Valid()
      ensures Distinct(lruOrder) && |lruOrder| <= capacity
      ensures forall id :: id in lruOrder <==> id in working.idIndex
    {
      RunFacts(history, capacity);
      assert forall id :: id in lruOrder <==> id in Elements(lruOrder);
    }

    /** Oldest entries leave until the list fits; each takes along the tags it carries. */
    method Evict()
      requires working.Valid() && Distinct(lruOrder) && Elements(lruOrder) == working.idIndex.Keys
      modifies `lruOrder, working
      ensures working.Valid() && Elements(lruOrder) == working.idIndex.Keys
      ensures lruOrder == Last(old(lruOrder), capacity)
      ensures forall id :: id in working.idIndex ==>
                id in old(working.idIndex) && working.idIndex[id] == old(working.idIndex)[id]
      ensures |old(lruOrder)| <= capacity ==> working.idIndex == old(working.idIndex)
      ensures Evicted(old(working.tagIndex), working.tagIndex, old(working.Tags()), working.Tags())
    {
      hide TypesExact, TimesExact, FiledRight, Retagged, Evicted, Elements;
      ghost var n, tags := |lruOrder|, working.Tags();
      NothingEvicted(working.tagIndex, tags);
      while |lruOrder| > capacity
        invariant working.Valid() && Elements(lruOrder) == working.idIndex.Keys && Distinct(lruOrder)
        invariant |lruOrder| <= n && lruOrder == old(lruOrder)[n - |lruOrder|..]
        invariant |lruOrder| >= if n > capacity then capacity else n
        invariant forall id :: id in working.idIndex ==>
                    id in old(working.idIndex) && working.idIndex[id] == old(working.idIndex)[id]
        invariant n <= capacity ==> working.idIndex == old(working.idIndex)
        invariant Evicted(old(working.tagIndex), working.tagIndex, tags, working.Tags())
      {
        var evictId := lruOrder[0];
        assert lruOrder == [evictId] + lruOrder[1..];
        ElementsCons(evictId, lruOrder[1..]);
        lruOrder := lruOrder[1..];
        ghost var index, left := working.tagIndex, working.Tags();
        var _ := working.Remove(evictId);
        EvictOne(old(working.tagIndex), index, working.tagIndex, tags, left, evictId);
      }
      assert old(lruOrder)[0..] == old(lruOrder);
    }

    /** File the record, make it the most recent, evict the oldest. The id is filed right afterwards
        iff each tag it was filed under is carried by this record or by the one cached before it. */
    method UpdateLru(record: MemoryRecord)
      requires Valid()
      modifies this, working
      ensures Valid() && history == old(history) + [Touched(record.memoryId)]
      ensures forall id :: id in working.idIndex ==>
                if id == record.memoryId then working.idIndex[id] == record
                else id in old(working.idIndex) && working.idIndex[id] == old(working.idIndex)[id]
      ensures capacity > 0 ==> record.memoryId in working.idIndex
      ensures record.memoryId in old(working.idIndex) ==>
                working.idIndex == old(working.idIndex)[record.memoryId := record]
      ensures working.TagsRight(record.memoryId) <==>
                forall t :: record.memoryId in old(Ids(working.tagIndex, t)) ==>
                  t in record.tags || t in TagsIn(old(working.Tags()), record.memoryId)
      ensures forall k :: k != record.memoryId && old(working.TagsRight(k)) ==> working.TagsRight(k)
    {
      hide Without, Last, Retagged, FiledRight, Evicted, Run, Elements, TypesExact, TimesExact, Ids;
      LruInvariant();
      var id := record.memoryId;
      ghost var index, tags := working.tagIndex, working.Tags();
      TouchFacts(history, lruOrder, id, capacity);
      working.Add(record);
      ghost var added := working.tagIndex;
      RightAfterAdd(index, added, tags, id, record.tags);
      if id in lruOrder {
        lruOrder := Without(lruOrder, id);
      }
      lruOrder := lruOrder + [id];
      Evict();
      RightAfterEvict(index, added, working.tagIndex, tags, record, working.Tags());
      history := history + [Touched(id)];
    }

    /** Both paths of `store` end by caching the record: the stored one when the content is known,
        the new one otherwise. */
    method Store(existing: Option<MemoryRecord>, created: MemoryRecord) returns (id: Uuid)
      requires Valid()
      modifies this, working
      ensures Valid()
      ensures id == (if existing.Some? then existing.value else created).memoryId
      ensures history == old(history) + [Touched(id)]
      ensures capacity > 0 ==>
                id in working.idIndex && working.idIndex[id] == (if existing.Some? then existing.value else created)
      ensures forall k :: k in working.idIndex && k != id ==>
                k in old(working.idIndex) && working.idIndex[k] == old(working.idIndex)[k]
      ensures id in old(working.idIndex) ==> working.idIndex.Keys == old(working.idIndex.Keys)
      ensures forall k :: old(working.TagsRight(k)) ==> working.TagsRight(k)
    {
      hide FiledRight, Run, Elements, TypesExact, TimesExact;
      ghost var known := if existing.Some? then existing.value.memoryId else created.memoryId;
      if old(working.TagsRight(known)) {
        FiledUnder(working.tagIndex, working.Tags(), known);
      }
      if existing.Some? {
        UpdateLru(existing.value);
        return existing.value.memoryId;
      }
      UpdateLru(created);
      return created.memoryId;
    }

    /** Up to the await of `retrieve`: a cached record is returned and becomes the most recent. */
    method RetrieveCached(id: Uuid) returns (record: Option<MemoryRecord>)
      requires Valid()
      modifies this, working
      ensures Valid() && record == if id in old(working.idIndex) then Some(old(working.idIndex)[id]) else None
      ensures working.idIndex == old(working.idIndex) && working.Tags() == old(working.Tags())
      ensures record.None? ==> working.tagIndex == old(working.tagIndex) && history == old(history)
      ensures record.Some? ==> history == old(history) + [Touched(id)]
      ensures record.Some? ==> (working.TagsRight(id) <==>
                forall t :: id in old(Ids(working.tagIndex, t)) ==> t in record.value.tags)
      ensures forall k :: k != id && old(working.TagsRight(k)) ==> working.TagsRight(k)
    {
      hide FiledRight, Run, Elements, Ids, TypesExact, TimesExact;
      record := working.GetById(id);
      if record.Some? {
        UpdateLru(record.value);
        assert working.idIndex == old(working.idIndex);
      }
    }

    /** After the await, when the id was not cached before it. */
    method RetrieveStored(id: Uuid, stored: Option<MemoryRecord>) returns (record: Option<MemoryRecord>)
      requires Valid() && (stored.Some? ==> stored.value.memoryId == id)
      modifies this, working
      ensures Valid() && record == stored
      ensures record.None? ==>
                && working.idIndex == old(working.idIndex) && working.tagIndex == old(working.tagIndex)
                && history == old(history)
      ensures record.Some? ==> history == old(history) + [Touched(id)]
      ensures record.Some? && capacity > 0 ==> id in working.idIndex
      ensures record.Some? && id in working.idIndex ==> working.idIndex[id] == record.value
      ensures forall k :: k in working.idIndex && k != id ==>
                k in old(working.idIndex) && working.idIndex[k] == old(working.idIndex)[k]
      ensures forall k :: old(working.TagsRight(k)) ==> working.TagsRight(k)
    {
      hide FiledRight, Run, Elements, TypesExact, TimesExact;
      record := stored;
      if record.Some? {
        if old(working.TagsRight(id)) {
          FiledUnder(working.tagIndex, working.Tags(), id);
        }
        UpdateLru(record.value);
      }
    }

    /** Both halves with nothing in between. */
    method Retrieve(id: Uuid, stored: Option<MemoryRecord>) returns (record: Option<MemoryRecord>)
      requires Valid() && (stored.Some? ==> stored.value.memoryId == id)
      modifies this, working
      ensures Valid()
      ensures record == if id in old(working.idIndex) then Some(old(working.idIndex)[id]) else stored
      ensures history == if record.Some? then old(history) + [Touched(id)] else old(history)
      ensures record.Some? && capacity > 0 ==> id in working.idIndex
      ensures record.Some? && id in working.idIndex ==> working.idIndex[id] == record.value
      ensures record.None? ==> working.idIndex == old(working.idIndex) && working.tagIndex == old(working.tagIndex)
      ensures forall k :: k in working.idIndex && k != id ==>
                k in old(working.idIndex) && working.idIndex[k] == old(working.idIndex)[k]
      ensures forall k :: old(working.TagsRight(k)) ==> working.TagsRight(k)
      ensures record.Some? ==> record.value.memoryId == id
    {
      hide FiledRight, Run, Elements, TypesExact, TimesExact;
      if old(working.TagsRight(id)) {
        FiledUnder(working.tagIndex, working.Tags(), id);
      }
      record := RetrieveCached(id);
      if record.None? {
        record := RetrieveStored(id, stored);
      }
    }

    /** Before the await of `update`: the record object is changed in place. */
    method ChangeRecord(record: MemoryRecord, content: Option<Text>, tags: Option<seq<Text>>)
      modifies record
      ensures record.content == (if content.Some? then content.value else old(record.content))
      ensures record.tags == (if tags.Some? then tags.value else old(record.tags))
                && record.version == old(record.version)
    {
      if content.Some? {
        record.content := content.value;
      }
      if tags.Some? {
        record.tags := tags.value;
      }
    }

    /** After the await of `update`, whatever ran meanwhile: an accepted record is cached again, even
        if it was deleted or replaced; the id is filed right then iff each tag it is filed under is
        carried by this record or the one cached now. A refused update does nothing more. */
    method FinishUpdate(record: MemoryRecord, accepted: Option<int>) returns (ok: bool)
      requires Valid()
      modifies this, working, record`version
      ensures Valid() && ok == accepted.Some?
      ensures !ok ==>
                && working.idIndex == old(working.idIndex) && working.Tags() == old(working.Tags())
                && working.tagIndex == old(working.tagIndex)
                && history == old(history) && record.version == old(record.version)
      ensures ok ==> history == old(history) + [Touched(record.memoryId)] && record.version == accepted.value
      ensures ok && capacity > 0 ==> record.memoryId in working.idIndex && working.idIndex[record.memoryId] == record
      ensures forall k :: k in working.idIndex && k != record.memoryId ==>
                k in old(working.idIndex) && working.idIndex[k] == old(working.idIndex)[k]
      ensures ok ==> (working.TagsRight(record.memoryId) <==>
                forall t :: record.memoryId in old(Ids(working.tagIndex, t)) ==>
                  t in record.tags || t in TagsIn(old(working.Tags()), record.memoryId))
      ensures forall k :: k != record.memoryId && old(working.TagsRight(k)) ==> working.TagsRight(k)
    {
      hide FiledRight, Run, Elements, Ids, TypesExact, TimesExact;
      if accepted.None? {
        return false;
      }
      record.version := accepted.value;
      assert working.Tags() == old(working.Tags());
      UpdateLru(record);
      return true;
    }

    /** The rest of an update once its record is found, with nothing else running at the await. */
    method UpdateFound(record: MemoryRecord, content: Option<Text>, tags: Option<seq<Text>>, accepted: Option<int>)
      returns (ok: bool)
      requires Valid() && (capacity > 0 <==> record.memoryId in working.idIndex)
      requires capacity > 0 ==> working.idIndex[record.memoryId] == record
      modifies this, working, record
      ensures Valid() && ok == accepted.Some?
      ensures history == if ok then old(history) + [Touched(record.memoryId)] else old(history)
      ensures forall k :: k in working.idIndex && k != record.memoryId ==>
                k in old(working.idIndex) && working.idIndex[k] == old(working.idIndex)[k]
      ensures forall k :: k != record.memoryId && old(working.TagsRight(k)) ==> working.TagsRight(k)
      ensures record.content == (if content.Some? then content.value else old(record.content))
      ensures record.tags == (if tags.Some? then tags.value else old(record.tags))
      ensures record.version == (if ok then accepted.value else old(record.version))
      ensures capacity > 0 ==> record.memoryId in working.idIndex && working.idIndex[record.memoryId] == record
      ensures old(working.TagsRight(record.memoryId)) ==>
                (working.TagsRight(record.memoryId) <==> capacity == 0 || TagsKept(ok, old(record.tags), record.tags))
    {
      hide FiledRight, Run, Elements, Ids, TypesExact, TimesExact;
      ghost var id, index, before, was := record.memoryId, working.tagIndex, working.Tags(), record.tags;
      ChangeRecord(record, content, tags);
      ghost var now := working.Tags();
      assert if id in before then now == before[id := record.tags] else now == before;
      OthersUntouched(index, before, now, id);
      if FiledRight(index, before, id) {
        Verdict(index, before, now, id, was, record.tags);
      }
      ok := FinishUpdate(record, accepted);
    }

    /** An update with nothing else running at its awaits: the id is filed right afterwards iff the
        accepted update gave up no tag, or the refused one left the set of tags alone. */
    method Update(id: Uuid, stored: Option<MemoryRecord>, content: Option<Text>, tags: Option<seq<Text>>,
                  accepted: Option<int>)
      returns (ok: bool)
      requires Valid() && (stored.Some? ==> stored.value.memoryId == id)
      modifies this, working
      modifies if id in working.idIndex then {working.idIndex[id]} else if stored.Some? then {stored.value} else {}
      ensures Valid()
      ensures ok <==> (id in old(working.idIndex) || stored.Some?) && accepted.Some?
      ensures history == old(history) + (if id !in old(working.idIndex) && stored.None? then []
                                         else if ok then [Touched(id), Touched(id)] else [Touched(id)])
      ensures forall k :: k in working.idIndex && k != id ==>
                k in old(working.idIndex) && working.idIndex[k] == old(working.idIndex)[k]
      ensures forall k :: k != id && old(working.TagsRight(k)) ==> working.TagsRight(k)
      ensures id in old(working.idIndex) || stored.Some? ==>
                var record := if id in old(working.idIndex) then old(working.idIndex)[id] else stored.value;
                && record.content == (if content.Some? then content.value else old(record.content))
                && record.tags == (if tags.Some? then tags.value else old(record.tags))
                && record.version == (if ok then accepted.value else old(record.version))
                && (capacity > 0 ==> id in working.idIndex && working.idIndex[id] == record)
                && (old(working.TagsRight(id)) ==>
                      (working.TagsRight(id) <==> capacity == 0 || TagsKept(ok, old(record.tags), record.tags)))
    {
      hide FiledRight, Run, Elements, Ids, TypesExact, TimesExact, TagsKept;
      var found := Retrieve(id, stored);
      if found.None? {
        return false;
      }
      LruInvariant();
      ok := UpdateFound(found.value, content, tags, accepted);
    }

    method Delete(id: Uuid, deleted: bool) returns (ok: bool)
      requires Valid()
      modifies this, working
      ensures Valid() && ok == deleted
      ensures history == old(history) + [Deleted(id)]
      ensures working.idIndex == old(working.idIndex) - {id}
      ensures forall k :: old(working.TagsRight(k)) ==> working.TagsRight(k)
    {
      hide Without, Run, FiledRight, TypesExact, TimesExact;
      LruInvariant();
      DeleteFacts(history, lruOrder, id, capacity);
      var _ := working.Remove(id);
      if id in lruOrder {
        lruOrder := Without(lruOrder, id);
      }
      history := history + [Deleted(id)];
      ok := deleted;
    }
  }

  lemma OthersUntouched(index: map<Text, set<Uuid>>, tags: map<Uuid, seq<Text>>, tags': map<Uuid, seq<Text>>, id: Uuid)
    requires forall k :: k != id ==> TagsIn(tags', k) == TagsIn(tags, k)
    ensures forall k :: k != id && FiledRight(index, tags, k) ==> FiledRight(index, tags', k)
  {
  }

  /** No old tag is missing, and after a refused update none is new. */
  ghost predicate TagsKept(accepted: bool, was: seq<Text>, now: seq<Text>) {
    forall t :: (t in was ==> t in now) && (!accepted && t in now ==> t in was)
  }

  /** An update that ran alone, in terms of the tags before and after it. */
  lemma Verdict(index: map<Text, set<Uuid>>, before: map<Uuid, seq<Text>>, after: map<Uuid, seq<Text>>, id: Uuid,
                was: seq<Text>, now: seq<Text>)
    requires FiledRight(index, before, id)
    requires if id in before then before[id] == was && after == before[id := now] else after == before
    ensures (forall t :: id in Ids(index, t) ==> t in now || t in TagsIn(after, id)) <==>
              id !in before || TagsKept(true, was, now)
    ensures FiledRight(index, after, id) <==> id !in before || TagsKept(false, was, now)
  {
    hide Ids;
    if id in before {
      MutationWithoutReadd(index, before, id, now);
    }
    if (forall t :: id in Ids(index, t) ==> t in now || t in TagsIn(after, id)) && id in before {
      forall t | t in was ensures t in now {
        assert id in Ids(index, t);
      }
    }
  }

  /** Records have left the cache, each with the tags it carried. */
  ghost predicate Evicted(before: map<Text, set<Uuid>>, after: map<Text, set<Uuid>>, tags: map<Uuid, seq<Text>>,
                          left: map<Uuid, seq<Text>>) {
    && (forall k :: k in left ==> k in tags && left[k] == tags[k])
    && (forall t, k :: k in Ids(after, t) <==> k in Ids(before, t) && (k in left || t !in TagsIn(tags, k)))
  }

  lemma NothingEvicted(index: map<Text, set<Uuid>>, tags: map<Uuid, seq<Text>>)
    ensures Evicted(index, index, tags, tags)
  {
  }

  lemma EvictOne(a: map<Text, set<Uuid>>, b: map<Text, set<Uuid>>, c: map<Text, set<Uuid>>,
                 tags: map<Uuid, seq<Text>>, left: map<Uuid, seq<Text>>, id: Uuid)
    requires Evicted(a, b, tags, left) && Retagged(b, c, id, TagsIn(left, id), []) && id in left
    ensures Evicted(a, c, tags, left - {id})
  {
    hide Ids;
  }

  /** Adding a record and evicting: what it comes to for the ids filed right. */
  lemma RightAfterEvict(before: map<Text, set<Uuid>>, added: map<Text, set<Uuid>>, after: map<Text, set<Uuid>>,
                        tags: map<Uuid, seq<Text>>, record: MemoryRecord, left: map<Uuid, seq<Text>>)
    requires Retagged(before, added, record.memoryId, TagsIn(tags, record.memoryId), record.tags)
    requires Evicted(added, after, tags[record.memoryId := record.tags], left)
    ensures FiledRight(after, left, record.memoryId) <==>
              forall t :: record.memoryId in Ids(before, t) ==> t in record.tags || t in TagsIn(tags, record.memoryId)
    ensures forall k :: k != record.memoryId && FiledRight(before, tags, k) ==> FiledRight(after, left, k)
  {
    hide Ids;
    var id, tags' := record.memoryId, tags[record.memoryId := record.tags];
    RightAfterAdd(before, added, tags, id, record.tags);
    forall k | FiledRight(added, tags', k) ensures FiledRight(after, left, k) {
      assert k in left ==> TagsIn(left, k) == TagsIn(tags', k);
    }
    if FiledRight(after, left, id) {
      forall t ensures id in Ids(added, t) <==> t in TagsIn(tags', id) {
        assert id in Ids(after, t) <==> t in TagsIn(left, id);
      }
    }
  }

  lemma ElementsCons(x: Uuid, l: seq<Uuid>)
    requires Distinct([x] + l)
    ensures Elements([x] + l) == {x} + Elements(l) && x !in Elements(l) && Distinct(l)
  {
    assert ([x] + l)[0] == x;
    assert forall i :: 0 <= i < |l| ==> ([x] + l)[i + 1] == l[i];
  }

  /** The list before eviction after a touch. */
  lemma TouchFacts(history: seq<Op<Uuid>>, l: seq<Uuid>, id: Uuid, capacity: nat)
    requires l == Run(history, capacity)
    ensures (if id in l then Without(l, id) else l) == Without(l, id)
    ensures Run(history + [Touched(id)], capacity) == Last(Without(l, id) + [id], capacity)
    ensures Distinct(Without(l, id) + [id]) && Elements(Without(l, id) + [id]) == Elements(l) + {id}
    ensures id in l ==> |Without(l, id) + [id]| <= capacity
    ensures capacity > 0 ==> id in Last(Without(l, id) + [id], capacity)
    ensures id in l <==> id in Elements(l)
    ensures forall x :: x in Last(Without(l, id) + [id], capacity) ==>
              x in Elements(Last(Without(l, id) + [id], capacity))
  {
    RunFacts(history, capacity);
    WithoutFacts(l, id);
    if id !in l {
      WithoutAbsent(l, id);
    }
    assert (history + [Touched(id)])[..|history|] == history;
    var l', w := Without(l, id) + [id], Without(l, id);
    assert forall x :: x in l' <==> x in w || x == id;
    assert forall i :: 0 <= i < |w| ==> w[i] in w;
    if capacity > 0 {
      assert Last(l', capacity)[|Last(l', capacity)| - 1] == id;
    }
  }

  lemma DeleteFacts(history: seq<Op<Uuid>>, l: seq<Uuid>, id: Uuid, capacity: nat)
    requires l == Run(history, capacity)
    ensures (if id in l then Without(l, id) else l) == Without(l, id) == Run(history + [Deleted(id)], capacity)
    ensures Elements(Without(l, id)) == Elements(l) - {id}
  {
    RunFacts(history, capacity);
    WithoutFacts(l, id);
    if id !in l {
      WithoutAbsent(l, id);
    }
    assert (history + [Deleted(id)])[..|history|] == history;
  }

  // ----- where an update goes wrong

  method CachedRecord(id: Uuid, kind: Text, tags: seq<Text>, content: Text)
    returns (engine: MemoryEngine, record: MemoryRecord)
    ensures fresh(engine) && fresh(engine.working) && fresh(record)
    ensures engine.Valid() && engine.capacity == 1 && record.memoryId == id && record.tags == tags
    ensures id in engine.working.idIndex && engine.working.idIndex[id] == record && engine.working.TagsRight(id)
  {
    hide FiledRight, Run, Elements, TypesExact, TimesExact;
    engine := new MemoryEngine(1);
    record := new MemoryRecord(id, kind, 0, tags, content, 1);
    assert engine.working.TagsRight(id);
    var _ := engine.Store(None, record);
  }

  /** An accepted update that drops the only tag leaves the record filed under a tag it lacks. */
  method StaleTagExample(id: Uuid, kind: Text, tag: Text, content: Text) returns (engine: MemoryEngine)
    ensures engine.Valid() && id in engine.working.idIndex && engine.working.idIndex[id].tags == []
    ensures !engine.working.TagsRight(id) && exists t :: id in Ids(engine.working.tagIndex, t)
  {
    hide Run, Elements, TypesExact, TimesExact;
    var record;
    engine, record := CachedRecord(id, kind, [tag], content);
    assert tag in [tag];
    var _ := engine.Update(id, None, None, Some([]), Some(2));
  }

  /** A refused update that gained a tag is put right by a hit during its await ... */
  method HitRepairsExample(id: Uuid, kind: Text, tag: Text, content: Text) returns (engine: MemoryEngine)
    ensures engine.Valid() && id in engine.working.idIndex && engine.working.idIndex[id].tags == [tag]
              && engine.working.TagsRight(id)
  {
    hide Run, Elements, TypesExact, TimesExact, FiledRight, Ids;
    var record;
    engine, record := CachedRecord(id, kind, [], content);
    FiledUnder(engine.working.tagIndex, engine.working.Tags(), id);
    engine.ChangeRecord(record, None, Some([tag]));
    var _ := engine.RetrieveCached(id);
    var _ := engine.FinishUpdate(record, None);
  }

  /** ... and a deletion during the await of an accepted one is undone. */
  method DeletionUndoneExample(id: Uuid, kind: Text, content: Text) returns (engine: MemoryEngine)
    ensures engine.Valid() && id in engine.working.idIndex
  {
    hide Run, Elements, TypesExact, TimesExact, FiledRight, Ids;
    var record;
    engine, record := CachedRecord(id, kind, [], content);
    engine.ChangeRecord(record, Some(content), None);
    var _ := engine.Delete(id, true);
    assert id !in engine.working.idIndex;
    var _ := engine.FinishUpdate(record, Some(2));
  }
}
