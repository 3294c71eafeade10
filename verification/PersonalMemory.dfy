/** `MemoryIntelligenceService.add_or_update_memory`: versioned facts under lock levels, over an
    append-only table of rows. Fresh ids and the clock are arguments. */
module PersonalMemory {
  import opened Basics

  datatype LockLevel = NORMAL | PINNED | SYSTEM_LOCKED | OTHER(name: Text)

  datatype Error = SystemLockedFact | PinnedFact

  datatype Row = Row(memoryId: Uuid, fact: Text, tier: int, nameSpace: Text, lockLevel: LockLevel, version: int,
                     isActive: bool, pinned: bool, frequency: int, syncVersion: int, aliases: seq<Text>,
                     extraMetadata: Option<Text>, createdAt: Time, updatedAt: Time)

  /** The arguments of a call; missing aliases are an empty list. */
  datatype Request = Request(fact: Text, tier: int, nameSpace: Text, lockLevel: LockLevel, aliases: seq<Text>,
                             extraMetadata: Option<Text>)

  predicate Active(row: Row, nameSpace: Text) {
    row.isActive && row.nameSpace == nameSpace
  }

  /** Does an active row of the namespace state the same fact, or share an alias? `norm` strips and
      lower-cases. */
  predicate Matches(norm: Text -> Text, row: Row, req: Request) {
    && Active(row, req.nameSpace)
    && (norm(row.fact) == norm(req.fact) || exists a :: a in req.aliases && a in row.aliases)
  }

  /** The position of a match, `|rows|` when there is none. */
  ghost predicate IsMatch(norm: Text -> Text, rows: seq<Row>, req: Request, i: nat) {
    if i < |rows| then Matches(norm, rows[i], req)
    else i == |rows| && forall k :: 0 <= k < |rows| ==> !Matches(norm, rows[k], req)
  }

  /** What the query answers: the active rows of the namespace, in any order. */
  ghost predicate IsReply(rows: seq<Row>, nameSpace: Text, reply: seq<nat>) {
    forall p: nat :: p in reply <==> p < |rows| && Active(rows[p], nameSpace)
  }

  ghost predicate NoneMatches(norm: Text -> Text, rows: seq<Row>, req: Request, reply: seq<nat>) {
    forall k :: 0 <= k < |reply| ==> reply[k] < |rows| && !Matches(norm, rows[reply[k]], req)
  }

  /** The match is the first one in the reply. */
  ghost predicate IsFirst(norm: Text -> Text, rows: seq<Row>, req: Request, reply: seq<nat>, i: nat) {
    exists j :: 0 <= j < |reply| && reply[j] == i && NoneMatches(norm, rows, req, reply[..j])
  }

  predicate Refused(was: Row, req: Request) {
    was.lockLevel == SYSTEM_LOCKED || (was.lockLevel == PINNED && req.lockLevel != PINNED)
  }

  function FirstVersion(req: Request, id: Uuid, now: Time): Row {
    Row(id, req.fact, req.tier, req.nameSpace, req.lockLevel, 1, true,
        req.lockLevel == PINNED || req.lockLevel == SYSTEM_LOCKED, 1, 0, req.aliases, req.extraMetadata, now, now)
  }

  function NextVersion(was: Row, req: Request, now: Time): Row {
    Row(was.memoryId, req.fact, req.tier, req.nameSpace, req.lockLevel, was.version + 1, true,
        req.lockLevel == PINNED || req.lockLevel == SYSTEM_LOCKED, was.frequency + 1, was.syncVersion + 1,
        if req.aliases == [] then was.aliases else req.aliases,
        if req.extraMetadata.None? then was.extraMetadata else req.extraMetadata, was.createdAt, now)
  }

  /** The table after the writes of a call that has read `matched` at position `i`. */
  function Written(rows: seq<Row>, req: Request, i: nat, matched: Option<Row>, id: Uuid, now: Time): seq<Row>
    requires matched.Some? ==> i < |rows|
  {
    match matched
    case None => rows + [FirstVersion(req, id, now)]
    case Some(was) =>
      if Refused(was, req) then rows else rows[i := rows[i].(isActive := false)] + [NextVersion(was, req, now)]
  }

  /** ... if nothing was written since. */
  function Applied(rows: seq<Row>, req: Request, i: nat, id: Uuid, now: Time): seq<Row> {
    Written(rows, req, i, if i < |rows| then Some(rows[i]) else None, id, now)
  }

  /** The new row, field by field: what the call says, what it leaves open as in the row it supersedes,
      and the bookkeeping of its version. */
  ghost predicate IsNewRow(row: Row, req: Request, matched: Option<Row>, id: Uuid, now: Time) {
    && row.fact == req.fact && row.tier == req.tier && row.nameSpace == req.nameSpace && row.lockLevel == req.lockLevel
    && row.pinned == (req.lockLevel == PINNED || req.lockLevel == SYSTEM_LOCKED) && row.isActive && row.updatedAt == now
    && (req.aliases != [] ==> row.aliases == req.aliases)
    && (req.extraMetadata.Some? ==> row.extraMetadata == req.extraMetadata)
    && match matched
       case None =>
         && row.memoryId == id && row.createdAt == now && row.aliases == req.aliases
         && row.extraMetadata == req.extraMetadata
         && row.version == 1 && row.frequency == 1 && row.syncVersion == 0
       case Some(was) =>
         && row.memoryId == was.memoryId && row.createdAt == was.createdAt
         && (req.aliases == [] ==> row.aliases == was.aliases)
         && (req.extraMetadata.None? ==> row.extraMetadata == was.extraMetadata)
         && row.version == was.version + 1 && row.frequency == was.frequency + 1
         && row.syncVersion == was.syncVersion + 1
  }

  /** A successful call appends such a row and changes no other but that the superseded one is no
      longer active. */
  ghost predicate OneRowMore(before: seq<Row>, after: seq<Row>, req: Request, i: nat, matched: Option<Row>, id: Uuid,
                             now: Time) {
    && |after| == |before| + 1 && IsNewRow(after[|before|], req, matched, id, now)
    && forall k :: 0 <= k < |before| ==>
         after[k] == if matched.Some? && k == i then before[k].(isActive := false) else before[k]
  }

  // ----- the version chains

  ghost predicate CountersOk(rows: seq<Row>) {
    forall i :: 0 <= i < |rows| ==>
      rows[i].version >= 1 && rows[i].frequency == rows[i].version && rows[i].syncVersion == rows[i].version - 1
  }

  /** Of two rows of one memory the later has the higher version, and only the last can be active. */
  ghost predicate PairsOk(rows: seq<Row>) {
    forall i, j :: 0 <= i < j < |rows| && rows[i].memoryId == rows[j].memoryId ==>
      && rows[i].nameSpace == rows[j].nameSpace && rows[i].createdAt == rows[j].createdAt
      && rows[i].version < rows[j].version && !rows[i].isActive
  }

  /** No version number is skipped, and an inactive version has been superseded. */
  ghost predicate LinksOk(rows: seq<Row>) {
    && (forall i {:trigger HasPredecessor(rows, i)} :: 0 <= i < |rows| && rows[i].version > 1 ==>
        HasPredecessor(rows, i))
    && (forall i {:trigger HasSuccessor(rows, i)} :: 0 <= i < |rows| && !rows[i].isActive ==> HasSuccessor(rows, i))
  }

  /** Rows of one memory: numbered upwards without gaps from 1, in one namespace, created once, the
      last one active and no other; counters follow the version. */
  ghost predicate ChainsOk(rows: seq<Row>) {
    CountersOk(rows) && PairsOk(rows) && LinksOk(rows)
  }

  ghost predicate HasPredecessor(rows: seq<Row>, i: nat)
    requires i < |rows|
  {
    exists j :: 0 <= j < i && rows[j].memoryId == rows[i].memoryId && rows[j].version == rows[i].version - 1
  }

  ghost predicate HasSuccessor(rows: seq<Row>, i: nat)
    requires i < |rows|
  {
    exists j :: i < j < |rows| && rows[j].memoryId == rows[i].memoryId
  }

  /** A pinned memory stays pinned; a system-locked version is never followed by another. */
  ghost predicate LocksOk(rows: seq<Row>) {
    forall i, j :: 0 <= i < j < |rows| && rows[i].memoryId == rows[j].memoryId ==>
      rows[i].lockLevel != SYSTEM_LOCKED && (rows[i].lockLevel == PINNED ==> rows[j].lockLevel == PINNED)
  }

  /** Aliases and metadata, once given, are carried to every later version; the flag follows the lock. */
  ghost predicate CarriedOk(rows: seq<Row>) {
    && (forall i :: 0 <= i < |rows| ==>
        (rows[i].pinned <==> rows[i].lockLevel == PINNED || rows[i].lockLevel == SYSTEM_LOCKED))
    && (forall i, j :: 0 <= i < j < |rows| && rows[i].memoryId == rows[j].memoryId ==>
          && (rows[i].aliases != [] ==> rows[j].aliases != [])
          && (rows[i].extraMetadata.Some? ==> rows[j].extraMetadata.Some?))
  }

  ghost predicate FreshId(rows: seq<Row>, id: Uuid) {
    forall i :: 0 <= i < |rows| ==> rows[i].memoryId != id
  }

  /** Links between rows survive changes that keep the rows' identity and version. */
  lemma LinksCarried(rows: seq<Row>, rows': seq<Row>, k: nat)
    requires k < |rows| <= |rows'|
    requires forall j :: 0 <= j < |rows| ==>
        rows'[j].memoryId == rows[j].memoryId && rows'[j].version == rows[j].version
    ensures HasPredecessor(rows, k) ==> HasPredecessor(rows', k)
    ensures HasSuccessor(rows, k) ==> HasSuccessor(rows', k)
  {
    if HasPredecessor(rows, k) {
      var j :| 0 <= j < k && rows[j].memoryId == rows[k].memoryId && rows[j].version == rows[k].version - 1;
      assert rows'[j].memoryId == rows'[k].memoryId;
    }
    if HasSuccessor(rows, k) {
      var j :| k < j < |rows| && rows[j].memoryId == rows[k].memoryId;
      assert rows'[j].memoryId == rows'[k].memoryId;
    }
  }

  lemma NewMemoryChains(rows: seq<Row>, row: Row)
    requires ChainsOk(rows) && FreshId(rows, row.memoryId)
    requires row.version == row.frequency == 1 && row.syncVersion == 0 && row.isActive
    ensures ChainsOk(rows + [row])
  {
    hide HasPredecessor, HasSuccessor;
    forall k | 0 <= k < |rows| ensures HasPredecessor(rows, k) ==> HasPredecessor(rows + [row], k)
      ensures HasSuccessor(rows, k) ==> HasSuccessor(rows + [row], k)
    {
      LinksCarried(rows, rows + [row], k);
    }
  }

  /** The active row is the last of its memory. */
  lemma ActiveIsLast(rows: seq<Row>, i: nat)
    requires PairsOk(rows) && i < |rows| && rows[i].isActive
    ensures forall j :: 0 <= j < |rows| && rows[j].memoryId == rows[i].memoryId ==> j <= i
  {
  }

  lemma NextVersionPairs(rows: seq<Row>, i: nat, next: Row)
    requires PairsOk(rows) && i < |rows| && rows[i].isActive
    requires next.memoryId == rows[i].memoryId && next.version == rows[i].version + 1
    requires next.nameSpace == rows[i].nameSpace && next.createdAt == rows[i].createdAt
    ensures PairsOk(rows[i := rows[i].(isActive := false)] + [next])
  {
    ActiveIsLast(rows, i);
  }

  lemma NextVersionLinks(rows: seq<Row>, i: nat, next: Row)
    requires LinksOk(rows) && i < |rows|
    requires next.memoryId == rows[i].memoryId && next.version == rows[i].version + 1 && next.isActive
    ensures LinksOk(rows[i := rows[i].(isActive := false)] + [next])
  {
    var rows' := rows[i := rows[i].(isActive := false)] + [next];
    assert rows'[i].memoryId == rows'[|rows|].memoryId && rows'[i].version == rows'[|rows|].version - 1;
    assert HasSuccessor(rows', i) && HasPredecessor(rows', |rows|);
    hide HasPredecessor, HasSuccessor;
    forall k | 0 <= k < |rows| ensures HasPredecessor(rows, k) ==> HasPredecessor(rows', k)
      ensures HasSuccessor(rows, k) ==> HasSuccessor(rows', k)
    {
      LinksCarried(rows, rows', k);
    }
  }

  lemma AppliedChains(norm: Text -> Text, rows: seq<Row>, req: Request, i: nat, id: Uuid, now: Time)
    requires ChainsOk(rows) && IsMatch(norm, rows, req, i) && FreshId(rows, id)
    ensures ChainsOk(Applied(rows, req, i, id, now))
  {
    hide PairsOk, LinksOk;
    if i >= |rows| {
      NewMemoryChains(rows, FirstVersion(req, id, now));
    } else if !Refused(rows[i], req) {
      NextVersionPairs(rows, i, NextVersion(rows[i], req, now));
      NextVersionLinks(rows, i, NextVersion(rows[i], req, now));
    }
  }

  lemma AppliedLocks(norm: Text -> Text, rows: seq<Row>, req: Request, i: nat, id: Uuid, now: Time)
    requires PairsOk(rows) && LocksOk(rows) && CarriedOk(rows) && IsMatch(norm, rows, req, i) && FreshId(rows, id)
    ensures LocksOk(Applied(rows, req, i, id, now)) && CarriedOk(Applied(rows, req, i, id, now))
  {
    if i < |rows| && !Refused(rows[i], req) {
      ActiveIsLast(rows, i);
    }
  }

  /** Calls may overlap between the query and the writes. A call that supersedes a version then keeps
      the chains iff no other has superseded it meanwhile. */
  lemma OverlapKeepsChainsIff(rows: seq<Row>, req: Request, i: nat, was: Row, id: Uuid, now: Time)
    requires ChainsOk(rows) && FreshId(rows, id) && i < |rows|
    requires was == rows[i].(isActive := true) && was.nameSpace == req.nameSpace && !Refused(was, req)
    ensures ChainsOk(Written(rows, req, i, Some(was), id, now)) <==> rows[i].isActive
  {
    hide LinksOk;
    var rows' := Written(rows, req, i, Some(was), id, now);
    if rows[i].isActive {
      NextVersionPairs(rows, i, NextVersion(was, req, now));
      NextVersionLinks(rows, i, NextVersion(was, req, now));
    } else {
      var a := HasActiveVersion(rows, i);
      assert rows'[a].isActive && rows'[a].memoryId == rows'[|rows|].memoryId;
    }
  }

  /** ... it keeps the locks iff no row of the memory, written meanwhile or before, refuses it ... */
  lemma OverlapKeepsLocksIff(rows: seq<Row>, req: Request, i: nat, was: Row, id: Uuid, now: Time)
    requires LocksOk(rows) && i < |rows| && was == rows[i].(isActive := true) && !Refused(was, req)
    ensures LocksOk(Written(rows, req, i, Some(was), id, now)) <==>
              forall k :: 0 <= k < |rows| && rows[k].memoryId == was.memoryId ==> !Refused(rows[k], req)
  {
    var rows' := Written(rows, req, i, Some(was), id, now);
    if LocksOk(rows') {
      forall k | 0 <= k < |rows| && rows[k].memoryId == was.memoryId ensures !Refused(rows[k], req) {
        assert rows'[k].memoryId == rows'[|rows|].memoryId && rows'[k].lockLevel == rows[k].lockLevel;
      }
    }
  }

  /** ... and carries aliases and metadata on iff no row of the memory has some that the new version,
      which takes them from the request or the row as read, lacks. */
  lemma OverlapKeepsCarriedIff(rows: seq<Row>, req: Request, i: nat, was: Row, id: Uuid, now: Time)
    requires CarriedOk(rows) && i < |rows| && was == rows[i].(isActive := true) && !Refused(was, req)
    ensures CarriedOk(Written(rows, req, i, Some(was), id, now)) <==>
              forall k :: 0 <= k < |rows| && rows[k].memoryId == was.memoryId ==>
                && (rows[k].aliases != [] ==> req.aliases != [] || was.aliases != [])
                && (rows[k].extraMetadata.Some? ==> req.extraMetadata.Some? || was.extraMetadata.Some?)
  {
    var rows' := Written(rows, req, i, Some(was), id, now);
    if CarriedOk(rows') {
      forall k | 0 <= k < |rows| && rows[k].memoryId == was.memoryId
        ensures rows[k].aliases != [] ==> req.aliases != [] || was.aliases != []
        ensures rows[k].extraMetadata.Some? ==> req.extraMetadata.Some? || was.extraMetadata.Some? {
        assert rows'[k].memoryId == rows'[|rows|].memoryId && rows'[k].aliases == rows[k].aliases;
      }
    }
  }

  /** One active row states a fact in a namespace. */
  ghost predicate UniqueFacts(norm: Text -> Text, rows: seq<Row>) {
    forall i, j :: 0 <= i < j < |rows| && Active(rows[i], rows[j].nameSpace) && rows[j].isActive ==>
      norm(rows[i].fact) != norm(rows[j].fact)
  }

  /** That is kept iff the call is refused or no active row of the namespace beside the one it
      supersedes states the new fact when it writes. */
  lemma UniqueFactsKeptIff(norm: Text -> Text, rows: seq<Row>, req: Request, i: nat, matched: Option<Row>, id: Uuid,
                           now: Time)
    requires UniqueFacts(norm, rows) && (matched.Some? ==> i < |rows|)
    ensures UniqueFacts(norm, Written(rows, req, i, matched, id, now)) <==>
              || (matched.Some? && Refused(matched.value, req))
              || forall k :: 0 <= k < |rows| && !(matched.Some? && k == i) && Active(rows[k], req.nameSpace) ==>
                   norm(rows[k].fact) != norm(req.fact)
  {
    var rows' := Written(rows, req, i, matched, id, now);
    if UniqueFacts(norm, rows') && !(matched.Some? && Refused(matched.value, req)) {
      forall k | 0 <= k < |rows| && !(matched.Some? && k == i) && Active(rows[k], req.nameSpace)
        ensures norm(rows[k].fact) != norm(req.fact) {
        assert rows'[k] == rows[k] && rows'[|rows|].fact == req.fact;
      }
    }
  }

  /** A fact stated under the alias of another row: both are active with it if that row comes first. */
  lemma AliasTakesFactExample(norm: Text -> Text, first: Request, second: Request, id1: Uuid, id2: Uuid, now: Time)
    requires norm(first.fact) != norm(second.fact) && first.nameSpace == second.nameSpace
    requires first.aliases != [] && first.lockLevel == NORMAL
    ensures var rows := [FirstVersion(first, id1, now), FirstVersion(second, id2, now)];
            var req := second.(aliases := first.aliases);
            && UniqueFacts(norm, rows) && IsMatch(norm, rows, req, 0)
            && !UniqueFacts(norm, Applied(rows, req, 0, id1, now))
  {
    var rows, req := [FirstVersion(first, id1, now), FirstVersion(second, id2, now)], second.(aliases := first.aliases);
    assert first.aliases[0] in req.aliases && first.aliases[0] in rows[0].aliases;
    UniqueFactsKeptIff(norm, rows, req, 0, Some(rows[0]), id1, now);
    assert rows[1].isActive && norm(rows[1].fact) == norm(req.fact) && !Refused(rows[0], req);
  }

  // ----- what the rows of a run hold

  /** A call that no other overlaps: the match it takes, the id it would give, its time. */
  datatype Call = Call(req: Request, at: nat, id: Uuid, now: Time)

  ghost predicate IsRun(norm: Text -> Text, states: seq<seq<Row>>, calls: seq<Call>) {
    && |states| == |calls| + 1 && states[0] == []
    && forall k :: 0 <= k < |calls| ==>
         && IsMatch(norm, states[k], calls[k].req, calls[k].at) && FreshId(states[k], calls[k].id)
         && states[k + 1] == Applied(states[k], calls[k].req, calls[k].at, calls[k].id, calls[k].now)
  }

  /** The call succeeds, and writes a version of this memory. */
  ghost predicate Writes(rows: seq<Row>, call: Call, id: Uuid) {
    if call.at < |rows| then rows[call.at].memoryId == id && !Refused(rows[call.at], call.req) else call.id == id
  }

  /** The aliases of the last successful call for a memory that gave any. */
  ghost function LastAliases(states: seq<seq<Row>>, calls: seq<Call>, k: nat, id: Uuid): seq<Text>
    requires k <= |calls| < |states|
  {
    if k == 0 then []
    else if Writes(states[k - 1], calls[k - 1], id) && calls[k - 1].req.aliases != [] then calls[k - 1].req.aliases
    else LastAliases(states, calls, k - 1, id)
  }

  ghost function LastMetadata(states: seq<seq<Row>>, calls: seq<Call>, k: nat, id: Uuid): Option<Text>
    requires k <= |calls| < |states|
  {
    if k == 0 then None
    else if Writes(states[k - 1], calls[k - 1], id) && calls[k - 1].req.extraMetadata.Some? then
      calls[k - 1].req.extraMetadata
    else LastMetadata(states, calls, k - 1, id)
  }

  /** Over a run the active version of a memory has the aliases and the metadata that the last
      successful call for it gave, if any did. */
  ghost predicate LastGiven(states: seq<seq<Row>>, calls: seq<Call>, k: nat)
    requires k <= |calls| < |states|
  {
    forall p :: 0 <= p < |states[k]| && states[k][p].isActive ==>
      && states[k][p].aliases == LastAliases(states, calls, k, states[k][p].memoryId)
      && states[k][p].extraMetadata == LastMetadata(states, calls, k, states[k][p].memoryId)
  }

  ghost predicate NothingGiven(states: seq<seq<Row>>, calls: seq<Call>, k: nat)
    requires k <= |calls| < |states|
  {
    forall id :: FreshId(states[k], id) ==>
      LastAliases(states, calls, k, id) == [] && LastMetadata(states, calls, k, id) == None
  }

  lemma {:induction false} LastGivenOverRuns(norm: Text -> Text, states: seq<seq<Row>>, calls: seq<Call>, k: nat)
    requires IsRun(norm, states, calls) && k <= |calls|
    ensures ChainsOk(states[k]) && LastGiven(states, calls, k) && NothingGiven(states, calls, k)
  {
    hide ChainsOk, Matches;
    if k == 0 {
      EmptyChains();
    } else {
      LastGivenOverRuns(norm, states, calls, k - 1);
      var rows, c := states[k - 1], calls[k - 1];
      AppliedChains(norm, rows, c.req, c.at, c.id, c.now);
      StillGiven(norm, states, calls, k);
      StillNothing(norm, states, calls, k);
    }
  }

  lemma EmptyChains()
    ensures ChainsOk([])
  {
  }

  lemma StillNothing(norm: Text -> Text, states: seq<seq<Row>>, calls: seq<Call>, k: nat)
    requires IsRun(norm, states, calls) && 0 < k <= |calls| && NothingGiven(states, calls, k - 1)
    ensures NothingGiven(states, calls, k)
  {
    var rows, c := states[k - 1], calls[k - 1];
    forall id | FreshId(states[k], id)
      ensures LastAliases(states, calls, k, id) == [] && LastMetadata(states, calls, k, id) == None {
      assert forall p :: 0 <= p < |rows| ==> states[k][p].memoryId == rows[p].memoryId;
      assert IsMatch(norm, rows, c.req, c.at);
      assert c.at >= |rows| ==> states[k][|rows|].memoryId == c.id;
      assert FreshId(rows, id) && !Writes(rows, c, id);
    }
  }

  lemma StillGiven(norm: Text -> Text, states: seq<seq<Row>>, calls: seq<Call>, k: nat)
    requires IsRun(norm, states, calls) && 0 < k <= |calls| && ChainsOk(states[k - 1])
    requires LastGiven(states, calls, k - 1) && NothingGiven(states, calls, k - 1)
    ensures LastGiven(states, calls, k)
  {
    hide LinksOk, CountersOk;
    var rows, c := states[k - 1], calls[k - 1];
    assert IsMatch(norm, rows, c.req, c.at) && FreshId(rows, c.id);
    forall p | 0 <= p < |states[k]| && states[k][p].isActive
      ensures states[k][p].aliases == LastAliases(states, calls, k, states[k][p].memoryId)
      ensures states[k][p].extraMetadata == LastMetadata(states, calls, k, states[k][p].memoryId) {
      if p < |rows| {
        assert states[k][p] == rows[p];
        if c.at < |rows| && rows[c.at].memoryId == rows[p].memoryId {
          ActiveIsLast(rows, c.at);
          ActiveIsLast(rows, p);
        }
      }
    }
  }

  /** Read off the chain: up to the active version of a memory every number is used exactly once, and
      no number beyond it. */
  lemma VersionsAreOneToN(rows: seq<Row>, a: nat, v: int) returns (i: nat)
    requires ChainsOk(rows) && a < |rows| && rows[a].isActive && 1 <= v <= rows[a].version
    ensures i < |rows| && rows[i].memoryId == rows[a].memoryId && rows[i].version == v
    ensures forall j :: 0 <= j < |rows| && rows[j].memoryId == rows[a].memoryId ==>
              (rows[j].version == v <==> j == i) && rows[j].version <= rows[a].version && (rows[j].isActive <==> j == a)
  {
    i := FindVersion(rows, a, v);
  }

  lemma {:induction false} FindVersion(rows: seq<Row>, a: nat, v: int) returns (i: nat)
    requires ChainsOk(rows) && a < |rows| && 1 <= v <= rows[a].version
    ensures i < |rows| && rows[i].memoryId == rows[a].memoryId && rows[i].version == v
    decreases a
  {
    if rows[a].version == v {
      i := a;
    } else {
      assert HasPredecessor(rows, a);
      var j :| 0 <= j < a && rows[j].memoryId == rows[a].memoryId && rows[j].version == rows[a].version - 1;
      i := FindVersion(rows, j, v);
    }
  }

  /** Every memory has its active version. */
  lemma {:induction false} HasActiveVersion(rows: seq<Row>, k: nat) returns (a: nat)
    requires ChainsOk(rows) && k < |rows|
    ensures a < |rows| && rows[a].memoryId == rows[k].memoryId && rows[a].isActive
    decreases |rows| - k
  {
    if rows[k].isActive {
      a := k;
    } else {
      assert HasSuccessor(rows, k);
      var j :| k < j < |rows| && rows[j].memoryId == rows[k].memoryId;
      a := HasActiveVersion(rows, j);
    }
  }

  class MemoryIntelligenceService {
    const norm: Text -> Text
    var rows: seq<Row>

    ghost predicate Valid()
      reads this
    {
      ChainsOk(rows) && LocksOk(rows) && CarriedOk(rows)
    }

    constructor (norm: Text -> Text)
      ensures Valid() && rows == [] && this.norm == norm
    {
      this.norm := norm;
      rows := [];
    }

    /** Up to the await of the query and through its reply: the first match, if any. */
    method FindMatch(req: Request, reply: seq<nat>) returns (i: nat)
      requires IsReply(rows, req.nameSpace, reply)
      ensures IsMatch(norm, rows, req, i) && (i < |rows| ==> IsFirst(norm, rows, req, reply, i))
      ensures i < |rows| ==>
                && rows[i].isActive && rows[i].nameSpace == req.nameSpace
                && (norm(rows[i].fact) == norm(req.fact) || exists a :: a in req.aliases && a in rows[i].aliases)
      ensures i == |rows| ==> forall k :: 0 <= k < |rows| && rows[k].isActive && rows[k].nameSpace == req.nameSpace ==>
                norm(rows[k].fact) != norm(req.fact) && forall a :: a in req.aliases ==> a !in rows[k].aliases
    {
      var j := 0;
      assert forall k :: 0 <= k < |reply| ==> reply[k] in reply;
      while j < |reply| && !Matches(norm, rows[reply[j]], req)
        invariant 0 <= j <= |reply|
        invariant forall k :: 0 <= k < j ==> !Matches(norm, rows[reply[k]], req)
      {
        j := j + 1;
      }
      return if j < |reply| then reply[j] else |rows|;
    }

    /** The rest of the call, given the match as it was read: insert a memory or the next version. */
    method WriteVersion(req: Request, i: nat, matched: Option<Row>, newId: Uuid, now: Time)
      returns (r: Result<Uuid, Error>)
      requires matched.Some? ==> i < |rows|
      modifies this
      ensures rows == Written(old(rows), req, i, matched, newId, now)
      ensures r == match matched
                   case None => Success(newId)
                   case Some(was) => if was.lockLevel == SYSTEM_LOCKED then Failure(SystemLockedFact)
                                     else if was.lockLevel == PINNED && req.lockLevel != PINNED then Failure(PinnedFact)
                                     else Success(was.memoryId)
      ensures if r.Success? then OneRowMore(old(rows), rows, req, i, matched, newId, now) else rows == old(rows)
    {
      if matched.None? {
        rows := rows + [FirstVersion(req, newId, now)];
        return Success(newId);
      }
      var was := matched.value;
      if was.lockLevel == SYSTEM_LOCKED {
        return Failure(SystemLockedFact);
      }
      if was.lockLevel == PINNED && req.lockLevel != PINNED {
        return Failure(PinnedFact);
      }
      rows := rows[i := rows[i].(isActive := false)];
      rows := rows + [NextVersion(was, req, now)];
      return Success(was.memoryId);
    }

    /** A call that no other overlaps; a refused one changes nothing. */
    method AddOrUpdateMemory(req: Request, reply: seq<nat>, newId: Uuid, now: Time)
      returns (r: Result<Uuid, Error>, ghost at: nat)
      requires Valid() && FreshId(rows, newId) && IsReply(rows, req.nameSpace, reply)
      modifies this
      ensures Valid() && IsMatch(norm, old(rows), req, at)
      ensures at < |old(rows)| ==> IsFirst(norm, old(rows), req, reply, at)
      ensures rows == Applied(old(rows), req, at, newId, now)
      ensures r == if at == |old(rows)| then Success(newId)
                   else if old(rows)[at].lockLevel == SYSTEM_LOCKED then Failure(SystemLockedFact)
                   else if old(rows)[at].lockLevel == PINNED && req.lockLevel != PINNED then Failure(PinnedFact)
                   else Success(old(rows)[at].memoryId)
      ensures if r.Success? then
                OneRowMore(old(rows), rows, req, at, if at < |old(rows)| then Some(old(rows)[at]) else None, newId, now)
              else rows == old(rows)
    {
      hide PairsOk, LinksOk, CountersOk, LocksOk, CarriedOk;
      var i := FindMatch(req, reply);
      at := i;
      AppliedChains(norm, rows, req, i, newId, now);
      AppliedLocks(norm, rows, req, i, newId, now);
      r := WriteVersion(req, i, if i < |rows| then Some(rows[i]) else None, newId, now);
    }
  }

  /** Two calls that read one NORMAL version and write in turn, the first of them locking the memory:
      two versions 2 are active, and the locked one has been superseded. */
  method OverlapExample(norm: Text -> Text, req: Request, id1: Uuid, id2: Uuid, id3: Uuid, now: Time)
    returns (service: MemoryIntelligenceService)
    requires req.lockLevel == NORMAL && id1 != id2 && id1 != id3
    ensures fresh(service) && |service.rows| == 3
    ensures service.rows[1].isActive && service.rows[2].isActive
              && service.rows[1].version == service.rows[2].version == 2
    ensures service.rows[1].lockLevel == SYSTEM_LOCKED && service.rows[2].memoryId == service.rows[1].memoryId
    ensures !ChainsOk(service.rows) && !LocksOk(service.rows)
  {
    hide LinksOk, CountersOk, CarriedOk;
    service := new MemoryIntelligenceService(norm);
    var _ := service.WriteVersion(req, 0, None, id1, now);
    assert Matches(norm, service.rows[0], req) && IsReply(service.rows, req.nameSpace, [0]);
    var first := service.FindMatch(req, [0]);
    var second := service.FindMatch(req, [0]);
    assert first == second == 0;
    var was := service.rows[0];
    var _ := service.WriteVersion(req.(lockLevel := SYSTEM_LOCKED), first, Some(was), id2, now);
    var _ := service.WriteVersion(req, second, Some(was), id3, now);
    assert service.rows[1].memoryId == service.rows[2].memoryId == id1;
  }
}
