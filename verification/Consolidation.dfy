/** `MemoryConsolidation` with the journal it reads and the stores it writes. The journal may grow
    between cycles; what the language model distils or extracts is a function argument. */
module Consolidation {
  import opened Basics
  import opened KnowledgeGraph

  /** The fields the cycle reads; a missing one is the empty text. */
  datatype Episode = Episode(missionId: string, goal: string, outcome: string, content: string,
                             rest: map<string, string>)

  datatype Found = Found(name: string, kind: string, relation: string)

  datatype Stats = Stats(processed: nat, facts: nat, entities: nat, relations: nat)

  /** Everything a cycle can change. */
  datatype World<P> = World(consolidated: set<P>, records: seq<Episode>, facts: seq<string>,
                            nodes: map<string, Entity>, relations: set<Relation<string>>, stats: Stats)

  class EpisodicMemory {
    var episodes: seq<Episode>

    constructor ()
      ensures episodes == []
    {
      episodes := [];
    }

    method RecordEpisode(e: Episode)
      modifies this
      ensures episodes == old(episodes) + [e]
    {
      episodes := episodes + [e];
    }

    method GetRecentEpisodes(limit: int) returns (recent: seq<Episode>)
      ensures recent == Window(episodes, limit)
    {
      recent := Slice(episodes, -limit, |episodes|);
    }
  }

  /** The last `limit` episodes; a limit of zero is the slice from the start, hence all of them, and a
      negative one skips as many from the start. */
  function Window(episodes: seq<Episode>, limit: int): seq<Episode> {
    Slice(episodes, -limit, |episodes|)
  }

  /** ... so it has at most `limit` episodes iff the limit is positive, or zero on an empty journal. */
  lemma WindowIsTail(episodes: seq<Episode>, limit: int)
    ensures limit == 0 || limit >= |episodes| ==> Window(episodes, limit) == episodes
    ensures 0 < limit < |episodes| ==> Window(episodes, limit) == episodes[|episodes| - limit..]
    ensures limit < 0 ==> Window(episodes, limit) == if -limit >= |episodes| then [] else episodes[-limit..]
    ensures |Window(episodes, limit)| <= limit <==> limit > 0 || (limit == 0 && episodes == [])
  {
  }

  class LongTermMemory {
    var records: seq<Episode>

    constructor ()
      ensures records == []
    {
      records := [];
    }

    method SaveExperience(e: Episode)
      modifies this
      ensures records == old(records) + [e]
    {
      records := records + [e];
    }
  }

  function OutcomeOf(e: Episode): string {
    if e.outcome == "" then "unknown" else e.outcome
  }

  /** Nothing is extracted from an episode without content. */
  function FoundIn(extract: Episode -> seq<Found>, e: Episode): seq<Found> {
    if e.content == "" then [] else extract(e)
  }

  // ----- the effect of one episode on the entity graph

  function MissionNodes(nodes: map<string, Entity>, e: Episode): map<string, Entity> {
    if e.missionId == "" then nodes
    else
      var nodes1 := nodes[e.missionId := Entity("mission", map["outcome" := OutcomeOf(e)])];
      if e.goal == "" then nodes1 else nodes1[e.goal := Entity("goal", map[])]
  }

  function MissionRelations(e: Episode): set<Relation<string>> {
    if e.missionId == "" || e.goal == "" then {}
    else
      {Relation(e.missionId, e.goal, "PURSUED_GOAL")}
        + if OutcomeOf(e) == "SUCCESS" then {Relation(e.missionId, e.goal, "COMPLETED")}
          else if OutcomeOf(e) == "FAILED" || OutcomeOf(e) == "ERROR" then {Relation(e.missionId, e.goal, "FAILED_AT")}
          else {}
  }

  function FoundNodes(nodes: map<string, Entity>, found: seq<Found>): map<string, Entity> {
    if found == [] then nodes
    else FoundNodes(nodes, found[..|found| - 1])[found[|found| - 1].name := Entity(found[|found| - 1].kind, map[])]
  }

  function FoundRelations(goal: string, found: seq<Found>): set<Relation<string>> {
    if goal == "" then {} else set f | f in found :: Relation(goal, f.name, f.relation)
  }

  function Count(stats: Stats, e: Episode, found: seq<Found>): Stats {
    Stats(stats.processed + 1, stats.facts + (if e.goal == "" then 0 else 1),
          stats.entities + (if e.missionId == "" then 0 else if e.goal == "" then 1 else 2) + |found|,
          stats.relations + |MissionRelations(e)| + (if e.goal == "" then 0 else |found|))
  }

  /** One turn of the loop. */
  function Absorb<P>(fingerprint: Episode -> P, extract: Episode -> seq<Found>, w: World<P>, e: Episode): World<P> {
    if fingerprint(e) in w.consolidated then w
    else
      var found := FoundIn(extract, e);
      World(w.consolidated + {fingerprint(e)}, w.records + [e], w.facts + if e.goal == "" then [] else [e.goal],
            FoundNodes(MissionNodes(w.nodes, e), found),
            w.relations + MissionRelations(e) + FoundRelations(e.goal, found),
            Count(w.stats, e, found))
  }

  function AbsorbAll<P>(fingerprint: Episode -> P, extract: Episode -> seq<Found>, w: World<P>,
                        es: seq<Episode>): World<P> {
    if es == [] then w
    else Absorb(fingerprint, extract, AbsorbAll(fingerprint, extract, w, es[..|es| - 1]), es[|es| - 1])
  }

  // ----- what the cycle guarantees

  ghost function Prints<P>(fingerprint: Episode -> P, es: seq<Episode>): set<P> {
    set e | e in es :: fingerprint(e)
  }

  /** Each consolidated fingerprint has exactly one long-term record. */
  ghost predicate OneRecordEach<P>(fingerprint: Episode -> P, consolidated: set<P>, records: seq<Episode>) {
    && consolidated == Prints(fingerprint, records)
    && forall i, j :: 0 <= i < j < |records| ==> fingerprint(records[i]) != fingerprint(records[j])
  }

  ghost predicate SavedOnce<P>(fingerprint: Episode -> P, w: World<P>) {
    OneRecordEach(fingerprint, w.consolidated, w.records)
  }

  lemma SaveKeepsOne<P>(fingerprint: Episode -> P, consolidated: set<P>, records: seq<Episode>, e: Episode)
    requires OneRecordEach(fingerprint, consolidated, records) && fingerprint(e) !in consolidated
    ensures OneRecordEach(fingerprint, consolidated + {fingerprint(e)}, records + [e])
  {
    PrintsAppend(fingerprint, records, e);
    assert forall i :: 0 <= i < |records| ==> records[i] in records;
  }

  lemma AbsorbSavesOnce<P>(fingerprint: Episode -> P, extract: Episode -> seq<Found>, w: World<P>, e: Episode)
    requires SavedOnce(fingerprint, w)
    ensures SavedOnce(fingerprint, Absorb(fingerprint, extract, w, e))
    ensures Absorb(fingerprint, extract, w, e).consolidated == w.consolidated + {fingerprint(e)}
    ensures w.records <= Absorb(fingerprint, extract, w, e).records
  {
    hide OneRecordEach;
    if fingerprint(e) !in w.consolidated {
      SaveKeepsOne(fingerprint, w.consolidated, w.records, e);
    }
  }

  lemma {:induction false} AbsorbAllSavesOnce<P>(fingerprint: Episode -> P, extract: Episode -> seq<Found>,
                                                 w: World<P>, es: seq<Episode>)
    requires SavedOnce(fingerprint, w)
    ensures SavedOnce(fingerprint, AbsorbAll(fingerprint, extract, w, es))
    ensures AbsorbAll(fingerprint, extract, w, es).consolidated == w.consolidated + Prints(fingerprint, es)
    ensures w.records <= AbsorbAll(fingerprint, extract, w, es).records
  {
    hide SavedOnce, Absorb;
    if es == [] {
    } else {
      var before, e := es[..|es| - 1], es[|es| - 1];
      AbsorbAllSavesOnce(fingerprint, extract, w, before);
      assert es == before + [e];
      PrintsAppend(fingerprint, before, e);
      AbsorbSavesOnce(fingerprint, extract, AbsorbAll(fingerprint, extract, w, before), e);
    }
  }

  lemma PrintsAppend<P>(fingerprint: Episode -> P, es: seq<Episode>, e: Episode)
    ensures Prints(fingerprint, es + [e]) == Prints(fingerprint, es) + {fingerprint(e)}
  {
    assert forall f :: f in es + [e] <==> f in es || f == e;
  }

  /** The counters of a cycle tell how many records and facts it added, and bound what it added to
      the graph: entities and relations known before are counted again. */
  lemma {:induction false} StatsCountGrowth<P>(fingerprint: Episode -> P, extract: Episode -> seq<Found>, w: World<P>,
                                               es: seq<Episode>)
    ensures var w' := AbsorbAll(fingerprint, extract, w, es);
            && |w'.records| - |w.records| == w'.stats.processed - w.stats.processed
            && |w'.facts| - |w.facts| == w'.stats.facts - w.stats.facts
            && 0 <= |w'.nodes| - |w.nodes| <= w'.stats.entities - w.stats.entities
            && 0 <= |w'.relations| - |w.relations| <= w'.stats.relations - w.stats.relations
  {
    hide MissionNodes, MissionRelations, FoundNodes, FoundRelations, FoundIn;
    if es == [] {
    } else {
      StatsCountGrowth(fingerprint, extract, w, es[..|es| - 1]);
      var w1, e := AbsorbAll(fingerprint, extract, w, es[..|es| - 1]), es[|es| - 1];
      var found := FoundIn(extract, e);
      MissionNodesGrow(w1.nodes, e);
      FoundNodesGrow(MissionNodes(w1.nodes, e), found);
      FoundRelationsCount(e.goal, found);
      UnionCount(w1.relations, MissionRelations(e));
      UnionCount(w1.relations + MissionRelations(e), FoundRelations(e.goal, found));
    }
  }

  lemma UnionCount<T>(a: set<T>, b: set<T>)
    ensures |a| <= |a + b| <= |a| + |b|
  {
    assert a + b == a + (b - a);
  }

  lemma MissionNodesGrow(nodes: map<string, Entity>, e: Episode)
    ensures |nodes| <= |MissionNodes(nodes, e)|
                    <= |nodes| + if e.missionId == "" then 0 else if e.goal == "" then 1 else 2
  {
    var nodes1 := nodes[e.missionId := Entity("mission", map["outcome" := OutcomeOf(e)])];
    assert nodes1.Keys == nodes.Keys + {e.missionId};
    assert nodes1[e.goal := Entity("goal", map[])].Keys == nodes1.Keys + {e.goal};
  }

  lemma {:induction false} FoundNodesGrow(nodes: map<string, Entity>, found: seq<Found>)
    ensures |nodes| <= |FoundNodes(nodes, found)| <= |nodes| + |found|
  {
    if found == [] {
    } else {
      var n := |found| - 1;
      FoundNodesGrow(nodes, found[..n]);
      assert FoundNodes(nodes, found).Keys == FoundNodes(nodes, found[..n]).Keys + {found[n].name};
    }
  }

  lemma {:induction false} FoundRelationsCount(goal: string, found: seq<Found>)
    ensures |FoundRelations(goal, found)| <= if goal == "" then 0 else |found|
  {
    if found == [] {
      assert FoundRelations(goal, found) == {};
    } else {
      var n := |found| - 1;
      assert found == found[..n] + [found[n]];
      FoundRelationsCount(goal, found[..n]);
      FoundRelationsAppend(goal, found[..n], found[n]);
    }
  }

  /** A cycle that sees nothing new changes nothing. */
  lemma {:induction false} NothingNew<P>(fingerprint: Episode -> P, extract: Episode -> seq<Found>, w: World<P>,
                                         es: seq<Episode>)
    requires Prints(fingerprint, es) <= w.consolidated
    ensures AbsorbAll(fingerprint, extract, w, es) == w
  {
    if es == [] {
    } else {
      assert es == es[..|es| - 1] + [es[|es| - 1]];
      PrintsAppend(fingerprint, es[..|es| - 1], es[|es| - 1]);
      NothingNew(fingerprint, extract, w, es[..|es| - 1]);
    }
  }

  // ----- what a cycle leaves behind, told by the episodes it saved

  ghost predicate Extracted(extract: Episode -> seq<Found>, e: Episode, f: Found) {
    e.content != "" && f in extract(e)
  }

  /** The relations an episode calls for: mission and goal by the outcome, goal and what was extracted. */
  ghost predicate CallsFor(extract: Episode -> seq<Found>, e: Episode, r: Relation<string>) {
    || (e.missionId != "" && e.goal != "" && r.source == e.missionId && r.target == e.goal
        && (|| r.relType == "PURSUED_GOAL"
            || (r.relType == "COMPLETED" && e.outcome == "SUCCESS")
            || (r.relType == "FAILED_AT" && (e.outcome == "FAILED" || e.outcome == "ERROR"))))
    || (e.goal != "" && r.source == e.goal
        && exists f :: Extracted(extract, e, f) && f.name == r.target && f.relation == r.relType)
  }

  ghost function LastNamed(found: seq<Found>, name: string): Option<Found> {
    if found == [] then None
    else if found[|found| - 1].name == name then Some(found[|found| - 1])
    else LastNamed(found[..|found| - 1], name)
  }

  /** The entity an episode gives a name, if it gives one: what was extracted last comes before the
      goal of a mission, and that before the mission. */
  ghost function Given(extract: Episode -> seq<Found>, e: Episode, name: string): Option<Entity> {
    var f := if e.content == "" then None else LastNamed(extract(e), name);
    if f.Some? then Some(Entity(f.value.kind, map[]))
    else if e.missionId == "" || name == "" then None
    else if name == e.goal then Some(Entity("goal", map[]))
    else if name == e.missionId then
      Some(Entity("mission", map["outcome" := if e.outcome == "" then "unknown" else e.outcome]))
    else None
  }

  /** ... and the entity a name has after several episodes: the one given last, if any. */
  ghost function GivenLast(extract: Episode -> seq<Found>, es: seq<Episode>, name: string,
                           before: Option<Entity>): Option<Entity> {
    if es == [] then before
    else
      var last := Given(extract, es[|es| - 1], name);
      if last.Some? then last else GivenLast(extract, es[..|es| - 1], name, before)
  }

  /** The goals that are not empty, in order. */
  ghost function Goals(es: seq<Episode>): seq<string> {
    if es == [] then []
    else Goals(es[..|es| - 1]) + if es[|es| - 1].goal == "" then [] else [es[|es| - 1].goal]
  }

  ghost function Get<K, V>(m: map<K, V>, k: K): Option<V> {
    if k in m then Some(m[k]) else None
  }

  /** The entities and relations that an episode adds or adds again. */
  ghost function EntityCalls(extract: Episode -> seq<Found>, e: Episode): nat {
    (if e.missionId == "" then 0 else if e.goal == "" then 1 else 2) + if e.content == "" then 0 else |extract(e)|
  }

  ghost function RelationCalls(extract: Episode -> seq<Found>, e: Episode): nat {
    if e.goal == "" then 0
    else
      (if e.missionId == "" then 0 else if e.outcome in {"SUCCESS", "FAILED", "ERROR"} then 2 else 1)
        + if e.content == "" then 0 else |extract(e)|
  }

  ghost function Total(extract: Episode -> seq<Found>, es: seq<Episode>): Stats {
    if es == [] then Stats(0, 0, 0, 0)
    else
      var t, e := Total(extract, es[..|es| - 1]), es[|es| - 1];
      Stats(t.processed + 1, t.facts + (if e.goal == "" then 0 else 1), t.entities + EntityCalls(extract, e),
            t.relations + RelationCalls(extract, e))
  }

  /** The episodes saved are of the given ones, and facts, entities, relations and counters are those
      that they call for, and no others. */
  ghost predicate Projects<P>(extract: Episode -> seq<Found>, w: World<P>, w': World<P>, saved: seq<Episode>) {
    && w'.records == w.records + saved && w'.facts == w.facts + Goals(saved)
    && RelationsFor(extract, w.relations, w'.relations, saved)
    && (forall name :: Get(w'.nodes, name) == GivenLast(extract, saved, name, Get(w.nodes, name)))
    && var t := Total(extract, saved);
       w'.stats == Stats(w.stats.processed + t.processed, w.stats.facts + t.facts, w.stats.entities + t.entities,
                         w.stats.relations + t.relations)
  }

  ghost predicate RelationsFor(extract: Episode -> seq<Found>, before: set<Relation<string>>,
                               after: set<Relation<string>>, saved: seq<Episode>) {
    forall r :: r in after <==> r in before || exists e :: e in saved && CallsFor(extract, e, r)
  }

  lemma MissionCallsFor(extract: Episode -> seq<Found>, e: Episode, r: Relation<string>)
    ensures r in MissionRelations(e) || r in FoundRelations(e.goal, FoundIn(extract, e)) <==> CallsFor(extract, e, r)
  {
    var found := FoundIn(extract, e);
    assert forall f :: f in found <==> Extracted(extract, e, f);
    assert r == Relation(r.source, r.target, r.relType);
  }

  lemma {:induction false} NamedLast(nodes: map<string, Entity>, found: seq<Found>, name: string)
    ensures Get(FoundNodes(nodes, found), name)
         == match LastNamed(found, name) case Some(f) => Some(Entity(f.kind, map[])) case None => Get(nodes, name)
  {
    if found == [] {
    } else {
      NamedLast(nodes, found[..|found| - 1], name);
    }
  }

  lemma MissionGiven(nodes: map<string, Entity>, e: Episode, name: string)
    ensures Get(MissionNodes(nodes, e), name)
         == if e.missionId == "" || name == "" then Get(nodes, name)
            else if name == e.goal then Some(Entity("goal", map[]))
            else if name == e.missionId then
              Some(Entity("mission", map["outcome" := if e.outcome == "" then "unknown" else e.outcome]))
            else Get(nodes, name)
  {
  }

  lemma MissionRelationsCount(e: Episode)
    ensures |MissionRelations(e)| == if e.missionId == "" || e.goal == "" then 0
                                     else if e.outcome in {"SUCCESS", "FAILED", "ERROR"} then 2 else 1
  {
    if e.missionId != "" && e.goal != "" {
      var r := Relation(e.missionId, e.goal, "PURSUED_GOAL");
      assert "PURSUED_GOAL" != "COMPLETED" && "PURSUED_GOAL" != "FAILED_AT" by {
        assert "PURSUED_GOAL"[0] != "COMPLETED"[0] && "PURSUED_GOAL"[0] != "FAILED_AT"[0];
      }
      assert MissionRelations(e) == {r} + (MissionRelations(e) - {r});
    }
  }

  lemma AbsorbRelations<P>(fingerprint: Episode -> P, extract: Episode -> seq<Found>, w: World<P>, e: Episode)
    requires fingerprint(e) !in w.consolidated
    ensures RelationsFor(extract, w.relations, Absorb(fingerprint, extract, w, e).relations, [e])
  {
    hide MissionRelations, FoundRelations, CallsFor, MissionNodes, FoundNodes, Count;
    var w' := Absorb(fingerprint, extract, w, e);
    forall r ensures r in w'.relations <==> r in w.relations || exists d :: d in [e] && CallsFor(extract, d, r) {
      MissionCallsFor(extract, e, r);
      assert e in [e];
    }
  }

  lemma AbsorbNodes<P>(fingerprint: Episode -> P, extract: Episode -> seq<Found>, w: World<P>, e: Episode, name: string)
    requires fingerprint(e) !in w.consolidated
    ensures Get(Absorb(fingerprint, extract, w, e).nodes, name) == GivenLast(extract, [e], name, Get(w.nodes, name))
  {
    hide MissionRelations, FoundRelations, MissionNodes, FoundNodes, Count, LastNamed;
    NamedLast(MissionNodes(w.nodes, e), FoundIn(extract, e), name);
    MissionGiven(w.nodes, e, name);
    NoneNamed(name);
    SavedSnoc(extract, [], e);
    assert [] + [e] == [e];
  }

  lemma NoneNamed(name: string)
    ensures LastNamed([], name) == None
  {
  }

  lemma AbsorbCounts<P>(fingerprint: Episode -> P, extract: Episode -> seq<Found>, w: World<P>, e: Episode)
    requires fingerprint(e) !in w.consolidated
    ensures var w', t := Absorb(fingerprint, extract, w, e), Total(extract, [e]);
            && w'.facts == w.facts + Goals([e])
            && w'.stats == Stats(w.stats.processed + t.processed, w.stats.facts + t.facts,
                                 w.stats.entities + t.entities, w.stats.relations + t.relations)
  {
    hide MissionRelations, FoundRelations, MissionNodes, FoundNodes;
    MissionRelationsCount(e);
    SavedSnoc(extract, [], e);
    assert [] + [e] == [e];
  }

  /** One new episode leaves behind what it calls for. */
  lemma AbsorbProjects<P>(fingerprint: Episode -> P, extract: Episode -> seq<Found>, w: World<P>, e: Episode)
    requires fingerprint(e) !in w.consolidated
    ensures Projects(extract, w, Absorb(fingerprint, extract, w, e), [e])
  {
    hide MissionRelations, FoundRelations, MissionNodes, FoundNodes, Count, RelationsFor, GivenLast, Total, Goals, Get;
    var w' := Absorb(fingerprint, extract, w, e);
    AbsorbRelations(fingerprint, extract, w, e);
    AbsorbCounts(fingerprint, extract, w, e);
    forall name ensures Get(w'.nodes, name) == GivenLast(extract, [e], name, Get(w.nodes, name)) {
      AbsorbNodes(fingerprint, extract, w, e, name);
    }
  }

  lemma SavedSnoc(extract: Episode -> seq<Found>, saved: seq<Episode>, e: Episode)
    ensures Goals(saved + [e]) == Goals(saved) + if e.goal == "" then [] else [e.goal]
    ensures var t := Total(extract, saved);
            Total(extract, saved + [e]) ==
              Stats(t.processed + 1, t.facts + (if e.goal == "" then 0 else 1), t.entities + EntityCalls(extract, e),
                    t.relations + RelationCalls(extract, e))
    ensures forall name, before ::
              GivenLast(extract, saved + [e], name, before) ==
                (var last := Given(extract, e, name);
                 if last.Some? then last else GivenLast(extract, saved, name, before))
  {
    assert (saved + [e])[..|saved|] == saved;
  }

  lemma ProjectsNothing<P>(extract: Episode -> seq<Found>, w: World<P>)
    ensures Projects(extract, w, w, [])
  {
  }

  lemma ProjectsMore<P>(extract: Episode -> seq<Found>, w: World<P>, w1: World<P>, w2: World<P>, saved: seq<Episode>,
                        e: Episode)
    requires Projects(extract, w, w1, saved) && Projects(extract, w1, w2, [e])
    ensures Projects(extract, w, w2, saved + [e])
  {
    hide CallsFor, Given, EntityCalls, RelationCalls;
    SavedSnoc(extract, saved, e);
    SavedSnoc(extract, [], e);
    assert [] + [e] == [e];
    forall r
      ensures r in w2.relations <==> r in w.relations || exists d :: d in saved + [e] && CallsFor(extract, d, r) {
      assert r in w2.relations <==> r in w1.relations || exists d :: d in [e] && CallsFor(extract, d, r);
      assert r in w1.relations <==> r in w.relations || exists d :: d in saved && CallsFor(extract, d, r);
      assert forall d :: d in saved + [e] <==> d in saved || d in [e];
    }
  }

  /** A cycle, or several after one another, leaves behind what the episodes it saved call for. */
  lemma {:induction false} AbsorbAllProjects<P>(fingerprint: Episode -> P, extract: Episode -> seq<Found>, w: World<P>,
                                                es: seq<Episode>) returns (saved: seq<Episode>)
    ensures Projects(extract, w, AbsorbAll(fingerprint, extract, w, es), saved)
    ensures forall e :: e in saved ==> e in es
  {
    hide Projects, Absorb;
    if es == [] {
      saved := [];
      ProjectsNothing(extract, w);
    } else {
      var n := |es| - 1;
      var w1 := AbsorbAll(fingerprint, extract, w, es[..n]);
      saved := AbsorbAllProjects(fingerprint, extract, w, es[..n]);
      assert es == es[..n] + [es[n]];
      if fingerprint(es[n]) in w1.consolidated {
        KnownIsSkipped(fingerprint, extract, w1, es[n]);
      } else {
        AbsorbProjects(fingerprint, extract, w1, es[n]);
        ProjectsMore(extract, w, w1, AbsorbAll(fingerprint, extract, w, es), saved, es[n]);
        saved := saved + [es[n]];
      }
    }
  }

  lemma KnownIsSkipped<P>(fingerprint: Episode -> P, extract: Episode -> seq<Found>, w: World<P>, e: Episode)
    requires fingerprint(e) in w.consolidated
    ensures Absorb(fingerprint, extract, w, e) == w
  {
  }

  ghost predicate EndpointsAreNodes(nodes: map<string, Entity>, relations: set<Relation<string>>) {
    forall r <- relations :: r.source in nodes && r.target in nodes
  }

  lemma {:induction false} FoundNodesKeys(nodes: map<string, Entity>, found: seq<Found>)
    ensures FoundNodes(nodes, found).Keys == nodes.Keys + set f | f in found :: f.name
  {
    if found == [] {
    } else {
      var n := |found| - 1;
      assert found == found[..n] + [found[n]];
      FoundNodesKeys(nodes, found[..n]);
      assert forall f :: f in found <==> f in found[..n] || f == found[n];
    }
  }

  lemma MissionEndpoints(nodes: map<string, Entity>, e: Episode)
    ensures nodes.Keys <= MissionNodes(nodes, e).Keys
    ensures EndpointsAreNodes(MissionNodes(nodes, e), MissionRelations(e))
    ensures e.goal != "" ==> (e.goal in MissionNodes(nodes, e) <==> e.missionId != "" || e.goal in nodes)
  {
  }

  lemma FoundEndpoints(nodes: map<string, Entity>, goal: string, found: seq<Found>)
    ensures EndpointsAreNodes(FoundNodes(nodes, found), FoundRelations(goal, found)) <==>
              goal == "" || found == [] || goal in nodes || exists f :: f in found && f.name == goal
  {
    FoundNodesKeys(nodes, found);
    if goal != "" && found != [] {
      assert found[0] in found;
      assert Relation(goal, found[0].name, found[0].relation) in FoundRelations(goal, found);
    }
  }

  /** An episode leaves every relation between known entities, unless it has no mission, names a goal
      that is no entity, and mentions entities. */
  lemma EndpointsKeptIff<P>(fingerprint: Episode -> P, extract: Episode -> seq<Found>, w: World<P>, e: Episode)
    requires EndpointsAreNodes(w.nodes, w.relations) && fingerprint(e) !in w.consolidated
    ensures var w', found := Absorb(fingerprint, extract, w, e), FoundIn(extract, e);
            EndpointsAreNodes(w'.nodes, w'.relations) <==>
              !(e.missionId == "" && e.goal != "" && e.goal !in w.nodes
                && found != [] && forall f :: f in found ==> f.name != e.goal)
  {
    hide MissionNodes, MissionRelations, FoundNodes, FoundRelations, FoundIn, Count;
    var nodes, found := MissionNodes(w.nodes, e), FoundIn(extract, e);
    MissionEndpoints(w.nodes, e);
    FoundEndpoints(nodes, e.goal, found);
    FoundNodesKeys(nodes, found);
  }

  /** So an episode without mission leaves one at once, in an empty world. */
  lemma DanglingExample(fingerprint: Episode -> string, extract: Episode -> seq<Found>)
    requires extract(Episode("", "g", "", "c", map[])) == [Found("x", "concept", "related_to")]
    ensures var w := World({}, [], [], map[], {}, Stats(0, 0, 0, 0));
            var w' := Absorb(fingerprint, extract, w, Episode("", "g", "", "c", map[]));
            EndpointsAreNodes(w.nodes, w.relations) && !EndpointsAreNodes(w'.nodes, w'.relations)
  {
    var w: World<string>, e := World({}, [], [], map[], {}, Stats(0, 0, 0, 0)), Episode("", "g", "", "c", map[]);
    EndpointsKeptIff(fingerprint, extract, w, e);
  }

  /** Episodes with a mission never do. */
  lemma {:induction false} EndpointsOfMissions<P>(fingerprint: Episode -> P, extract: Episode -> seq<Found>,
                                                  w: World<P>, es: seq<Episode>)
    requires EndpointsAreNodes(w.nodes, w.relations) && forall e :: e in es ==> e.missionId != ""
    ensures var w' := AbsorbAll(fingerprint, extract, w, es); EndpointsAreNodes(w'.nodes, w'.relations)
  {
    if es == [] {
    } else {
      var before, e := es[..|es| - 1], es[|es| - 1];
      assert es == before + [e];
      EndpointsOfMissions(fingerprint, extract, w, before);
      var w1 := AbsorbAll(fingerprint, extract, w, before);
      if fingerprint(e) !in w1.consolidated {
        EndpointsKeptIff(fingerprint, extract, w1, e);
      }
    }
  }

  class MemoryConsolidation<P(==, !new)> {
    const episodic: EpisodicMemory
    const longTerm: LongTermMemory
    const graph: KnowledgeGraph<string>
    const fingerprint: Episode -> P
    var facts: seq<string>
    var consolidated: set<P>

    ghost function State(stats: Stats): World<P>
      reads this, longTerm, graph
    {
      World(consolidated, longTerm.records, facts, graph.nodes, graph.relations, stats)
    }

    ghost predicate Valid()
      reads this, longTerm, graph
    {
      SavedOnce(fingerprint, State(Stats(0, 0, 0, 0)))
    }

    constructor (episodic: EpisodicMemory, longTerm: LongTermMemory, graph: KnowledgeGraph<string>,
                 fingerprint: Episode -> P)
      requires longTerm.records == []
      ensures this.episodic == episodic && this.longTerm == longTerm && this.graph == graph
                && this.fingerprint == fingerprint
      ensures Valid() && consolidated == {} && facts == []
    {
      this.episodic, this.longTerm, this.graph, this.fingerprint := episodic, longTerm, graph, fingerprint;
      facts, consolidated := [], {};
    }

    /** One cycle over the recent window of the journal. */
    method Consolidate(limit: int, extract: Episode -> seq<Found>) returns (stats: Stats)
      requires Valid()
      modifies this, longTerm, graph
      ensures Valid() && episodic.episodes == old(episodic.episodes)
      ensures State(stats) ==
                AbsorbAll(fingerprint, extract, old(State(Stats(0, 0, 0, 0))), Window(episodic.episodes, limit))
      ensures old(longTerm.records) <= longTerm.records
      ensures var saved := longTerm.records[|old(longTerm.records)|..];
              && Projects(extract, old(State(Stats(0, 0, 0, 0))), State(stats), saved)
              && forall e :: e in saved ==> e in Window(episodic.episodes, limit)
    {
      hide Absorb, SavedOnce, Window;
      stats := Stats(0, 0, 0, 0);
      var recent := episodic.GetRecentEpisodes(limit);
      ghost var w := State(stats);
      for i := 0 to |recent|
        invariant State(stats) == AbsorbAll(fingerprint, extract, w, recent[..i])
      {
        assert recent[..i + 1][..i] == recent[..i];
        stats := Process(recent[i], extract, stats);
      }
      assert recent[..|recent|] == recent;
      AbsorbAllSavesOnce(fingerprint, extract, w, recent);
      ghost var saved := AbsorbAllProjects(fingerprint, extract, w, recent);
      assert longTerm.records == old(longTerm.records) + saved;
      SavedOnceIgnoresStats(fingerprint, State(stats), Stats(0, 0, 0, 0));
    }

    /** The loop body for one episode. */
    method Process(e: Episode, extract: Episode -> seq<Found>, stats0: Stats) returns (stats: Stats)
      modifies this, longTerm, graph
      ensures State(stats) == Absorb(fingerprint, extract, old(State(stats0)), e)
      ensures if fingerprint(e) in old(consolidated) then State(stats) == old(State(stats0))
              else Projects(extract, old(State(stats0)), State(stats), [e])
    {
      hide MissionNodes, MissionRelations, FoundNodes, FoundRelations, Projects;
      stats := stats0;
      if fingerprint(e) in consolidated {
        return;
      }
      AbsorbProjects(fingerprint, extract, State(stats0), e);
      consolidated := consolidated + {fingerprint(e)};
      longTerm.SaveExperience(e);
      var outcome := OutcomeOf(e);
      if e.goal != "" {
        facts := facts + [e.goal];
        stats := stats.(facts := stats.facts + 1);
      }
      stats := ProjectMission(e, outcome, stats);
      stats := ProjectFound(e.goal, FoundIn(extract, e), stats);
      stats := stats.(processed := stats.processed + 1);
    }

    method ProjectMission(e: Episode, outcome: string, stats0: Stats) returns (stats: Stats)
      requires outcome == OutcomeOf(e)
      modifies graph
      ensures graph.nodes == MissionNodes(old(graph.nodes), e)
      ensures graph.relations == old(graph.relations) + MissionRelations(e)
      ensures stats == stats0.(entities := stats0.entities
                                 + if e.missionId == "" then 0 else if e.goal == "" then 1 else 2,
                               relations := stats0.relations + |MissionRelations(e)|)
    {
      stats := stats0;
      if e.missionId != "" {
        graph.AddEntity(e.missionId, "mission", map["outcome" := outcome]);
        stats := stats.(entities := stats.entities + 1);
        if e.goal != "" {
          graph.AddEntity(e.goal, "goal", map[]);
          stats := stats.(entities := stats.entities + 1);
          graph.AddRelation(e.missionId, e.goal, "PURSUED_GOAL");
          stats := stats.(relations := stats.relations + 1);
          if outcome == "SUCCESS" {
            graph.AddRelation(e.missionId, e.goal, "COMPLETED");
            stats := stats.(relations := stats.relations + 1);
          } else if outcome == "FAILED" || outcome == "ERROR" {
            graph.AddRelation(e.missionId, e.goal, "FAILED_AT");
            stats := stats.(relations := stats.relations + 1);
          }
        }
      }
    }

    method ProjectFound(goal: string, found: seq<Found>, stats0: Stats) returns (stats: Stats)
      modifies graph
      ensures graph.nodes == FoundNodes(old(graph.nodes), found)
      ensures graph.relations == old(graph.relations) + FoundRelations(goal, found)
      ensures stats == stats0.(entities := stats0.entities + |found|,
                               relations := stats0.relations + if goal == "" then 0 else |found|)
    {
      hide FoundNodes, FoundRelations;
      FoundNothing(graph.nodes, goal);
      stats := stats0;
      for i := 0 to |found|
        invariant graph.nodes == FoundNodes(old(graph.nodes), found[..i])
        invariant graph.relations == old(graph.relations) + FoundRelations(goal, found[..i])
        invariant stats == stats0.(entities := stats0.entities + i,
                                   relations := stats0.relations + if goal == "" then 0 else i)
      {
        assert found[..i + 1] == found[..i] + [found[i]];
        FoundNodesAppend(old(graph.nodes), found[..i], found[i]);
        FoundRelationsAppend(goal, found[..i], found[i]);
        graph.AddEntity(found[i].name, found[i].kind, map[]);
        stats := stats.(entities := stats.entities + 1);
        if goal != "" {
          graph.AddRelation(goal, found[i].name, found[i].relation);
          stats := stats.(relations := stats.relations + 1);
        }
      }
      assert found[..|found|] == found;
    }
  }

  lemma FoundNothing(nodes: map<string, Entity>, goal: string)
    ensures FoundNodes(nodes, []) == nodes && FoundRelations(goal, []) == {}
  {
  }

  lemma FoundNodesAppend(nodes: map<string, Entity>, found: seq<Found>, f: Found)
    ensures FoundNodes(nodes, found + [f]) == FoundNodes(nodes, found)[f.name := Entity(f.kind, map[])]
  {
    assert (found + [f])[..|found|] == found;
  }

  lemma FoundRelationsAppend(goal: string, found: seq<Found>, f: Found)
    ensures FoundRelations(goal, found + [f]) ==
              FoundRelations(goal, found) + if goal == "" then {} else {Relation(goal, f.name, f.relation)}
  {
    assert forall g :: g in found + [f] <==> g in found || g == f;
  }

  lemma SavedOnceIgnoresStats<P>(fingerprint: Episode -> P, w: World<P>, stats: Stats)
    requires SavedOnce(fingerprint, w)
    ensures SavedOnce(fingerprint, w.(stats := stats))
  {
  }
}
