/** Runs of the consolidation: episodes are recorded and cycles begin and proceed in any order, so
    several cycles may be under way at once. A turn is the part of the loop body up to the saving of
    the episode; what follows it touches neither the fingerprints nor the saved records. */
module ConsolidationRuns {
  import opened Basics
  import opened Consolidation

  datatype Event = Recorded(e: Episode) | Begin(limit: int) | Turn(cycle: nat)

  /** `open` holds what each cycle has still to look at, `seen` the length of the journal when the
      last cycle began. */
  datatype Run<P> = Run(journal: seq<Episode>, consolidated: set<P>, records: seq<Episode>, open: seq<seq<Episode>>,
                        seen: nat)

  ghost function Step<P>(fingerprint: Episode -> P, r: Run<P>, ev: Event): Run<P> {
    match ev
    case Recorded(e) => r.(journal := r.journal + [e])
    case Begin(limit) => r.(open := r.open + [Window(r.journal, limit)], seen := |r.journal|)
    case Turn(k) =>
      if k >= |r.open| || r.open[k] == [] then r
      else
        var e := r.open[k][0];
        var rest := r.(open := r.open[k := r.open[k][1..]]);
        if fingerprint(e) in r.consolidated then rest
        else rest.(consolidated := r.consolidated + {fingerprint(e)}, records := r.records + [e])
  }

  ghost function After<P>(fingerprint: Episode -> P, events: seq<Event>): Run<P> {
    if events == [] then Run([], {}, [], [], 0)
    else Step(fingerprint, After(fingerprint, events[..|events| - 1]), events[|events| - 1])
  }

  /** A turn does to fingerprints and records what the loop body does. */
  lemma TurnIsAbsorb<P>(fingerprint: Episode -> P, extract: Episode -> seq<Found>, w: World<P>, r: Run<P>, k: nat)
    requires k < |r.open| && r.open[k] != [] && w.consolidated == r.consolidated && w.records == r.records
    ensures var w', r' := Absorb(fingerprint, extract, w, r.open[k][0]), Step(fingerprint, r, Turn(k));
            w'.consolidated == r'.consolidated && w'.records == r'.records
  {
  }

  // ---- One record per fingerprint

  /** In every state of every run a consolidated fingerprint has exactly one record. */
  lemma {:induction false} RecordedOnce<P(!new)>(fingerprint: Episode -> P, events: seq<Event>)
    ensures OneRecordEach(fingerprint, After(fingerprint, events).consolidated, After(fingerprint, events).records)
  {
    hide OneRecordEach, Window;
    if events == [] {
      NoPrints(fingerprint);
    } else {
      var r, ev := After(fingerprint, events[..|events| - 1]), events[|events| - 1];
      RecordedOnce(fingerprint, events[..|events| - 1]);
      if ev.Turn? && ev.cycle < |r.open| && r.open[ev.cycle] != []
          && fingerprint(r.open[ev.cycle][0]) !in r.consolidated {
        SaveKeepsOne(fingerprint, r.consolidated, r.records, r.open[ev.cycle][0]);
      }
    }
  }

  // ---- Which episodes are consolidated

  /** Fingerprints of everything the cycles of a run were given. */
  ghost function Taken<P(!new)>(fingerprint: Episode -> P, events: seq<Event>): set<P> {
    if events == [] then {}
    else
      var before, ev := events[..|events| - 1], events[|events| - 1];
      Taken(fingerprint, before)
        + if ev.Begin? then Prints(fingerprint, Window(After(fingerprint, before).journal, ev.limit)) else {}
  }

  /** Fingerprints of what lay between the last cycle's start and the window of the next one. */
  ghost function Skipped<P(!new)>(fingerprint: Episode -> P, events: seq<Event>): set<P> {
    if events == [] then {}
    else
      var before, ev := events[..|events| - 1], events[|events| - 1];
      var r := After(fingerprint, before);
      Skipped(fingerprint, before)
        + if ev.Begin? then Prints(fingerprint, Slice(r.journal, r.seen, Bound(-ev.limit, |r.journal|))) else {}
  }

  ghost predicate Quiet<P>(r: Run<P>) {
    forall k :: 0 <= k < |r.open| ==> r.open[k] == []
  }

  /** What a cycle was given is consolidated or still before it. */
  ghost predicate Accounted<P(!new)>(fingerprint: Episode -> P, r: Run<P>, taken: set<P>) {
    && r.consolidated <= taken
    && (forall p :: p in taken ==>
          p in r.consolidated || exists k :: 0 <= k < |r.open| && p in Prints(fingerprint, r.open[k]))
    && (forall k :: 0 <= k < |r.open| ==> Prints(fingerprint, r.open[k]) <= taken)
  }

  lemma {:induction false} AllAccounted<P(!new)>(fingerprint: Episode -> P, events: seq<Event>)
    ensures Accounted(fingerprint, After(fingerprint, events), Taken(fingerprint, events))
  {
    if events == [] {
    } else {
      var before, ev := events[..|events| - 1], events[|events| - 1];
      var r, r' := After(fingerprint, before), After(fingerprint, events);
      AllAccounted(fingerprint, before);
      match ev
      case Recorded(e) =>
      case Begin(limit) => BeginAccounted(fingerprint, r, limit, Taken(fingerprint, before));
      case Turn(k) => TurnAccounted(fingerprint, r, k, Taken(fingerprint, before));
    }
  }

  lemma BeginAccounted<P(!new)>(fingerprint: Episode -> P, r: Run<P>, limit: int, taken: set<P>)
    requires Accounted(fingerprint, r, taken)
    ensures Accounted(fingerprint, Step(fingerprint, r, Begin(limit)),
                      taken + Prints(fingerprint, Window(r.journal, limit)))
  {
    hide Prints, Window;
    var r' := Step(fingerprint, r, Begin(limit));
    forall p | p in taken + Prints(fingerprint, Window(r.journal, limit))
      ensures p in r'.consolidated || exists k :: 0 <= k < |r'.open| && p in Prints(fingerprint, r'.open[k]) {
      if p !in r'.consolidated && p in taken {
        var k :| 0 <= k < |r.open| && p in Prints(fingerprint, r.open[k]);
        assert r'.open[k] == r.open[k];
      } else if p !in taken {
        assert r'.open[|r.open|] == Window(r.journal, limit);
      }
    }
  }

  lemma TurnAccounted<P(!new)>(fingerprint: Episode -> P, r: Run<P>, k: nat, taken: set<P>)
    requires Accounted(fingerprint, r, taken)
    ensures Accounted(fingerprint, Step(fingerprint, r, Turn(k)), taken)
  {
    if k < |r.open| && r.open[k] != [] {
      var e, rest := r.open[k][0], r.open[k][1..];
      assert Prints(fingerprint, r.open[k]) == {fingerprint(e)} + Prints(fingerprint, rest) by {
        assert r.open[k] == [e] + rest;
      }
      var r' := Step(fingerprint, r, Turn(k));
      forall p | p in taken
        ensures p in r'.consolidated || exists j :: 0 <= j < |r'.open| && p in Prints(fingerprint, r'.open[j]) {
        if p !in r'.consolidated {
          var j :| 0 <= j < |r.open| && p in Prints(fingerprint, r.open[j]);
          assert p in Prints(fingerprint, r'.open[j]);
        }
      }
    }
  }

  /** A fingerprint is consolidated iff some cycle was given it, once all cycles have finished. */
  lemma ConsolidatedIffTaken<P(!new)>(fingerprint: Episode -> P, events: seq<Event>)
    requires Quiet(After(fingerprint, events))
    ensures After(fingerprint, events).consolidated == Taken(fingerprint, events)
  {
    AllAccounted(fingerprint, events);
  }

  /** What a cycle can miss lies between the last cycle's start and its own window. */
  lemma BeginCovers<P(!new)>(fingerprint: Episode -> P, journal: seq<Episode>, seen: nat, limit: int)
    requires seen <= |journal|
    ensures Prints(fingerprint, journal[..|journal|]) ==
              Prints(fingerprint, journal[..seen]) + Prints(fingerprint, Slice(journal, seen, Bound(-limit, |journal|)))
                + Prints(fingerprint, Window(journal, limit))
  {
  }

  /** The journal up to the last cycle's start is what was taken or skipped. */
  lemma {:induction false} TakenOrSkipped<P(!new)>(fingerprint: Episode -> P, events: seq<Event>)
    ensures var r := After(fingerprint, events);
            && r.seen <= |r.journal|
            && Prints(fingerprint, r.journal[..r.seen]) == Taken(fingerprint, events) + Skipped(fingerprint, events)
  {
    hide Prints, Window, Slice;
    if events == [] {
      NoPrints(fingerprint);
    } else {
      var before, ev := events[..|events| - 1], events[|events| - 1];
      var r := After(fingerprint, before);
      TakenOrSkipped(fingerprint, before);
      match ev
      case Recorded(e) => assert (r.journal + [e])[..r.seen] == r.journal[..r.seen];
      case Turn(k) =>
      case Begin(limit) => BeginCovers(fingerprint, r.journal, r.seen, limit);
    }
  }

  lemma NoPrints<P(!new)>(fingerprint: Episode -> P)
    ensures Prints(fingerprint, []) == {} && OneRecordEach(fingerprint, {}, [])
  {
  }

  /** Once all cycles have finished, the journal up to the last one's start is consolidated iff what
      was skipped recurs in some window. */
  lemma NoneMissedIff<P(!new)>(fingerprint: Episode -> P, events: seq<Event>)
    requires Quiet(After(fingerprint, events))
    ensures var r := After(fingerprint, events);
            r.seen <= |r.journal|
            && (Prints(fingerprint, r.journal[..r.seen]) <= r.consolidated <==>
                Skipped(fingerprint, events) <= Taken(fingerprint, events))
  {
    ConsolidatedIffTaken(fingerprint, events);
    TakenOrSkipped(fingerprint, events);
  }

  /** Episodes recorded since the last cycle began. */
  ghost function Arrived(events: seq<Event>): nat {
    if events == [] then 0
    else
      match events[|events| - 1]
      case Recorded(_) => Arrived(events[..|events| - 1]) + 1
      case Begin(_) => 0
      case Turn(_) => Arrived(events[..|events| - 1])
  }

  /** Never more arrivals between two cycles than the next one looks back; zero looks at everything. */
  ghost predicate WideEnough(events: seq<Event>) {
    forall i :: 0 <= i < |events| && events[i].Begin? ==>
        events[i].limit == 0 || Arrived(events[..i]) <= events[i].limit
  }

  lemma {:induction false} NothingSkipped<P(!new)>(fingerprint: Episode -> P, events: seq<Event>)
    requires WideEnough(events)
    ensures Skipped(fingerprint, events) == {}
    ensures var r := After(fingerprint, events); r.seen <= |r.journal| && |r.journal| - r.seen == Arrived(events)
  {
    if events == [] {
    } else {
      var before, ev := events[..|events| - 1], events[|events| - 1];
      forall i | 0 <= i < |before| && before[i].Begin?
          ensures before[i].limit == 0 || Arrived(before[..i]) <= before[i].limit {
        assert events[i] == before[i] && events[..i] == before[..i];
      }
      NothingSkipped(fingerprint, before);
      if ev.Begin? {
        assert Slice(After(fingerprint, before).journal, After(fingerprint, before).seen,
                     Bound(-ev.limit, |After(fingerprint, before).journal|)) == [];
        NoPrints(fingerprint);
      }
    }
  }

  ghost predicate ExactlyOne<P(!new)>(fingerprint: Episode -> P, records: seq<Episode>, p: P) {
    exists i :: 0 <= i < |records| && fingerprint(records[i]) == p
                && forall j :: 0 <= j < |records| && fingerprint(records[j]) == p ==> j == i
  }

  /** If cycles look back far enough, then whenever all cycles have finished, every episode recorded
      before the last one began has exactly one record: for any interleaving of recordings and cycles. */
  lemma NoneMissed<P(!new)>(fingerprint: Episode -> P, events: seq<Event>, i: nat)
    requires WideEnough(events) && Quiet(After(fingerprint, events))
    requires i < After(fingerprint, events).seen
    ensures var r := After(fingerprint, events);
            i < |r.journal| && ExactlyOne(fingerprint, r.records, fingerprint(r.journal[i]))
  {
    hide After, Taken, Skipped, WideEnough;
    var r := After(fingerprint, events);
    NothingSkipped(fingerprint, events);
    TakenOrSkipped(fingerprint, events);
    ConsolidatedIffTaken(fingerprint, events);
    RecordedOnce(fingerprint, events);
    assert r.journal[i] == r.journal[..r.seen][i] && r.journal[i] in r.journal[..r.seen];
    assert fingerprint(r.journal[i]) in Prints(fingerprint, r.records);
  }

  /** Two episodes recorded before a cycle that looks back one: the first is missed. */
  lemma MissedExample(fingerprint: Episode -> string, a: Episode, b: Episode)
    requires fingerprint(a) != fingerprint(b)
    ensures var r := After(fingerprint, [Recorded(a), Recorded(b), Begin(1), Turn(0)]);
            Quiet(r) && r.seen == 2 && r.journal == [a, b] && r.records == [b] && fingerprint(a) !in r.consolidated
  {
    var events := [Recorded(a), Recorded(b), Begin(1), Turn(0)];
    assert events[..3] == [Recorded(a), Recorded(b), Begin(1)];
    assert events[..3][..2] == [Recorded(a), Recorded(b)] && [Recorded(a), Recorded(b)][..1] == [Recorded(a)];
    assert [Recorded(a)][..0] == [];
    var r2 := Step(fingerprint, Step(fingerprint, After<string>(fingerprint, []), Recorded(a)), Recorded(b));
    assert After(fingerprint, events[..3][..2]) == r2;
    assert After(fingerprint, events[..3]) == Step(fingerprint, r2, Begin(1));
    assert Window(r2.journal, 1) == [b];
  }

  // ---- A cycle without interruption

  ghost function Turns<P>(fingerprint: Episode -> P, r: Run<P>, k: nat, n: nat): Run<P> {
    if n == 0 then r else Step(fingerprint, Turns(fingerprint, r, k, n - 1), Turn(k))
  }

  /** The cycle as one fold is a run of its turns. */
  lemma {:induction false} CycleIsRun<P(!new)>(fingerprint: Episode -> P, extract: Episode -> seq<Found>, w: World<P>,
                                               r: Run<P>, limit: int, n: nat)
    requires w.consolidated == r.consolidated && w.records == r.records && n <= |Window(r.journal, limit)|
    ensures var w', r' := AbsorbAll(fingerprint, extract, w, Window(r.journal, limit)[..n]),
                          Turns(fingerprint, Step(fingerprint, r, Begin(limit)), |r.open|, n);
            && w'.consolidated == r'.consolidated && w'.records == r'.records
            && r'.open == r.open + [Window(r.journal, limit)[n..]]
  {
    hide Window, Absorb;
    var recent := Window(r.journal, limit);
    if n == 0 {
      assert recent[0..] == recent;
    } else {
      assert recent[..n][..n - 1] == recent[..n - 1] && recent[..n][n - 1] == recent[n - 1..][0];
      CycleIsRun(fingerprint, extract, w, r, limit, n - 1);
      TurnIsAbsorb(fingerprint, extract, AbsorbAll(fingerprint, extract, w, recent[..n - 1]),
                   Turns(fingerprint, Step(fingerprint, r, Begin(limit)), |r.open|, n - 1), |r.open|);
      assert recent[n - 1..][1..] == recent[n..];
    }
  }
}
