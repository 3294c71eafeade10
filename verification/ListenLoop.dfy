/** A listen loop of `RedisEventBus` as a value: it reads append-only streams by remembered offsets and
    creates callback tasks. A position in a stream stands for the id of the entry there. */
module ListenLoop {
  import opened Basics

  type Topic(==, !new)
  type SubId(==, !new)
  type Message(==, !new)

  datatype Entry = NoPayload | Unparsable | Parsable(msg: Message)

  /** `$` before the first read of a topic, then the number of entries up to the last one read. */
  datatype Offset = Latest | After(n: nat)

  datatype Dispatch = Dispatch(topic: Topic, position: nat, listener: SubId, msg: Message)

  /** What one reply holds for a topic: consecutive entries from a position on. */
  datatype Batch = Batch(topic: Topic, start: nat, entries: seq<Entry>)

  // ---- The tasks created for consecutive entries

  /** One task per listener, for an entry that parses. */
  function DispatchesOf(topic: Topic, position: nat, entry: Entry, listeners: seq<SubId>): seq<Dispatch> {
    if entry.Parsable? then
      seq(|listeners|, i requires 0 <= i < |listeners| => Dispatch(topic, position, listeners[i], entry.msg))
    else []
  }

  /** Callback tasks due for consecutive entries, given who was listening when each was read. */
  ghost function Due(topic: Topic, first: nat, entries: seq<Entry>, heard: seq<seq<SubId>>): seq<Dispatch>
    requires |entries| == |heard|
  {
    if entries == [] then []
    else
      var n := |entries| - 1;
      Due(topic, first, entries[..n], heard[..n]) + DispatchesOf(topic, first + n, entries[n], heard[n])
  }

  /** A task is due iff its entry was read and parses, and its listener was there at that moment. */
  lemma {:induction false} DueMembers(topic: Topic, first: nat, entries: seq<Entry>, heard: seq<seq<SubId>>,
                                      d: Dispatch)
    requires |entries| == |heard|
    ensures d in Due(topic, first, entries, heard)
       <==> && d.topic == topic && first <= d.position < first + |entries|
            && entries[d.position - first] == Parsable(d.msg) && d.listener in heard[d.position - first]
  {
    hide DispatchesOf;
    if entries == [] {
    } else {
      var n := |entries| - 1;
      DueMembers(topic, first, entries[..n], heard[..n], d);
      DispatchMembers(topic, first + n, entries[n], heard[n], d);
    }
  }

  lemma DispatchMembers(topic: Topic, position: nat, entry: Entry, listeners: seq<SubId>, d: Dispatch)
    ensures d in DispatchesOf(topic, position, entry, listeners)
       <==> d.topic == topic && d.position == position && entry == Parsable(d.msg) && d.listener in listeners
  {
    if d.topic == topic && d.position == position && entry == Parsable(d.msg) && d.listener in listeners {
      var i :| 0 <= i < |listeners| && listeners[i] == d.listener;
      assert DispatchesOf(topic, position, entry, listeners)[i] == d;
    }
  }

  ghost predicate InOrder(tasks: seq<Dispatch>) {
    forall k, l :: 0 <= k < l < |tasks| ==> tasks[k].position <= tasks[l].position
  }

  /** Tasks are due in stream order ... */
  lemma {:induction false} DueInOrder(topic: Topic, first: nat, entries: seq<Entry>, heard: seq<seq<SubId>>)
    requires |entries| == |heard|
    ensures InOrder(Due(topic, first, entries, heard))
    ensures forall k :: 0 <= k < |Due(topic, first, entries, heard)| ==>
              first <= Due(topic, first, entries, heard)[k].position < first + |entries|
  {
    if entries == [] {
    } else {
      var n := |entries| - 1;
      DueInOrder(topic, first, entries[..n], heard[..n]);
      var last := DispatchesOf(topic, first + n, entries[n], heard[n]);
      assert forall k :: 0 <= k < |last| ==> last[k].position == first + n;
    }
  }

  ghost predicate Ahead(listeners: seq<SubId>, a: SubId, b: SubId) {
    exists i, j :: 0 <= i < j < |listeners| && listeners[i] == a && listeners[j] == b
  }

  /** The tasks of one entry are in the order of its listeners. */
  ghost predicate InListenerOrder(tasks: seq<Dispatch>, first: nat, heard: seq<seq<SubId>>) {
    forall k, l :: 0 <= k < l < |tasks| && tasks[k].position == tasks[l].position ==>
      && first <= tasks[k].position < first + |heard|
      && Ahead(heard[tasks[k].position - first], tasks[k].listener, tasks[l].listener)
  }

  lemma OrderAppend(before: seq<Dispatch>, last: seq<Dispatch>, first: nat, heard: seq<seq<SubId>>, now: seq<SubId>)
    requires InListenerOrder(before, first, heard)
    requires forall k :: 0 <= k < |before| ==> before[k].position < first + |heard|
    requires forall k :: 0 <= k < |last| ==> last[k].position == first + |heard|
    requires forall k, l :: 0 <= k < l < |last| ==> Ahead(now, last[k].listener, last[l].listener)
    ensures InListenerOrder(before + last, first, heard + [now])
  {
    hide Ahead;
    var due := before + last;
    forall k, l | 0 <= k < l < |due| && due[k].position == due[l].position
      ensures first <= due[k].position < first + |heard| + 1
      ensures Ahead((heard + [now])[due[k].position - first], due[k].listener, due[l].listener) {
      if l < |before| {
        assert due[k] == before[k] && due[l] == before[l];
      } else {
        assert due[l] == last[l - |before|];
      }
    }
  }

  lemma DispatchesAhead(topic: Topic, position: nat, entry: Entry, listeners: seq<SubId>, k: nat, l: nat)
    requires k < l < |DispatchesOf(topic, position, entry, listeners)|
    ensures var tasks := DispatchesOf(topic, position, entry, listeners);
            Ahead(listeners, tasks[k].listener, tasks[l].listener)
  {
  }

  lemma NothingInOrder(first: nat, heard: seq<seq<SubId>>)
    ensures InListenerOrder([], first, heard)
  {
  }

  /** The order among the tasks of one more entry. */
  lemma EntryInOrder(before: seq<Dispatch>, topic: Topic, first: nat, heard: seq<seq<SubId>>, entry: Entry,
                     now: seq<SubId>)
    requires InListenerOrder(before, first, heard)
    requires forall k :: 0 <= k < |before| ==> before[k].position < first + |heard|
    ensures InListenerOrder(before + DispatchesOf(topic, first + |heard|, entry, now), first, heard + [now])
  {
    hide InListenerOrder, Ahead, DispatchesOf;
    var last := DispatchesOf(topic, first + |heard|, entry, now);
    forall k | 0 <= k < |last| ensures last[k].position == first + |heard| {
      DispatchMembers(topic, first + |heard|, entry, now, last[k]);
    }
    forall k, l | 0 <= k < l < |last| ensures Ahead(now, last[k].listener, last[l].listener) {
      DispatchesAhead(topic, first + |heard|, entry, now, k, l);
    }
    OrderAppend(before, last, first, heard, now);
  }

  /** ... and for one entry in the order its listeners subscribed ... */
  lemma {:induction false} DueByListener(topic: Topic, first: nat, entries: seq<Entry>, heard: seq<seq<SubId>>)
    requires |entries| == |heard|
    ensures InListenerOrder(Due(topic, first, entries, heard), first, heard)
  {
    hide InListenerOrder, InOrder, Due, DispatchesOf;
    if entries == [] {
      DueNothing(topic, first);
      NothingInOrder(first, heard);
    } else {
      var n := |entries| - 1;
      DueByListener(topic, first, entries[..n], heard[..n]);
      DueInOrder(topic, first, entries[..n], heard[..n]);
      EntryInOrder(Due(topic, first, entries[..n], heard[..n]), topic, first, heard[..n], entries[n], heard[n]);
      DueSnoc(topic, first, entries[..n], heard[..n], entries[n], heard[n]);
      assert entries[..n] + [entries[n]] == entries && heard[..n] + [heard[n]] == heard;
    }
  }

  ghost predicate AllDistinct(heard: seq<seq<SubId>>) {
    forall i :: 0 <= i < |heard| ==> Distinct(heard[i])
  }

  /** ... and never twice for one entry and listener. */
  lemma {:induction false} DueOnce(topic: Topic, first: nat, entries: seq<Entry>, heard: seq<seq<SubId>>)
    requires |entries| == |heard| && AllDistinct(heard)
    ensures Distinct(Due(topic, first, entries, heard))
  {
    if entries == [] {
    } else {
      var n := |entries| - 1;
      DueOnce(topic, first, entries[..n], heard[..n]);
      DueInOrder(topic, first, entries[..n], heard[..n]);
      var last := DispatchesOf(topic, first + n, entries[n], heard[n]);
      assert forall k :: 0 <= k < |last| ==> last[k].position == first + n && last[k].listener == heard[n][k];
    }
  }

  lemma DueNothing(t: Topic, first: nat)
    ensures Due(t, first, [], []) == []
  {
  }

  lemma DueSnoc(t: Topic, first: nat, entries: seq<Entry>, heard: seq<seq<SubId>>, entry: Entry, now: seq<SubId>)
    requires |entries| == |heard|
    ensures Due(t, first, entries + [entry], heard + [now])
         == Due(t, first, entries, heard) + DispatchesOf(t, first + |entries|, entry, now)
  {
    hide DispatchesOf;
    assert (entries + [entry])[..|entries|] == entries && (heard + [now])[..|entries|] == heard;
  }

  /** What is due for a longer stretch. */
  lemma {:induction false} DueAppend(t: Topic, first: nat, a: seq<Entry>, b: seq<Entry>, ha: seq<seq<SubId>>,
                                     hb: seq<seq<SubId>>)
    requires |a| == |ha| && |b| == |hb|
    ensures Due(t, first, a + b, ha + hb) == Due(t, first, a, ha) + Due(t, first + |a|, b, hb)
  {
    hide Due, DispatchesOf;
    if b == [] {
      DueNothing(t, first + |a|);
      assert a + b == a && ha + hb == ha;
    } else {
      var n := |b| - 1;
      DueAppend(t, first, a, b[..n], ha, hb[..n]);
      DueSnoc(t, first, a + b[..n], ha + hb[..n], b[n], hb[n]);
      DueSnoc(t, first + |a|, b[..n], hb[..n], b[n], hb[n]);
      assert b[..n] + [b[n]] == b && hb[..n] + [hb[n]] == hb;
      assert a + b[..n] + [b[n]] == a + b && ha + hb[..n] + [hb[n]] == ha + hb;
    }
  }

  // ---- The tasks of one topic

  ghost function OnTopic(log: seq<Dispatch>, topic: Topic): seq<Dispatch> {
    if log == [] then []
    else OnTopic(log[..|log| - 1], topic) + if log[|log| - 1].topic == topic then [log[|log| - 1]] else []
  }

  lemma {:induction false} OnTopicMembers(log: seq<Dispatch>, topic: Topic, d: Dispatch)
    ensures d in OnTopic(log, topic) <==> d in log && d.topic == topic
  {
    if log == [] {
    } else {
      assert log == log[..|log| - 1] + [log[|log| - 1]];
      OnTopicMembers(log[..|log| - 1], topic, d);
    }
  }

  lemma {:induction false} OnTopicAppend(a: seq<Dispatch>, b: seq<Dispatch>, topic: Topic)
    ensures OnTopic(a + b, topic) == OnTopic(a, topic) + OnTopic(b, topic)
  {
    if b == [] {
      assert a + b == a;
    } else {
      var n := |b| - 1;
      assert (a + b)[..|a + b| - 1] == a + b[..n];
      OnTopicAppend(a, b[..n], topic);
    }
  }

  lemma {:induction false} OnTopicUniform(log: seq<Dispatch>, owner: Topic, topic: Topic)
    requires forall i :: 0 <= i < |log| ==> log[i].topic == owner
    ensures OnTopic(log, topic) == if owner == topic then log else []
  {
    if log == [] {
    } else {
      assert log == log[..|log| - 1] + [log[|log| - 1]];
      OnTopicUniform(log[..|log| - 1], owner, topic);
    }
  }

  /** Tasks for entries of `t` extend what is on `t` and leave other topics alone. */
  lemma CreatedOnTopic(log: seq<Dispatch>, t: Topic, start: nat, entries: seq<Entry>, heard: seq<seq<SubId>>, u: Topic)
    requires |entries| == |heard|
    ensures OnTopic(log + Due(t, start, entries, heard), u)
         == OnTopic(log, u) + if u == t then Due(t, start, entries, heard) else []
  {
    hide OnTopic;
    var added := Due(t, start, entries, heard);
    forall i | 0 <= i < |added| ensures added[i].topic == t {
      DueMembers(t, start, entries, heard, added[i]);
    }
    OnTopicAppend(log, added, u);
    OnTopicUniform(added, t, u);
  }

  // ---- One listen loop

  /** A listen loop: `lastIds` is its variable, `asked` the request it waits on. The rest is kept for
      the proof: the tasks it created, where its reading of a topic begins, who listened when each
      entry was handled, and whether it started alone. Reading begins at the end the stream had at the
      loop's start, or at the latest request made for the topic before any was answered. */
  datatype Loop = Loop(running: bool, asked: Option<map<Topic, nat>>, lastIds: map<Topic, Offset>,
                       created: seq<Dispatch>, first: map<Topic, nat>, heard: map<Topic, seq<seq<SubId>>>,
                       alone: bool)
  {
    function First(t: Topic): nat {
      if t in first then first[t] else 0
    }

    function Heard(t: Topic): seq<seq<SubId>> {
      if t in heard then heard[t] else []
    }

    predicate HasRead(t: Topic) {
      t in lastIds && lastIds[t].After?
    }

    /** The next position to read. */
    function Next(t: Topic): nat {
      if HasRead(t) then lastIds[t].n else First(t)
    }
  }

  function StreamOf(streams: map<Topic, seq<Entry>>, t: Topic): seq<Entry> {
    if t in streams then streams[t] else []
  }

  function ListenersOf(subscribers: map<Topic, seq<SubId>>, t: Topic): seq<SubId> {
    if t in subscribers then subscribers[t] else []
  }

  ghost predicate SubscribersOk(subscribers: map<Topic, seq<SubId>>) {
    forall t :: t in subscribers ==> Distinct(subscribers[t])
  }

  /** The entries of a topic from the first one read up to the next one to read, and no others, have
      been dispatched, in stream order. */
  ghost predicate ReadOk(loop: Loop, t: Topic, stream: seq<Entry>) {
    && loop.First(t) <= loop.Next(t) <= |stream|
    && |loop.Heard(t)| == loop.Next(t) - loop.First(t)
    && AllDistinct(loop.Heard(t))
    && OnTopic(loop.created, t) == Due(t, loop.First(t), stream[loop.First(t)..loop.Next(t)], loop.Heard(t))
  }

  /** A request asks for what comes next. */
  ghost predicate AskedOk(loop: Loop, t: Topic) {
    loop.asked.Some? && t in loop.asked.value ==> t in loop.lastIds && loop.asked.value[t] == loop.Next(t)
  }

  ghost predicate LoopOk(loop: Loop, streams: map<Topic, seq<Entry>>) {
    forall t :: ReadOk(loop, t, StreamOf(streams, t)) && AskedOk(loop, t)
  }

  lemma StreamsGrow(loop: Loop, streams: map<Topic, seq<Entry>>, t: Topic, entry: Entry)
    requires LoopOk(loop, streams)
    ensures LoopOk(loop, streams[t := StreamOf(streams, t) + [entry]])
  {
    hide OnTopic, Due;
    var grown := streams[t := StreamOf(streams, t) + [entry]];
    forall u ensures ReadOk(loop, u, StreamOf(grown, u)) && AskedOk(loop, u) {
      assert ReadOk(loop, u, StreamOf(streams, u));
      var first, n := loop.First(u), loop.Next(u);
      assert StreamOf(grown, u)[first..n] == StreamOf(streams, u)[first..n];
    }
  }

  lemma StoppedOk(loop: Loop, streams: map<Topic, seq<Entry>>)
    requires LoopOk(loop, streams)
    ensures LoopOk(loop.(running := false), streams) && LoopOk(loop.(asked := None), streams)
  {
    hide OnTopic, Due;
    var stopped, waiting := loop.(running := false), loop.(asked := None);
    forall t
      ensures ReadOk(stopped, t, StreamOf(streams, t)) && AskedOk(stopped, t)
      ensures ReadOk(waiting, t, StreamOf(streams, t)) && AskedOk(waiting, t) {
      assert ReadOk(loop, t, StreamOf(streams, t)) && AskedOk(loop, t);
    }
  }

  /** What a loop has read it keeps, and where its reading of a topic begins can only move on, until
      the topic is read. */
  ghost predicate Later(a: Loop, b: Loop) {
    && a.created <= b.created
    && forall t :: LaterOn(a, b, t)
  }

  ghost predicate LaterOn(a: Loop, b: Loop, t: Topic) {
    && a.First(t) <= b.First(t) && a.Next(t) <= b.Next(t) && a.Heard(t) <= b.Heard(t)
    && (a.HasRead(t) ==> b.HasRead(t) && a.First(t) == b.First(t))
  }

  lemma LaterTrans(a: Loop, b: Loop, c: Loop)
    requires Later(a, b) && Later(b, c)
    ensures Later(a, c)
  {
    forall t ensures LaterOn(a, c, t) {
      assert LaterOn(a, b, t) && LaterOn(b, c, t);
    }
  }

  /** Loops go on, and new ones may join them. */
  ghost predicate Continues(before: seq<Loop>, after: seq<Loop>) {
    |before| <= |after| && forall k :: 0 <= k < |before| ==> Later(before[k], after[k])
  }

  lemma ContinuesSame(loops: seq<Loop>)
    ensures Continues(loops, loops)
  {
  }

  lemma ContinuesAt(loops: seq<Loop>, k: nat, loop: Loop)
    requires k < |loops| && Later(loops[k], loop)
    ensures Continues(loops, loops[k := loop])
  {
    ContinuesSame(loops);
  }

  lemma ContinuesTrans(a: seq<Loop>, b: seq<Loop>, c: seq<Loop>)
    requires Continues(a, b) && Continues(b, c)
    ensures Continues(a, c)
  {
    forall k | 0 <= k < |a| ensures Later(a[k], c[k]) {
      LaterTrans(a[k], b[k], c[k]);
    }
  }

  lemma StandsStill(loop: Loop)
    ensures Later(loop, loop) && Later(loop, loop.(asked := None)) && Later(loop, loop.(running := false))
  {
  }

  lemma AskedFits(loop: Loop, t: Topic, streams: map<Topic, seq<Entry>>)
    requires LoopOk(loop, streams) && loop.asked.Some? && t in loop.asked.value
    ensures t in loop.lastIds && loop.asked.value[t] == loop.Next(t) <= |StreamOf(streams, t)|
  {
    assert ReadOk(loop, t, StreamOf(streams, t)) && AskedOk(loop, t);
  }

  // ---- Asking

  /** The loop after remembering the subscribed topics and asking for what comes next on each. */
  function Asking(loop: Loop, subscribers: map<Topic, seq<SubId>>, streams: map<Topic, seq<Entry>>): Loop {
    var known := loop.(lastIds := loop.lastIds + map t | t in subscribers && t !in loop.lastIds :: Latest);
    var placed := known.(first := loop.first + map t | t in subscribers && !loop.HasRead(t) :: |StreamOf(streams, t)|);
    placed.(asked := Some(map t | t in subscribers :: placed.Next(t)))
  }

  lemma AskingFacts(loop: Loop, subscribers: map<Topic, seq<SubId>>, streams: map<Topic, seq<Entry>>)
    ensures var after := Asking(loop, subscribers, streams);
            && after.running == loop.running && after.created == loop.created && after.heard == loop.heard
            && after.alone == loop.alone && after.lastIds.Keys == loop.lastIds.Keys + subscribers.Keys
            && (forall t :: t in after.lastIds ==>
                  after.lastIds[t] == if t in loop.lastIds then loop.lastIds[t] else Latest)
            && (forall t :: after.HasRead(t) <==> loop.HasRead(t))
            && (forall t :: after.First(t) ==
                  if t in subscribers && !loop.HasRead(t) then |StreamOf(streams, t)| else loop.First(t))
            && after.asked.Some? && after.asked.value.Keys == subscribers.Keys
            && (forall t :: t in subscribers ==> after.asked.value[t] == after.Next(t))
  {
  }

  lemma AskingOk(loop: Loop, subscribers: map<Topic, seq<SubId>>, streams: map<Topic, seq<Entry>>)
    requires LoopOk(loop, streams)
    ensures LoopOk(Asking(loop, subscribers, streams), streams) && Later(loop, Asking(loop, subscribers, streams))
  {
    hide Asking, ReadOk;
    var after := Asking(loop, subscribers, streams);
    AskingFacts(loop, subscribers, streams);
    forall t ensures ReadOk(after, t, StreamOf(streams, t)) && LaterOn(loop, after, t) {
      assert ReadOk(loop, t, StreamOf(streams, t));
      AskingReads(loop, after, t, StreamOf(streams, t));
    }
  }

  /** A topic that has not been read may be begun at the end of its stream. */
  lemma AskingReads(loop: Loop, after: Loop, t: Topic, stream: seq<Entry>)
    requires ReadOk(loop, t, stream)
    requires after.created == loop.created && after.heard == loop.heard && after.HasRead(t) == loop.HasRead(t)
    requires loop.HasRead(t) ==> after.lastIds[t] == loop.lastIds[t] && after.First(t) == loop.First(t)
    requires after.First(t) == loop.First(t) || after.First(t) == |stream|
    ensures ReadOk(after, t, stream) && LaterOn(loop, after, t)
  {
    hide OnTopic, Due;
    DueNothing(t, loop.First(t));
    DueNothing(t, after.First(t));
    assert !loop.HasRead(t) ==>
        && loop.Heard(t) == [] && stream[loop.First(t)..loop.First(t)] == []
        && stream[after.First(t)..after.First(t)] == [];
  }

  // ---- Handling a reply

  ghost function Repeat<T>(x: T, n: nat): (r: seq<T>)
    ensures |r| == n
  {
    seq(n, _ => x)
  }

  /** The loop after handling consecutive entries of a topic. */
  ghost function Advance(loop: Loop, b: Batch, listeners: seq<SubId>): Loop {
    loop.(lastIds := loop.lastIds[b.topic := After(b.start + |b.entries|)],
          created := loop.created + Due(b.topic, b.start, b.entries, Repeat(listeners, |b.entries|)),
          heard := loop.heard[b.topic := loop.Heard(b.topic) + Repeat(listeners, |b.entries|)])
  }

  /** The batch is what the stream holds from the next position to read. */
  ghost predicate Fits(loop: Loop, b: Batch, stream: seq<Entry>) {
    && b.topic in loop.lastIds && b.entries != [] && b.start == loop.Next(b.topic)
    && b.start + |b.entries| <= |stream| && b.entries == stream[b.start..b.start + |b.entries|]
  }

  lemma AdvanceOk(loop: Loop, b: Batch, listeners: seq<SubId>, streams: map<Topic, seq<Entry>>)
    requires LoopOk(loop, streams) && loop.asked.None? && Distinct(listeners)
    requires Fits(loop, b, StreamOf(streams, b.topic))
    ensures LoopOk(Advance(loop, b, listeners), streams) && Later(loop, Advance(loop, b, listeners))
  {
    hide OnTopic, Due;
    var after := Advance(loop, b, listeners);
    forall u ensures ReadOk(after, u, StreamOf(streams, u)) && LaterOn(loop, after, u) {
      assert ReadOk(loop, u, StreamOf(streams, u));
      CreatedOnTopic(loop.created, b.topic, b.start, b.entries, Repeat(listeners, |b.entries|), u);
      if u == b.topic {
        AdvanceRead(loop, b, listeners, StreamOf(streams, u));
      }
    }
  }

  lemma AdvanceRead(loop: Loop, b: Batch, listeners: seq<SubId>, stream: seq<Entry>)
    requires ReadOk(loop, b.topic, stream) && Distinct(listeners) && Fits(loop, b, stream)
    ensures ReadOk(Advance(loop, b, listeners), b.topic, stream)
  {
    hide OnTopic, Due;
    var t, now := b.topic, Repeat(listeners, |b.entries|);
    CreatedOnTopic(loop.created, t, b.start, b.entries, now, t);
    var first, before := loop.First(t), stream[loop.First(t)..b.start];
    DueAppend(t, first, before, b.entries, loop.Heard(t), now);
    SliceExtend(stream, first, b.start, b.start + |b.entries|);
  }

  lemma SliceExtend<T>(s: seq<T>, a: nat, b: nat, c: nat)
    requires a <= b <= c <= |s|
    ensures s[a..b] + s[b..c] == s[a..c]
  {
  }

  /** Handling a batch entry by entry. */
  lemma AdvanceByOne(loop: Loop, b: Batch, i: nat, listeners: seq<SubId>)
    requires 0 < i < |b.entries|
    ensures Advance(Advance(loop, b.(entries := b.entries[..i]), listeners),
                    Batch(b.topic, b.start + i, [b.entries[i]]), listeners)
         == Advance(loop, b.(entries := b.entries[..i + 1]), listeners)
  {
    hide Due;
    DueAppend(b.topic, b.start, b.entries[..i], [b.entries[i]], Repeat(listeners, i), Repeat(listeners, 1));
    assert b.entries[..i] + [b.entries[i]] == b.entries[..i + 1];
    assert Repeat(listeners, i) + Repeat(listeners, 1) == Repeat(listeners, i + 1);
    assert loop.Heard(b.topic) + Repeat(listeners, i) + Repeat(listeners, 1)
        == loop.Heard(b.topic) + Repeat(listeners, i + 1);
  }

  lemma AdvanceReads(loop: Loop, b: Batch, listeners: seq<SubId>)
    ensures var after := Advance(loop, b, listeners);
            && after.running == loop.running && after.asked == loop.asked
            && after.first == loop.first && after.alone == loop.alone
            && after.HasRead(b.topic) && after.Next(b.topic) == b.start + |b.entries|
  {
  }

  lemma DueSingle(t: Topic, position: nat, entry: Entry, listeners: seq<SubId>)
    ensures Due(t, position, [entry], Repeat(listeners, 1)) == DispatchesOf(t, position, entry, listeners)
  {
    DueNothing(t, position);
    DueSnoc(t, position, [], [], entry, listeners);
    assert [] + [entry] == [entry] && [] + [listeners] == Repeat(listeners, 1);
  }

  method CreateTasks(t: Topic, position: nat, entry: Entry, listeners: seq<SubId>) returns (tasks: seq<Dispatch>)
    ensures tasks == DispatchesOf(t, position, entry, listeners)
    ensures |tasks| == if entry.Parsable? then |listeners| else 0
    ensures forall i :: 0 <= i < |tasks| ==> tasks[i] == Dispatch(t, position, listeners[i], entry.msg)
  {
    tasks := [];
    if entry.Parsable? {
      for i := 0 to |listeners|
        invariant tasks == DispatchesOf(t, position, entry, listeners)[..i]
      {
        tasks := tasks + [Dispatch(t, position, listeners[i], entry.msg)];
      }
    }
  }

  /** The loop after handling a whole reply under the given subscriptions. */
  ghost function AfterReply(loop: Loop, results: seq<Batch>, subscribers: map<Topic, seq<SubId>>): Loop {
    if results == [] then loop
    else
      var n := |results| - 1;
      Advance(AfterReply(loop, results[..n], subscribers), results[n], ListenersOf(subscribers, results[n].topic))
  }

  /** A reply moves the topics it holds past their batches, with the listeners of the moment ... */
  lemma {:induction false} ReplyMoves(loop: Loop, results: seq<Batch>, subscribers: map<Topic, seq<SubId>>, i: nat)
    requires forall i, j :: 0 <= i < j < |results| ==> results[i].topic != results[j].topic
    requires i < |results|
    ensures var after, b := AfterReply(loop, results, subscribers), results[i];
            && b.topic in after.lastIds && after.lastIds[b.topic] == After(b.start + |b.entries|)
            && after.Heard(b.topic)
               == loop.Heard(b.topic) + Repeat(ListenersOf(subscribers, b.topic), |b.entries|)
  {
    hide Due;
    var n := |results| - 1;
    if i == n {
      ReplyLeaves(loop, results[..n], subscribers, results[n].topic);
    } else {
      ReplyMoves(loop, results[..n], subscribers, i);
    }
  }

  /** ... and leaves all other topics where they are; nowhere does it change where reading begins. */
  lemma {:induction false} ReplyLeaves(loop: Loop, results: seq<Batch>, subscribers: map<Topic, seq<SubId>>, t: Topic)
    requires forall i :: 0 <= i < |results| ==> results[i].topic != t
    ensures var after := AfterReply(loop, results, subscribers);
            && (t in after.lastIds <==> t in loop.lastIds)
            && (t in after.lastIds ==> after.lastIds[t] == loop.lastIds[t])
            && after.Heard(t) == loop.Heard(t) && OnTopic(after.created, t) == OnTopic(loop.created, t)
    ensures var after := AfterReply(loop, results, subscribers);
            && after.running == loop.running && after.asked == loop.asked
            && after.first == loop.first && after.alone == loop.alone
  {
    hide Advance, OnTopic;
    if results == [] {
    } else {
      var n := |results| - 1;
      ReplyLeaves(loop, results[..n], subscribers, t);
      AdvanceLeaves(AfterReply(loop, results[..n], subscribers), results[n],
                    ListenersOf(subscribers, results[n].topic), t);
    }
  }

  lemma AdvanceLeaves(loop: Loop, b: Batch, listeners: seq<SubId>, t: Topic)
    requires b.topic != t
    ensures var after := Advance(loop, b, listeners);
            && (t in after.lastIds <==> t in loop.lastIds)
            && (t in after.lastIds ==> after.lastIds[t] == loop.lastIds[t])
            && after.Heard(t) == loop.Heard(t) && OnTopic(after.created, t) == OnTopic(loop.created, t)
            && after.running == loop.running && after.asked == loop.asked
            && after.first == loop.first && after.alone == loop.alone
  {
    hide Due, OnTopic;
    CreatedOnTopic(loop.created, b.topic, b.start, b.entries, Repeat(listeners, |b.entries|), t);
  }

  // ---- What a loop has done

  /** The tasks of a topic, without reference to how they came about. */
  lemma TasksOf(loop: Loop, t: Topic, stream: seq<Entry>)
    requires ReadOk(loop, t, stream)
    ensures Distinct(OnTopic(loop.created, t)) && InOrder(OnTopic(loop.created, t))
    ensures InListenerOrder(OnTopic(loop.created, t), loop.First(t), loop.Heard(t))
    ensures forall d: Dispatch :: d in OnTopic(loop.created, t) <==> d in loop.created && d.topic == t
    ensures forall d: Dispatch :: d in OnTopic(loop.created, t) <==>
              && d.topic == t && loop.First(t) <= d.position < loop.Next(t)
              && stream[d.position] == Parsable(d.msg) && d.listener in loop.Heard(t)[d.position - loop.First(t)]
  {
    hide OnTopic, Due;
    var first, n, heard := loop.First(t), loop.Next(t), loop.Heard(t);
    DueInOrder(t, first, stream[first..n], heard);
    DueByListener(t, first, stream[first..n], heard);
    DueOnce(t, first, stream[first..n], heard);
    forall d: Dispatch
      ensures d in OnTopic(loop.created, t) <==> d in loop.created && d.topic == t
      ensures d in OnTopic(loop.created, t) <==>
          && d.topic == t && first <= d.position < n
          && stream[d.position] == Parsable(d.msg) && d.listener in heard[d.position - first] {
      OnTopicMembers(loop.created, t, d);
      DueMembers(t, first, stream[first..n], heard, d);
    }
  }

  /** The fate of a task, decided by an earlier state: what lies before the beginning of reading is
      missed for good. Once the topic has been read and the loop has passed the entry, its task was
      created iff it is not before that beginning, parses, and the listener was there at its moment. */
  lemma MissedIff(past: Loop, loop: Loop, streams: map<Topic, seq<Entry>>, d: Dispatch)
    requires Later(past, loop) && LoopOk(loop, streams)
    ensures d.position < past.First(d.topic) ==> d !in loop.created
    ensures var t, p, first := d.topic, d.position, past.First(d.topic);
            past.HasRead(t) && p < loop.Next(t) ==>
              && p < |StreamOf(streams, t)| && (first <= p ==> p - first < |loop.Heard(t)|)
              && (d in loop.created <==>
                    first <= p && StreamOf(streams, t)[p] == Parsable(d.msg) && d.listener in loop.Heard(t)[p - first])
  {
    hide OnTopic, Due;
    assert LaterOn(past, loop, d.topic) && ReadOk(loop, d.topic, StreamOf(streams, d.topic));
    TasksOf(loop, d.topic, StreamOf(streams, d.topic));
  }

  // ---- Several loops

  /** Whatever an earlier loop has read lies before where the later one begins. */
  ghost predicate Before(a: Loop, b: Loop) {
    forall t :: a.HasRead(t) ==> a.lastIds[t].n <= b.First(t)
  }

  ghost predicate RivalsOk(loops: seq<Loop>) {
    forall i, j :: 0 <= i < j < |loops| && loops[j].alone ==> !loops[i].running && Before(loops[i], loops[j])
  }

  lemma NewLoopOk(loop: Loop, streams: map<Topic, seq<Entry>>)
    requires loop.asked.None? && loop.lastIds == map[] && loop.created == [] && loop.heard == map[]
    requires loop.first == map t | t in streams :: |streams[t]|
    ensures LoopOk(loop, streams) && forall t :: loop.First(t) == |StreamOf(streams, t)|
  {
    forall t ensures ReadOk(loop, t, StreamOf(streams, t)) {
      DueNothing(t, loop.First(t));
    }
  }

  lemma ReadSoFar(loop: Loop, later: Loop, streams: map<Topic, seq<Entry>>)
    requires LoopOk(loop, streams) && forall t :: later.First(t) == |StreamOf(streams, t)|
    ensures Before(loop, later)
  {
    hide OnTopic, Due;
    forall t | loop.HasRead(t) ensures loop.lastIds[t].n <= later.First(t) {
      assert ReadOk(loop, t, StreamOf(streams, t));
    }
  }

  lemma RivalsKept(loops: seq<Loop>, k: nat, loop: Loop)
    requires RivalsOk(loops) && k < |loops| && loop.alone == loops[k].alone && Later(loops[k], loop)
    requires loops[k].running || (!loop.running && loop.lastIds == loops[k].lastIds)
    ensures RivalsOk(loops[k := loop])
  {
    var changed := loops[k := loop];
    forall i, j | 0 <= i < j < |loops| && changed[j].alone
        ensures !changed[i].running && Before(changed[i], changed[j]) {
      assert Before(loops[i], loops[j]);
      forall t | changed[i].HasRead(t) ensures changed[i].lastIds[t].n <= changed[j].First(t) {
        assert LaterOn(loops[k], loop, t);
      }
    }
  }
}
