/** `RedisEventBus`: subscriptions, publishing, and the listen loops it starts and stops. */
module EventBus {
  import opened Basics
  import opened ListenLoop

  datatype BusError = SYSTEM_001 | SYSTEM_999

  const READ_COUNT := 10

  class RedisEventBus {
    var active: bool
    var connected: bool
    var streams: map<Topic, seq<Entry>>          // the server: only ever appended to
    var subscribers: map<Topic, seq<SubId>>
    var loops: seq<Loop>                         // the listen loops started so far
    var listenTask: Option<nat>                  // the one that `stop` cancels

    function Stream(t: Topic): seq<Entry>
      reads this
    {
      StreamOf(streams, t)
    }

    function Listeners(t: Topic): seq<SubId>
      reads this
    {
      ListenersOf(subscribers, t)
    }

    ghost predicate Valid()
      reads this
    {
      && SubscribersOk(subscribers)
      && (forall k :: 0 <= k < |loops| ==> LoopOk(loops[k], streams))
      && RivalsOk(loops)
      && (listenTask.Some? ==> listenTask.value < |loops|)
    }

    constructor ()
      ensures Valid() && !active && !connected && streams == map[] && subscribers == map[]
      ensures loops == [] && listenTask == None
    {
      active, connected, streams, subscribers, loops, listenTask := false, false, map[], map[], [], None;
    }

    /** The client is kept even if its first ping fails. */
    method Initialize(pingFails: bool) returns (r: Result<(), BusError>)
      requires Valid()
      modifies `connected
      ensures Valid() && connected && r == if pingFails then Failure(SYSTEM_001) else Success(())
    {
      connected := true;
      return if pingFails then Failure(SYSTEM_001) else Success(());
    }

    /** Every start begins a new loop that has read nothing. */
    method Start() returns (r: Result<(), BusError>)
      requires Valid()
      modifies `active, `loops, `listenTask
      ensures Valid() && Continues(old(loops), loops)
      ensures !connected ==>
                && r == Failure(SYSTEM_001)
                && active == old(active) && loops == old(loops) && listenTask == old(listenTask)
      ensures connected ==>
                && r == Success(()) && active && |loops| == |old(loops)| + 1 && loops[..|old(loops)|] == old(loops)
                && listenTask == Some(|old(loops)|)
                && var loop := loops[|old(loops)|];
                   && loop.running && loop.asked.None?
                   && loop.lastIds == map[] && loop.created == [] && loop.heard == map[]
                   && (forall t :: loop.First(t) == |Stream(t)|)
                   && (loop.alone <==> forall i :: 0 <= i < |old(loops)| ==> !old(loops)[i].running)
    {
      hide LoopOk, Before;
      if !connected {
        return Failure(SYSTEM_001);
      }
      active := true;
      var alone := forall i :: 0 <= i < |loops| ==> !loops[i].running;
      var loop := Loop(true, None, map[], [], map t | t in streams :: |streams[t]|, map[], alone);
      NewLoopOk(loop, streams);
      forall i | 0 <= i < |loops| ensures Before(loops[i], loop) {
        ReadSoFar(loops[i], loop, streams);
      }
      listenTask := Some(|loops|);
      loops := loops + [loop];
      return Success(());
    }

    /** The steps of `stop`. Up to its first await: the loop started last is cancelled, wherever it waits. */
    method CancelLoop()
      requires Valid()
      modifies `active, `loops
      ensures Valid() && !active && Continues(old(loops), loops)
      ensures loops == match listenTask
                       case None => old(loops)
                       case Some(k) => old(loops)[k := old(loops)[k].(running := false)]
    {
      active := false;
      if listenTask.Some? {
        var k := listenTask.value;
        var loop := loops[k].(running := false);
        RivalsKept(loops, k, loop);
        StoppedOk(loops[k], streams);
        loops := loops[k := loop];
      }
    }

    /** After it, if there was a loop to await: whichever task is remembered by then is forgotten. */
    method ForgetTask()
      requires Valid()
      modifies `listenTask
      ensures Valid() && listenTask == None
    {
      listenTask := None;
    }

    /** At last, when the client has been closed. */
    method DropClient()
      requires Valid()
      modifies `connected
      ensures Valid() && !connected
    {
      connected := false;
    }

    /** These steps with nothing else running at their awaits. */
    method Stop()
      requires Valid()
      modifies `active, `connected, `loops, `listenTask
      ensures Valid() && !active && !connected && listenTask == None && Continues(old(loops), loops)
      ensures loops == match old(listenTask)
                       case None => old(loops)
                       case Some(k) => old(loops)[k := old(loops)[k].(running := false)]
    {
      CancelLoop();
      if listenTask.Some? {
        ForgetTask();
      }
      DropClient();
    }

    /** Listeners are dropped; loops end when they next look. */
    method Shutdown()
      requires Valid()
      modifies `active, `subscribers
      ensures Valid() && !active && subscribers == map[]
    {
      subscribers, active := map[], false;
    }

    /** An inactive bus drops the message; a failed append raises and leaves the stream alone. */
    method Publish(t: Topic, entry: Entry, appendFails: bool) returns (r: Result<bool, BusError>)
      requires Valid()
      modifies `streams
      ensures Valid()
      ensures r == if !active || !connected then Success(false)
                   else if appendFails then Failure(SYSTEM_999) else Success(true)
      ensures forall u :: Stream(u) == if u == t && r == Success(true) then old(Stream(u)) + [entry] else old(Stream(u))
    {
      if !active || !connected {
        return Success(false);
      }
      if appendFails {
        return Failure(SYSTEM_999);
      }
      forall k | 0 <= k < |loops| ensures LoopOk(loops[k], streams[t := Stream(t) + [entry]]) {
        StreamsGrow(loops[k], streams, t, entry);
      }
      streams := streams[t := Stream(t) + [entry]];
      return Success(true);
    }

    /** Subscription ids are drawn fresh. */
    method Subscribe(t: Topic, id: SubId)
      requires Valid() && id !in Listeners(t)
      modifies `subscribers
      ensures Valid()
      ensures forall u :: Listeners(u) == if u == t then old(Listeners(u)) + [id] else old(Listeners(u))
      ensures subscribers.Keys == old(subscribers.Keys) + {t}
    {
      if t !in subscribers {
        subscribers := subscribers[t := []];
      }
      subscribers := subscribers[t := subscribers[t] + [id]];
      assert forall u :: u != t ==> Listeners(u) == old(Listeners(u));
    }

    method Unsubscribe(t: Topic, id: SubId) returns (found: bool)
      requires Valid()
      modifies `subscribers
      ensures Valid() && found == (id in old(Listeners(t))) && id !in Listeners(t)
      ensures forall u :: Listeners(u) == if u == t then Without(old(Listeners(u)), id) else old(Listeners(u))
      ensures subscribers.Keys == old(subscribers.Keys)
    {
      if t in subscribers {
        var listeners := subscribers[t];
        assert Distinct(Listeners(t));
        for i := 0 to |listeners|
          invariant id !in listeners[..i]
        {
          if listeners[i] == id {
            WithoutAt(listeners, id, i);
            subscribers := subscribers[t := listeners[..i] + listeners[i + 1..]];
            assert forall u :: u != t ==> Listeners(u) == old(Listeners(u));
            return true;
          }
        }
        assert listeners[..|listeners|] == listeners;
      }
      WithoutAbsent(Listeners(t), id);
      return false;
    }

    /** The head of a loop: it ends on an inactive bus, and otherwise asks for what comes next on every
        subscribed topic, which for one not read yet is the end of its stream; with no topic it only
        sleeps. */
    method BeginPoll(k: nat)
      requires Valid() && k < |loops| && loops[k].running && loops[k].asked.None?
      modifies `loops
      ensures Valid() && Continues(old(loops), loops)
      ensures |loops| == |old(loops)| && forall i :: 0 <= i < |loops| && i != k ==> loops[i] == old(loops)[i]
      ensures !(active && connected) ==> loops[k] == old(loops)[k].(running := false)
      ensures active && connected && subscribers == map[] ==> loops[k] == old(loops)[k]
      ensures active && connected && subscribers != map[] ==>
                var was, loop := old(loops)[k], loops[k];
                && loop == was.(lastIds := loop.lastIds, first := loop.first, asked := loop.asked)
                && loop.lastIds.Keys == was.lastIds.Keys + subscribers.Keys
                && (forall t :: t in loop.lastIds ==>
                      loop.lastIds[t] == if t in was.lastIds then was.lastIds[t] else Latest)
                && (forall t :: loop.HasRead(t) <==> was.HasRead(t))
                && (forall t :: loop.First(t) ==
                      if t in subscribers && !was.HasRead(t) then |Stream(t)| else was.First(t))
                && loop.asked.Some? && loop.asked.value.Keys == subscribers.Keys
                && (forall t :: t in subscribers ==> loop.asked.value[t] == loop.Next(t))
    {
      hide LoopOk, RivalsOk, Asking, Later, Continues;
      var loop := loops[k];
      StandsStill(loop);
      if !(active && connected) {
        StoppedOk(loop, streams);
        loop := loop.(running := false);
      } else if subscribers != map[] {
        AskingFacts(loop, subscribers, streams);
        AskingOk(loop, subscribers, streams);
        loop := Asking(loop, subscribers, streams);
      }
      RivalsKept(loops, k, loop);
      ContinuesAt(loops, k, loop);
      loops := loops[k := loop];
    }

    /** The body of a loop, after the reply to its request: batches of at most ten consecutive
        entries from the requested positions on, at most one per topic. A failed or empty read has
        no batches. */
    method FinishPoll(k: nat, results: seq<Batch>)
      requires Valid() && k < |loops| && loops[k].running && loops[k].asked.Some?
      requires forall i, j :: 0 <= i < j < |results| ==> results[i].topic != results[j].topic
      requires forall i :: 0 <= i < |results| ==> var b := results[i];
                 && b.topic in loops[k].asked.value && b.start == loops[k].asked.value[b.topic]
                 && 0 < |b.entries| <= READ_COUNT
                 && b.start + |b.entries| <= |Stream(b.topic)|
                 && b.entries == Stream(b.topic)[b.start..b.start + |b.entries|]
      modifies `loops
      ensures Valid() && Continues(old(loops), loops)
      ensures loops == old(loops)[k := AfterReply(old(loops)[k].(asked := None), results, subscribers)]
    {
      hide LoopOk, RivalsOk, OnTopic, Due, Advance, Later;
      ghost var asking, waiting := loops[k], loops[k].(asked := None);
      StoppedOk(asking, streams);
      StandsStill(asking);
      RivalsKept(loops, k, waiting);
      ContinuesAt(loops, k, waiting);
      loops := loops[k := loops[k].(asked := None)];
      for i := 0 to |results|
        invariant Valid() && |loops| == |old(loops)| && Continues(old(loops), loops)
        invariant loops == old(loops)[k := AfterReply(waiting, results[..i], subscribers)]
      {
        assert results[..i + 1][..i] == results[..i];
        ReplyLeaves(waiting, results[..i], subscribers, results[i].topic);
        AskedFits(asking, results[i].topic, streams);
        ghost var before := loops;
        HandleBatch(k, results[i]);
        ContinuesTrans(old(loops), before, loops);
      }
      assert results[..|results|] == results;
    }

    method HandleBatch(k: nat, b: Batch)
      requires Valid() && k < |loops| && loops[k].running && loops[k].asked.None? && Fits(loops[k], b, Stream(b.topic))
      modifies `loops
      ensures Valid() && Continues(old(loops), loops)
      ensures loops == old(loops)[k := Advance(old(loops)[k], b, Listeners(b.topic))]
    {
      hide LoopOk, RivalsOk, OnTopic, Due, Advance, Continues;
      HandleEntry(k, b.topic, b.start);
      assert b.entries[..1] == [b.entries[0]];
      for i := 1 to |b.entries|
        invariant Valid() && Continues(old(loops), loops)
        invariant loops == old(loops)[k := Advance(old(loops)[k], b.(entries := b.entries[..i]), Listeners(b.topic))]
      {
        AdvanceByOne(old(loops)[k], b, i, Listeners(b.topic));
        AdvanceReads(old(loops)[k], b.(entries := b.entries[..i]), Listeners(b.topic));
        ghost var before := loops;
        HandleEntry(k, b.topic, b.start + i);
        ContinuesTrans(old(loops), before, loops);
      }
      assert b.entries[..|b.entries|] == b.entries && b.(entries := b.entries) == b;
    }

    /** One entry of a reply: the offset moves past it, and each listener of the moment gets it. */
    method HandleEntry(k: nat, t: Topic, position: nat)
      requires Valid() && k < |loops| && loops[k].running && loops[k].asked.None? && position < |Stream(t)|
      requires Fits(loops[k], Batch(t, position, [Stream(t)[position]]), Stream(t))
      modifies `loops
      ensures Valid() && Continues(old(loops), loops)
      ensures loops == old(loops)[k := Advance(old(loops)[k], Batch(t, position, [Stream(t)[position]]), Listeners(t))]
    {
      hide LoopOk, RivalsOk, OnTopic, Due, DispatchesOf, Later;
      ghost var b := Batch(t, position, [Stream(t)[position]]);
      AdvanceOk(loops[k], b, Listeners(t), streams);
      var tasks := CreateTasks(t, position, Stream(t)[position], Listeners(t));
      DueSingle(t, position, Stream(t)[position], Listeners(t));
      var loop := loops[k].(lastIds := loops[k].lastIds[t := After(position + 1)],
                            created := loops[k].created + tasks,
                            heard := loops[k].heard[t := loops[k].Heard(t) + [Listeners(t)]]);
      assert Repeat(Listeners(t), 1) == [Listeners(t)];
      assert loop == Advance(loops[k], b, Listeners(t));
      RivalsKept(loops, k, loop);
      ContinuesAt(loops, k, loop);
      loops := loops[k := loop];
    }

    /** No listen loop creates a task twice: in every reachable state the tasks of a topic are, in
        stream order and each once, those of the entries from the first one read up to the next one to
        read, for the listeners of the moment each entry was handled. */
    lemma ReadContiguously(k: nat, t: Topic)
      requires Valid() && k < |loops|
      ensures var loop := loops[k]; var first, next, tasks := loop.First(t), loop.Next(t), OnTopic(loop.created, t);
              && first <= next <= |Stream(t)| && |loop.Heard(t)| == next - first
              && Distinct(tasks) && InOrder(tasks) && InListenerOrder(tasks, first, loop.Heard(t))
              && (forall d: Dispatch :: d in tasks <==> d in loop.created && d.topic == t)
              && forall d: Dispatch :: d in tasks <==>
                   && d.topic == t && first <= d.position < next
                   && Stream(t)[d.position] == Parsable(d.msg) && d.listener in loop.Heard(t)[d.position - first]
    {
      hide OnTopic, Due;
      assert ReadOk(loops[k], t, Stream(t));
      TasksOf(loops[k], t, Stream(t));
    }

    /** A restart never repeats a task, as long as no earlier loop was still running at the start. */
    lemma RestartRepeatsNothing(i: nat, j: nat, d: Dispatch)
      requires Valid() && i < j < |loops| && loops[j].alone && d in loops[i].created
      ensures d !in loops[j].created
    {
      hide LoopOk;
      ReadContiguously(i, d.topic);
      ReadContiguously(j, d.topic);
      assert Before(loops[i], loops[j]);
    }
  }

  // ---- Starting beside a running loop

  /** A running loop reads what is left of a topic and asks for what follows it. */
  method CatchUp(bus: RedisEventBus, i: nat, t: Topic)
    requires bus.Valid() && bus.active && bus.connected && t in bus.subscribers
    requires i < |bus.loops| && bus.loops[i].running && bus.loops[i].asked.None?
    modifies bus`loops
    ensures bus.Valid() && |bus.loops| == |old(bus.loops)| && bus.loops[i].running
    ensures forall k :: 0 <= k < |bus.loops| && k != i ==> bus.loops[k] == old(bus.loops)[k]
    ensures bus.loops[i].asked.Some? && t in bus.loops[i].asked.value && bus.loops[i].asked.value[t] == |bus.Stream(t)|
  {
    hide RivalsOk, SubscribersOk, Later, ReadOk, Advance;
    bus.BeginPoll(i);
    AskedFits(bus.loops[i], t, bus.streams);
    while bus.loops[i].asked.value[t] < |bus.Stream(t)|
      invariant bus.Valid() && |bus.loops| == |old(bus.loops)| && bus.loops[i].running
      invariant forall k :: 0 <= k < |bus.loops| && k != i ==> bus.loops[k] == old(bus.loops)[k]
      invariant bus.loops[i].asked.Some? && t in bus.loops[i].asked.value
      invariant bus.loops[i].asked.value[t] == bus.loops[i].Next(t) <= |bus.Stream(t)|
      decreases |bus.Stream(t)| - bus.loops[i].asked.value[t]
    {
      ReadOne(bus, i, t, bus.loops[i].asked.value[t]);
      bus.BeginPoll(i);
      AskedFits(bus.loops[i], t, bus.streams);
    }
  }

  method ReadOne(bus: RedisEventBus, i: nat, t: Topic, p: nat)
    requires bus.Valid() && i < |bus.loops| && bus.loops[i].running && p < |bus.Stream(t)|
    requires bus.loops[i].asked.Some? && t in bus.loops[i].asked.value && bus.loops[i].asked.value[t] == p
    modifies bus`loops
    ensures bus.Valid() && |bus.loops| == |old(bus.loops)| && bus.loops[i].running && bus.loops[i].asked.None?
    ensures forall k :: 0 <= k < |bus.loops| && k != i ==> bus.loops[k] == old(bus.loops)[k]
    ensures bus.loops[i].HasRead(t) && bus.loops[i].Next(t) == p + 1
    ensures forall id, m :: bus.Stream(t)[p] == Parsable(m) && id in bus.Listeners(t) ==>
              Dispatch(t, p, id, m) in bus.loops[i].created
  {
    hide LoopOk, RivalsOk, SubscribersOk, Continues, AfterReply;
    OneReply(bus.loops[i].(asked := None), Batch(t, p, [bus.Stream(t)[p]]), bus.subscribers);
    bus.FinishPoll(i, [Batch(t, p, [bus.Stream(t)[p]])]);
  }

  lemma OneReply(loop: Loop, b: Batch, subscribers: map<Topic, seq<SubId>>)
    requires |b.entries| == 1
    ensures var after, listeners := AfterReply(loop, [b], subscribers), ListenersOf(subscribers, b.topic);
            && after.running == loop.running && after.asked == loop.asked && after.first == loop.first
            && after.HasRead(b.topic) && after.Next(b.topic) == b.start + 1
            && after.created == loop.created + DispatchesOf(b.topic, b.start, b.entries[0], listeners)
    ensures forall id, m :: b.entries[0] == Parsable(m) && id in ListenersOf(subscribers, b.topic) ==>
              Dispatch(b.topic, b.start, id, m) in AfterReply(loop, [b], subscribers).created
  {
    hide DispatchesOf;
    var listeners := ListenersOf(subscribers, b.topic);
    assert [b][..0] == [] && b.entries == [b.entries[0]];
    AdvanceReads(loop, b, listeners);
    DueSingle(b.topic, b.start, b.entries[0], listeners);
    forall id, m | b.entries[0] == Parsable(m) && id in listeners
      ensures Dispatch(b.topic, b.start, id, m) in AfterReply(loop, [b], subscribers).created {
      DispatchMembers(b.topic, b.start, b.entries[0], listeners, Dispatch(b.topic, b.start, id, m));
    }
  }

  /** The converse of `RestartRepeatsNothing`: from any state, a start beside a running loop can be
      continued, on any topic, so that both loops create the same task. */
  method StartRepeats(bus: RedisEventBus, i: nat, t: Topic, id: SubId, m: Message) returns (d: Dispatch)
    requires bus.Valid() && bus.connected && i < |bus.loops| && bus.loops[i].running && id !in bus.Listeners(t)
    modifies bus
    ensures bus.Valid() && |bus.loops| == |old(bus.loops)| + 1
    ensures d in bus.loops[i].created && d in bus.loops[|old(bus.loops)|].created
  {
    hide LoopOk, RivalsOk, SubscribersOk, Continues, AfterReply;
    var j := |bus.loops|;
    var _ := bus.Start();
    assert bus.loops[i] == bus.loops[..j][i];
    bus.Subscribe(t, id);
    assert t in bus.subscribers.Keys;
    if bus.loops[i].asked.Some? {
      NoReply(bus.loops[i].(asked := None), bus.subscribers);
      bus.FinishPoll(i, []);
    }
    CatchUp(bus, i, t);
    CatchUp(bus, j, t);
    var p := |bus.Stream(t)|;
    var _ := bus.Publish(t, Parsable(m), false);
    assert bus.Stream(t)[p] == Parsable(m) && id in bus.Listeners(t);
    ReadOne(bus, i, t, p);
    ReadOne(bus, j, t, p);
    d := Dispatch(t, p, id, m);
  }

  lemma NoReply(loop: Loop, subscribers: map<Topic, seq<SubId>>)
    ensures AfterReply(loop, [], subscribers) == loop
  {
  }

  method TwoStarts(t: Topic, id: SubId) returns (bus: RedisEventBus)
    ensures fresh(bus) && bus.Valid() && bus.active && bus.connected && bus.streams == map[]
    ensures bus.subscribers.Keys == {t} && bus.Listeners(t) == [id]
    ensures |bus.loops| == 2 && forall k :: 0 <= k < 2 ==>
              && bus.loops[k].running && bus.loops[k].asked.None? && bus.loops[k].created == []
              && bus.loops[k].lastIds == map[]
  {
    hide LoopOk, RivalsOk, SubscribersOk, Continues;
    bus := new RedisEventBus();
    var _ := bus.Initialize(false);
    var _ := bus.Start();
    var _ := bus.Start();
    bus.Subscribe(t, id);
  }

  /** Two loops of one bus wait for the first entry of a topic. */
  method TwoLoops(t: Topic, id: SubId) returns (bus: RedisEventBus)
    ensures fresh(bus) && bus.Valid() && bus.active && bus.connected && bus.streams == map[]
    ensures bus.subscribers.Keys == {t} && bus.Listeners(t) == [id]
    ensures |bus.loops| == 2 && forall k :: 0 <= k < 2 ==>
              && bus.loops[k].running && bus.loops[k].created == [] && !bus.loops[k].HasRead(t)
              && bus.loops[k].asked.Some? && t in bus.loops[k].asked.value && bus.loops[k].asked.value[t] == 0
  {
    hide LoopOk, RivalsOk, SubscribersOk, Continues;
    bus := TwoStarts(t, id);
    assert t in bus.subscribers.Keys;
    bus.BeginPoll(0);
    bus.BeginPoll(1);
  }

  /** Starting an active bus again does repeat tasks: both loops create the same one. */
  method StartedTwice(t: Topic, id: SubId, m: Message) returns (bus: RedisEventBus)
    ensures fresh(bus) && bus.Valid() && |bus.loops| == 2
    ensures bus.loops[0].created == bus.loops[1].created == [Dispatch(t, 0, id, m)]
  {
    hide LoopOk, RivalsOk, SubscribersOk, Continues, AfterReply;
    bus := TwoLoops(t, id);
    var _ := bus.Publish(t, Parsable(m), false);
    var reply := Batch(t, 0, [Parsable(m)]);
    OneReply(bus.loops[0].(asked := None), reply, bus.subscribers);
    OneReply(bus.loops[1].(asked := None), reply, bus.subscribers);
    bus.FinishPoll(0, [reply]);
    bus.FinishPoll(1, [reply]);
  }

  // ---- Entries lost before the first answer

  method AskedAgain(t: Topic, id: SubId, lost: Message) returns (bus: RedisEventBus)
    ensures fresh(bus) && bus.Valid() && bus.active && bus.connected
    ensures bus.Listeners(t) == [id] && bus.Stream(t) == [Parsable(lost)]
    ensures |bus.loops| == 2 && bus.loops[0].running && bus.loops[0].created == [] && !bus.loops[0].HasRead(t)
    ensures bus.loops[0].First(t) == 1 && bus.loops[0].asked.Some?
    ensures t in bus.loops[0].asked.value && bus.loops[0].asked.value[t] == 1
  {
    hide LoopOk, RivalsOk, SubscribersOk, Continues, AfterReply;
    bus := TwoLoops(t, id);
    NoReply(bus.loops[0].(asked := None), bus.subscribers);
    bus.FinishPoll(0, []);
    assert bus.Stream(t) == [];
    var _ := bus.Publish(t, Parsable(lost), false);
    assert bus.Stream(t) == [Parsable(lost)];
    assert t in bus.subscribers.Keys;
    bus.BeginPoll(0);
  }

  /** An entry published between two unanswered requests for a topic never read is lost to its
      listener: the second request asks for what follows it, so that what comes later is all the loop
      dispatches. */
  method LostBetweenRequests(t: Topic, id: SubId, lost: Message, later: Message) returns (bus: RedisEventBus)
    ensures fresh(bus) && bus.Valid() && bus.Listeners(t) == [id]
    ensures bus.Stream(t) == [Parsable(lost), Parsable(later)]
    ensures |bus.loops| == 2 && bus.loops[0].First(t) == 1 && bus.loops[0].Next(t) == 2
    ensures bus.loops[0].created == [Dispatch(t, 1, id, later)]
  {
    hide LoopOk, RivalsOk, SubscribersOk, Continues, AfterReply;
    bus := AskedAgain(t, id, lost);
    var _ := bus.Publish(t, Parsable(later), false);
    assert bus.Stream(t) == [Parsable(lost), Parsable(later)];
    var reply := Batch(t, 1, [Parsable(later)]);
    OneReply(bus.loops[0].(asked := None), reply, bus.subscribers);
    bus.FinishPoll(0, [reply]);
  }
}
