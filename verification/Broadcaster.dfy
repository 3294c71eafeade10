/** `TelemetryBroadcaster`: one bounded, lossy queue per client, filled by `broadcast` and emptied
    by the client's sender loop. Each stretch of code between two awaits is one event. */
module Broadcaster {

  /** What the sender loop of a client is doing. */
  datatype Sender<F> = Waiting | Sending(frame: F) | Stopped(lost: F)

  /** `queue`, `unfinished` and `sender` are the client's queue object and its task; `delivered` is
      what its socket accepted. The last three fields are for the proof: the frames broadcast since
      it connected, and the positions among them that were taken by the sender or dropped. */
  datatype Client<F> = Client(
    queue: seq<F>, unfinished: int, sender: Sender<F>, delivered: seq<F>,
    offered: seq<F>, takenAt: seq<nat>, droppedAt: seq<nat>)

  datatype Event<F> = Offered(frame: F) | Taken | SendOk | SendFailed

  function NewClient<F>(): Client<F> {
    Client([], 0, Waiting, [], [], [], [])
  }

  predicate Full<F>(c: Client<F>, maxsize: int) {
    0 < maxsize <= |c.queue|
  }

  /** The position of the head of the queue among the offered frames. */
  function Start<F>(c: Client<F>): int {
    |c.offered| - |c.queue|
  }

  /** Make room by discarding the oldest frame, then enqueue. */
  function Offer<F>(c: Client<F>, frame: F, maxsize: int): Client<F>
    requires |c.queue| <= |c.offered|
  {
    var c1 := if Full(c, maxsize)
              then c.(queue := c.queue[1..], unfinished := c.unfinished - 1, droppedAt := c.droppedAt + [Start(c)])
              else c;
    c1.(queue := c1.queue + [frame], unfinished := c1.unfinished + 1, offered := c1.offered + [frame])
  }

  function Take<F>(c: Client<F>): Client<F>
    requires |c.queue| <= |c.offered| && c.queue != []
  {
    c.(queue := c.queue[1..], sender := Sending(c.queue[0]), takenAt := c.takenAt + [Start(c)])
  }

  function FinishSend<F>(c: Client<F>, ok: bool): Client<F>
    requires c.sender.Sending?
  {
    if ok then c.(sender := Waiting, delivered := c.delivered + [c.sender.frame], unfinished := c.unfinished - 1)
    else c.(sender := Stopped(c.sender.frame), unfinished := c.unfinished - 1)
  }

  predicate Enabled<F>(c: Client<F>, e: Event<F>) {
    match e
    case Offered(_) => true
    case Taken => c.sender.Waiting? && c.queue != []
    case SendOk => c.sender.Sending?
    case SendFailed => c.sender.Sending?
  }

  function Step<F>(c: Client<F>, e: Event<F>, maxsize: int): Client<F>
    requires |c.queue| <= |c.offered| && Enabled(c, e)
  {
    match e
    case Offered(frame) => Offer(c, frame, maxsize)
    case Taken => Take(c)
    case SendOk => FinishSend(c, true)
    case SendFailed => FinishSend(c, false)
  }

  // ----- the invariant

  ghost predicate Increasing(ps: seq<nat>) {
    forall i, j :: 0 <= i < j < |ps| ==> ps[i] < ps[j]
  }

  /** How many of the frames taken by the sender were delivered: all but the one under way or lost. */
  ghost function DeliveredCount<F>(c: Client<F>): int {
    |c.takenAt| - if c.sender.Waiting? then 0 else 1
  }

  ghost predicate QueueOk<F>(c: Client<F>, maxsize: int) {
    && |c.queue| <= |c.offered|
    && c.queue == c.offered[Start(c)..]
    && (0 < maxsize ==> |c.queue| <= maxsize)
    && c.unfinished == |c.queue| + if c.sender.Sending? then 1 else 0
  }

  /** Every frame before the queue was taken or dropped, and not both. */
  ghost predicate FatesOk<F>(c: Client<F>, maxsize: int) {
    && Increasing(c.takenAt) && Increasing(c.droppedAt)
    && (forall p :: p in c.takenAt ==> p < Start(c))
    && (forall p :: p in c.droppedAt ==> p < Start(c) && p !in c.takenAt)
    && (forall p :: 0 <= p < Start(c) ==> p in c.takenAt || p in c.droppedAt)
    && |c.takenAt| + |c.droppedAt| == Start(c)
    && (forall p :: p in c.droppedAt ==> 0 < maxsize <= |c.offered| - 1 - p)
  }

  /** The sender's frames are the offered ones at the positions it took, in that order. */
  ghost predicate DeliveryOk<F>(c: Client<F>) {
    && (forall p :: p in c.takenAt ==> p < |c.offered|)
    && DeliveredCount(c) == |c.delivered|
    && (forall i :: 0 <= i < |c.delivered| ==> c.takenAt[i] < |c.offered| && c.delivered[i] == c.offered[c.takenAt[i]])
    && (!c.sender.Waiting? ==>
          && |c.takenAt| > 0 && c.takenAt[|c.takenAt| - 1] < |c.offered|
          && c.offered[c.takenAt[|c.takenAt| - 1]] == if c.sender.Sending? then c.sender.frame else c.sender.lost)
  }

  ghost predicate ClientOk<F>(c: Client<F>, maxsize: int) {
    QueueOk(c, maxsize) && FatesOk(c, maxsize) && DeliveryOk(c)
  }

  lemma IncreasingAppend(ps: seq<nat>, p: nat)
    requires Increasing(ps) && forall q :: q in ps ==> q < p
    ensures Increasing(ps + [p])
  {
    assert forall i :: 0 <= i < |ps| ==> ps[i] in ps;
  }

  lemma Bounded<F>(c: Client<F>, maxsize: int)
    requires ClientOk(c, maxsize)
    ensures |c.queue| <= |c.offered|
  {
  }

  lemma NewClientOk<F>(maxsize: int)
    ensures ClientOk(NewClient<F>(), maxsize)
  {
  }

  lemma OfferEffect<F>(c: Client<F>, frame: F, maxsize: int)
    requires |c.queue| <= |c.offered|
    ensures var c', full := Offer(c, frame, maxsize), 0 < maxsize <= |c.queue|;
            && c'.queue == (if full then c.queue[1..] else c.queue) + [frame]
            && c'.unfinished == c.unfinished + (if full then 0 else 1)
            && c'.sender == c.sender && c'.delivered == c.delivered && c'.offered == c.offered + [frame]
  {
  }

  lemma OfferFates<F>(c: Client<F>, frame: F, maxsize: int)
    requires QueueOk(c, maxsize) && FatesOk(c, maxsize)
    ensures FatesOk(Offer(c, frame, maxsize), maxsize)
  {
    var c' := Offer(c, frame, maxsize);
    if Full(c, maxsize) {
      IncreasingAppend(c.droppedAt, Start(c));
      assert forall p :: p in c'.droppedAt <==> p in c.droppedAt || p == Start(c);
    }
  }

  lemma OfferOk<F>(c: Client<F>, frame: F, maxsize: int)
    requires ClientOk(c, maxsize)
    ensures ClientOk(Offer(c, frame, maxsize), maxsize)
  {
    hide FatesOk;
    OfferFates(c, frame, maxsize);
    assert forall i :: 0 <= i < |c.offered| ==> Offer(c, frame, maxsize).offered[i] == c.offered[i];
  }

  lemma TakeOk<F>(c: Client<F>, maxsize: int)
    requires ClientOk(c, maxsize) && Enabled(c, Taken)
    ensures ClientOk(Take(c), maxsize)
  {
    var c' := Take(c);
    IncreasingAppend(c.takenAt, Start(c));
    assert forall p :: p in c'.takenAt <==> p in c.takenAt || p == Start(c);
  }

  lemma FinishOk<F>(c: Client<F>, ok: bool, maxsize: int)
    requires ClientOk(c, maxsize) && c.sender.Sending?
    ensures ClientOk(FinishSend(c, ok), maxsize)
  {
  }

  /** Every interleaving of broadcasts and sender steps keeps the invariant. */
  lemma StepOk<F>(c: Client<F>, e: Event<F>, maxsize: int)
    requires ClientOk(c, maxsize) && Enabled(c, e)
    ensures ClientOk(Step(c, e, maxsize), maxsize)
  {
    match e
    case Offered(frame) => OfferOk(c, frame, maxsize);
    case Taken => TakeOk(c, maxsize);
    case SendOk => FinishOk(c, true, maxsize);
    case SendFailed => FinishOk(c, false, maxsize);
  }

  /** `states` is a run of a client from the moment it connects. */
  ghost predicate IsRun<F>(states: seq<Client<F>>, events: seq<Event<F>>, maxsize: int) {
    && |states| == |events| + 1
    && states[0] == NewClient()
    && forall k :: 0 <= k < |events| ==>
         && |states[k].queue| <= |states[k].offered|
         && Enabled(states[k], events[k]) && states[k + 1] == Step(states[k], events[k], maxsize)
  }

  lemma {:induction false} RunOk<F>(states: seq<Client<F>>, events: seq<Event<F>>, maxsize: int, k: nat)
    requires IsRun(states, events, maxsize) && k < |states|
    ensures ClientOk(states[k], maxsize)
  {
    if k > 0 {
      RunOk(states, events, maxsize, k - 1);
      StepOk(states[k - 1], events[k - 1], maxsize);
    }
  }

  /** What a connected client can rely on, in every reachable state: the queue is a contiguous
      suffix of the broadcast frames; what was delivered, what is under way and what is queued are
      broadcast frames in broadcast order; no frame is unaccounted for; and a frame is dropped
      only once `maxsize` newer ones exist. */
  lemma ClientGuarantees<F>(states: seq<Client<F>>, events: seq<Event<F>>, maxsize: int, k: nat)
    returns (at: seq<nat>)
    requires IsRun(states, events, maxsize) && k < |states|
    ensures var c := states[k];
            && |c.queue| <= |c.offered| && c.queue == c.offered[|c.offered| - |c.queue|..]
            && (0 < maxsize ==> |c.queue| <= maxsize)
            && c.unfinished == |c.queue| + (if c.sender.Sending? then 1 else 0)
    ensures var c := states[k];
            var inOrder := c.delivered + (if c.sender.Sending? then [c.sender.frame] else []) + c.queue;
            && Increasing(at) && |at| == |inOrder|
            && forall i :: 0 <= i < |at| ==> at[i] < |c.offered| && inOrder[i] == c.offered[at[i]]
    ensures var c := states[k];
            |c.offered| == |c.delivered| + (if c.sender.Waiting? then 0 else 1) + |c.droppedAt| + |c.queue|
    ensures forall p :: p in states[k].droppedAt ==> 0 < maxsize <= |states[k].offered| - 1 - p
  {
    hide IsRun;
    RunOk(states, events, maxsize, k);
    var c := states[k];
    var sent := c.takenAt[..if c.sender.Sending? then |c.takenAt| else |c.delivered|];
    at := sent + seq(|c.queue|, i requires 0 <= i < |c.queue| => (Start(c) + i) as nat);
    assert forall i :: 0 <= i < |c.takenAt| ==> c.takenAt[i] in c.takenAt;
    assert forall i :: 0 <= i < |c.queue| ==> c.queue[i] == c.offered[Start(c) + i];
  }

  // ----- a run told by its events

  /** The frames broadcast in a run. */
  ghost function Frames<F>(events: seq<Event<F>>): seq<F> {
    if events == [] then []
    else Frames(events[..|events| - 1]) + match events[|events| - 1] case Offered(frame) => [frame] case _ => []
  }

  ghost function Count<F>(events: seq<Event<F>>, e: Event<F>): nat {
    if events == [] then 0
    else Count(events[..|events| - 1], e) + if events[|events| - 1] == e then 1 else 0
  }

  /** What happened to a client is what its events say: every broadcast was offered, a frame was taken
      for each resumption and delivered for each send that succeeded, and the loop has stopped iff a
      send failed, which happens at most once. */
  ghost predicate Tells<F>(past: seq<Event<F>>, c: Client<F>) {
    && c.offered == Frames(past) && |c.takenAt| == Count(past, Taken) && |c.delivered| == Count(past, SendOk)
    && (c.sender.Stopped? <==> SendFailed in past) && Count(past, SendFailed) <= 1
    && (c.sender.Sending? <==> Count(past, Taken) == Count(past, SendOk) + Count(past, SendFailed) + 1)
  }

  lemma {:induction false} HistoryOf<F>(states: seq<Client<F>>, events: seq<Event<F>>, maxsize: int, k: nat)
    requires IsRun(states, events, maxsize) && k <= |events|
    ensures Tells(events[..k], states[k])
  {
    hide ClientOk;
    if k == 0 {
    } else {
      HistoryOf(states, events, maxsize, k - 1);
      RunOk(states, events, maxsize, k - 1);
      assert events[..k] == events[..k - 1] + [events[k - 1]];
      TellsStep(events[..k - 1], states[k - 1], events[k - 1], maxsize);
    }
  }

  lemma TellsStep<F>(past: seq<Event<F>>, c: Client<F>, e: Event<F>, maxsize: int)
    requires Tells(past, c) && ClientOk(c, maxsize) && |c.queue| <= |c.offered| && Enabled(c, e)
    ensures Tells(past + [e], Step(c, e, maxsize))
  {
    hide QueueOk, FatesOk;
    assert (past + [e])[..|past|] == past;
    assert SendFailed in past + [e] <==> SendFailed in past || e == SendFailed;
    NoneCounted(past, SendFailed);
    assert DeliveredCount(c) == |c.delivered|;
    match e
    case Offered(frame) => OfferEffect(c, frame, maxsize);
    case Taken =>
    case SendOk =>
    case SendFailed =>
  }

  lemma {:induction false} NoneCounted<F>(events: seq<Event<F>>, e: Event<F>)
    ensures Count(events, e) == 0 <==> e !in events
  {
    if events == [] {
    } else {
      assert events == events[..|events| - 1] + [events[|events| - 1]];
      NoneCounted(events[..|events| - 1], e);
    }
  }

  /** After a failed send the loop does nothing more, and the frame that was lost is not among the
      delivered ones: it was broadcast after each of them. */
  lemma NothingAfterFailure<F>(states: seq<Client<F>>, events: seq<Event<F>>, maxsize: int, i: nat, j: nat)
    requires IsRun(states, events, maxsize) && i < j < |states| && events[i] == SendFailed
    ensures j < |events| ==> events[j].Offered?
    ensures var c, was := states[j], states[i];
            && was.sender.Sending? && c.sender == Stopped(was.sender.frame) && c.delivered == was.delivered
            && |c.takenAt| == |c.delivered| + 1 && Increasing(c.takenAt)
            && (forall m :: 0 <= m < |c.takenAt| ==> c.takenAt[m] < |c.offered|)
            && (forall m :: 0 <= m < |c.delivered| ==> c.delivered[m] == c.offered[c.takenAt[m]])
            && was.sender.frame == c.offered[c.takenAt[|c.delivered|]]
  {
    hide QueueOk, FatesOk;
    RunOk(states, events, maxsize, j);
    StoppedStays(states, events, maxsize, i, j);
    assert FatesOk(states[j], maxsize);
    IncreasingFates(states[j], maxsize);
  }

  lemma IncreasingFates<F>(c: Client<F>, maxsize: int)
    requires FatesOk(c, maxsize)
    ensures Increasing(c.takenAt)
  {
  }

  lemma {:induction false} StoppedStays<F>(states: seq<Client<F>>, events: seq<Event<F>>, maxsize: int, i: nat, j: nat)
    requires IsRun(states, events, maxsize) && i < j < |states| && events[i] == SendFailed
    ensures states[i].sender.Sending? && states[j].sender == Stopped(states[i].sender.frame)
    ensures states[j].delivered == states[i].delivered
    decreases j
  {
    assert Enabled(states[i], events[i]) && Enabled(states[j - 1], events[j - 1]);
    if j > i + 1 {
      StoppedStays(states, events, maxsize, i, j - 1);
    }
  }

  class TelemetryBroadcaster<W(==, !new), F> {
    const maxsize: int
    var clients: map<W, Client<F>>

    ghost predicate Valid()
      reads this
    {
      forall w :: w in clients ==> ClientOk(clients[w], maxsize)
    }

    constructor (maxsize: int)
      ensures Valid() && this.maxsize == maxsize && clients == map[]
    {
      this.maxsize := maxsize;
      clients := map[];
    }

    method Connect(w: W)
      requires Valid()
      modifies this
      ensures Valid() && clients == old(clients)[w := NewClient()]
    {
      hide ClientOk;
      NewClientOk<F>(maxsize);
      clients := clients[w := NewClient()];
    }

    method Disconnect(w: W)
      requires Valid()
      modifies this
      ensures Valid() && clients == old(clients) - {w}
    {
      if w in clients {
        clients := clients - {w};
      }
      assert w !in old(clients) ==> old(clients) - {w} == old(clients);
    }

    /** The body of the broadcast loop for one client. */
    method Enqueue(c0: Client<F>, frame: F) returns (c: Client<F>)
      requires |c0.queue| <= |c0.offered|
      ensures c == Offer(c0, frame, maxsize)
    {
      c := c0;
      if 0 < maxsize <= |c.queue| {
        c := c.(queue := c.queue[1..], unfinished := c.unfinished - 1, droppedAt := c.droppedAt + [Start(c)]);
      }
      c := c.(queue := c.queue + [frame], unfinished := c.unfinished + 1, offered := c.offered + [frame]);
    }

    /** Every connected client is offered the frame. */
    method Broadcast(frame: F)
      requires Valid()
      modifies this
      ensures Valid() && clients.Keys == old(clients.Keys)
      ensures forall w :: w in clients ==>
                |old(clients)[w].queue| <= |old(clients)[w].offered|
                && clients[w] == Offer(old(clients)[w], frame, maxsize)
      ensures forall w :: w in clients ==>
                var was, c := old(clients)[w], clients[w];
                && c.queue == (if 0 < maxsize <= |was.queue| then was.queue[1..] else was.queue) + [frame]
                && c.unfinished == was.unfinished + (if 0 < maxsize <= |was.queue| then 0 else 1)
                && c.sender == was.sender && c.delivered == was.delivered && c.offered == was.offered + [frame]
    {
      hide ClientOk, Offer;
      forall w | w in clients ensures |clients[w].queue| <= |clients[w].offered| {
        Bounded(clients[w], maxsize);
      }
      var todo := clients.Keys;
      while todo != {}
        invariant clients.Keys == old(clients.Keys) && todo <= clients.Keys && Valid()
        invariant forall w :: w in todo ==> clients[w] == old(clients)[w]
        invariant forall w :: w in clients.Keys - todo ==> clients[w] == Offer(old(clients)[w], frame, maxsize)
        decreases todo
      {
        var w :| w in todo;
        OfferOk(clients[w], frame, maxsize);
        var c := Enqueue(clients[w], frame);
        clients := clients[w := c];
        todo := todo - {w};
      }
      forall w | w in clients
        ensures var was, c := old(clients)[w], clients[w];
                && c.queue == (if 0 < maxsize <= |was.queue| then was.queue[1..] else was.queue) + [frame]
                && c.unfinished == was.unfinished + (if 0 < maxsize <= |was.queue| then 0 else 1)
                && c.sender == was.sender && c.delivered == was.delivered && c.offered == was.offered + [frame] {
        OfferEffect(old(clients)[w], frame, maxsize);
      }
    }

    /** The sender loop of a client resumes with the head of its queue. */
    method SenderTake(w: W)
      requires Valid() && w in clients && Enabled(clients[w], Taken)
      modifies this
      ensures Valid() && |old(clients)[w].queue| <= |old(clients)[w].offered|
      ensures clients == old(clients)[w := Take(old(clients)[w])]
      ensures var was, c := old(clients)[w], clients[w];
              && c.sender == Sending(was.queue[0]) && c.queue == was.queue[1..] && c.delivered == was.delivered
              && c.unfinished == was.unfinished && c.offered == was.offered
    {
      TakeOk(clients[w], maxsize);
      clients := clients[w := Take(clients[w])];
    }

    /** The socket write ends; a failed one stops the loop. */
    method SenderFinish(w: W, ok: bool)
      requires Valid() && w in clients && clients[w].sender.Sending?
      modifies this
      ensures Valid() && clients == old(clients)[w := FinishSend(old(clients)[w], ok)]
      ensures var was, c := old(clients)[w], clients[w];
              && c.queue == was.queue && c.offered == was.offered && c.unfinished == was.unfinished - 1
              && (ok ==> c.sender == Waiting && c.delivered == was.delivered + [was.sender.frame])
              && (!ok ==> c.sender == Stopped(was.sender.frame) && c.delivered == was.delivered)
    {
      FinishOk(clients[w], ok, maxsize);
      clients := clients[w := FinishSend(clients[w], ok)];
    }
  }
}
