/** Runs of the player's threads: bounded packet queues and the stop handshake. */
module PlayerRuns {
  import opened PlayerState

  /** The player's flags and its two packet queues. */
  datatype System = System(on: Flags, audio: seq<nat>, video: seq<nat>) {
    function Packets(s: Stream): seq<nat> {
      if s.Audio? then audio else video
    }

    function WithPackets(s: Stream, q: seq<nat>, on': Flags): System {
      if s.Audio? then System(on', q, video) else System(on', audio, q)
    }
  }

  /** The atomic steps of the threads and of the player's clients. */
  datatype Event =
    | Ack(c: Component)               // a component's stop action
    | Resume(c: Component)            // a component leaves its wait
    | Add(stream: Stream, packet: nat)
    | Remove(stream: Stream)
    | ClearQueues
    | Request(s: State)               // set_state
    | Withdraw(s: State)              // clear_state

  /** The stop action: mark the component, and complete the stop when it was the last one. */
  function AfterAck(on: Flags, c: Component): Flags {
    var on' := on + {ComponentStopped(c)};
    if Stopping in on' && ALL_STOPPED <= on' then AfterSet(on', Stopped) else on'
  }

  function AfterAdd(max: nat, on: Flags, s: Stream, size: nat): Flags {
    (if size == max then AfterSet(on, Full(Queue.Packets(s))) else on) - {Empty(Queue.Packets(s))}
  }

  function AfterRemove(max: nat, on: Flags, s: Stream, size: nat): Flags {
    if size == 0 then AfterSet(on, Empty(Queue.Packets(s)))
    else if size <= max * 2 / 3 then on - {Full(Queue.Packets(s))}
    else on
  }

  function Step(max: nat, sys: System, e: Event): System {
    match e
    case Ack(c) => sys.(on := AfterAck(sys.on, c))
    case Resume(c) => sys.(on := sys.on - {ComponentStopped(c)})
    case Add(s, p) =>
      var q := sys.Packets(s) + [p];
      sys.WithPackets(s, q, AfterAdd(max, sys.on, s, |q|))
    case Remove(s) =>
      var q := if sys.Packets(s) == [] then [] else sys.Packets(s)[1..];
      sys.WithPackets(s, q, AfterRemove(max, sys.on, s, |q|))
    case ClearQueues => System(sys.on - {Full(Queue.Packets(Video)), Full(Queue.Packets(Audio))}, [], [])
    case Request(s) => sys.(on := AfterSet(sys.on, s))
    case Withdraw(s) => sys.(on := AfterClear(sys.on, s))
  }

  /** Neither packet queue is flagged full. */
  predicate Room(on: Flags) {
    Full(Queue.Packets(Audio)) !in on && Full(Queue.Packets(Video)) !in on
  }

  /** wait_if_true keeps the extractor waiting: some condition holds, and the exception does not. */
  predicate ExtractorWaits(on: Flags) {
    on * {Full(Queue.Packets(Audio)), Full(Queue.Packets(Video)), Stopping, Stopped} != {} && Exit !in on
  }

  /** The flags that only the queues and the stop actions touch. */
  predicate Reserved(s: State) {
    s.ComponentStopped? || ((s.Empty? || s.Full?) && s.q.Packets?)
  }

  /**
   What the code does: the extractor adds a packet only while neither queue is flagged full
   (`RoomLasts` says why), whatever was requested meanwhile; nothing but the queues and the stop
   actions sets their flags or STOPPED; and an exit is never withdrawn.
   */
  predicate Enabled(sys: System, e: Event) {
    match e
    case Add(_, _) => Room(sys.on)
    case Request(s) => !Reserved(s) && s != Stopped
    case Withdraw(s) => !Reserved(s) && s != Exit
    case _ => true
  }

  const START := System({}, [], [])

  ghost function RunFrom(max: nat, sys: System, es: seq<Event>): System {
    if es == [] then sys else Step(max, RunFrom(max, sys, es[..|es| - 1]), es[|es| - 1])
  }

  /** Every step of the run was enabled when it was taken. */
  ghost predicate IsRun(max: nat, es: seq<Event>) {
    es != [] ==> IsRun(max, es[..|es| - 1]) && Enabled(RunFrom(max, START, es[..|es| - 1]), es[|es| - 1])
  }

  // --------------------------------------------------------------- bounded queues

  /** The queue's flags tell the truth about its size, with hysteresis between full and two thirds. */
  ghost predicate QueueOk(max: nat, on: Flags, s: Stream, size: nat) {
    var full, empty := Full(Queue.Packets(s)) in on, Empty(Queue.Packets(s)) in on;
    && size <= max
    && (size == max ==> full)
    && (full ==> size > max * 2 / 3)
    && (empty ==> size == 0)
    && !(full && empty)
  }

  ghost predicate QueuesOk(max: nat, sys: System) {
    QueueOk(max, sys.on, Audio, |sys.audio|) && QueueOk(max, sys.on, Video, |sys.video|)
  }

  /** Requests and withdrawals that are not reserved leave the packet-queue flags alone. */
  lemma OthersKeepQueue(max: nat, on: Flags, s: State, t: Stream, size: nat)
    requires !Reserved(s) && QueueOk(max, on, t, size)
    ensures QueueOk(max, AfterSet(on, s), t, size) && QueueOk(max, AfterClear(on, s), t, size)
  {
  }

  lemma AddKeepsQueue(max: nat, on: Flags, s: Stream, size: nat)
    requires max > 0 && QueueOk(max, on, s, size) && Full(Queue.Packets(s)) !in on
    ensures QueueOk(max, AfterAdd(max, on, s, size + 1), s, size + 1)
  {
  }

  lemma RemoveKeepsQueue(max: nat, on: Flags, s: Stream, size: nat)
    requires max > 0 && QueueOk(max, on, s, size)
    ensures var size' := if size == 0 then 0 else size - 1;
            QueueOk(max, AfterRemove(max, on, s, size'), s, size')
  {
  }

  lemma OtherQueueUntouched(max: nat, on: Flags, s: Stream, t: Stream, size: nat, sizeT: nat)
    requires s != t && QueueOk(max, on, t, sizeT)
    ensures QueueOk(max, AfterAdd(max, on, s, size), t, sizeT)
    ensures QueueOk(max, AfterRemove(max, on, s, size), t, sizeT)
  {
  }

  lemma AddStepKeepsQueue(max: nat, sys: System, s: Stream, p: nat, t: Stream)
    requires max > 0 && QueueOk(max, sys.on, t, |sys.Packets(t)|) && Enabled(sys, Add(s, p))
    ensures var sys' := Step(max, sys, Add(s, p)); QueueOk(max, sys'.on, t, |sys'.Packets(t)|)
  {
    if s == t {
      AddKeepsQueue(max, sys.on, s, |sys.Packets(s)|);
    } else {
      OtherQueueUntouched(max, sys.on, s, t, |sys.Packets(s)| + 1, |sys.Packets(t)|);
    }
  }

  lemma RemoveStepKeepsQueue(max: nat, sys: System, s: Stream, t: Stream)
    requires max > 0 && QueueOk(max, sys.on, t, |sys.Packets(t)|)
    ensures var sys' := Step(max, sys, Remove(s)); QueueOk(max, sys'.on, t, |sys'.Packets(t)|)
  {
    var size := if sys.Packets(s) == [] then 0 else |sys.Packets(s)| - 1;
    if s == t {
      RemoveKeepsQueue(max, sys.on, s, |sys.Packets(s)|);
    } else {
      OtherQueueUntouched(max, sys.on, s, t, size, |sys.Packets(t)|);
    }
  }

  /** Every enabled step keeps the size and the flags of both packet queues in order. */
  lemma StepKeepsQueue(max: nat, sys: System, e: Event, t: Stream)
    requires max > 0 && QueueOk(max, sys.on, t, |sys.Packets(t)|) && Enabled(sys, e)
    ensures QueueOk(max, Step(max, sys, e).on, t, |Step(max, sys, e).Packets(t)|)
  {
    match e {
      case Add(s, p) => AddStepKeepsQueue(max, sys, s, p, t);
      case Remove(s) => RemoveStepKeepsQueue(max, sys, s, t);
      case Request(s) => OthersKeepQueue(max, sys.on, s, t, |sys.Packets(t)|);
      case Withdraw(s) => OthersKeepQueue(max, sys.on, s, t, |sys.Packets(t)|);
      case _ =>
    }
  }

  /** In every run both packet queues stay bounded and their flags stay truthful. */
  lemma {:induction false} QueuesStayBounded(max: nat, es: seq<Event>)
    requires max > 0 && IsRun(max, es)
    ensures QueuesOk(max, RunFrom(max, START, es))
  {
    if es != [] {
      var n := |es| - 1;
      QueuesStayBounded(max, es[..n]);
      StepKeepsQueue(max, RunFrom(max, START, es[..n]), es[n], Audio);
      StepKeepsQueue(max, RunFrom(max, START, es[..n]), es[n], Video);
    }
  }

  /** An add appends, a remove takes the oldest packet, a clear takes all; the other queue stays. */
  lemma QueueIsFifo(max: nat, sys: System, s: Stream, t: Stream, p: nat, q: seq<nat>)
    ensures Step(max, sys, Add(s, p)).Packets(s) == sys.Packets(s) + [p]
    ensures sys.Packets(s) == [p] + q ==> Step(max, sys, Remove(s)).Packets(s) == q
    ensures sys.Packets(s) == [] ==> Step(max, sys, Remove(s)).Packets(s) == []
    ensures Step(max, sys, ClearQueues).Packets(s) == []
    ensures t != s ==> Step(max, sys, Add(s, p)).Packets(t) == Step(max, sys, Remove(s)).Packets(t) == sys.Packets(t)
  {
  }

  /** The packets added to a queue during a run, oldest first. */
  ghost function Added(es: seq<Event>, s: Stream): seq<nat> {
    if es == [] then []
    else
      var last := es[|es| - 1];
      Added(es[..|es| - 1], s) + if last.Add? && last.stream == s then [last.packet] else []
  }

  /** Over every run a queue holds the youngest packets added, in the order in which they came. */
  lemma {:induction false} QueueIsSuffix(max: nat, es: seq<Event>, s: Stream) returns (k: nat)
    ensures k <= |Added(es, s)| && RunFrom(max, START, es).Packets(s) == Added(es, s)[k..]
  {
    if es == [] {
      return 0;
    }
    var n := |es| - 1;
    k := QueueIsSuffix(max, es[..n], s);
    k := SuffixStep(max, RunFrom(max, START, es[..n]), es[n], s, Added(es[..n], s), k);
  }

  lemma SuffixStep(max: nat, sys: System, e: Event, s: Stream, all: seq<nat>, k: nat) returns (k': nat)
    requires k <= |all| && sys.Packets(s) == all[k..]
    ensures var all' := all + if e.Add? && e.stream == s then [e.packet] else [];
            k' <= |all'| && Step(max, sys, e).Packets(s) == all'[k'..]
  {
    k' := k;
    match e {
      case Add(t, p) =>
        if t == s {
          assert (all + [p])[k..] == all[k..] + [p];
        }
      case Remove(t) =>
        if t == s && k < |all| {
          assert all[k..][1..] == all[k + 1..];
          k' := k + 1;
        }
      case ClearQueues =>
        k' := |all|;
      case _ =>
    }
  }

  /** The hysteresis: FULL comes on at the maximum, and stays on while more than two thirds are left. */
  lemma FullStep(max: nat, sys: System, e: Event, s: Stream)
    requires max > 0 && QueueOk(max, sys.on, s, |sys.Packets(s)|) && Enabled(sys, e)
    ensures var sys' := Step(max, sys, e);
            var full, size' := Full(Queue.Packets(s)), |sys'.Packets(s)|;
            full in sys'.on <==> size' == max || (full in sys.on && size' > max * 2 / 3)
  {
  }

  /** What the history of sizes alone says about FULL. */
  ghost predicate FullBySizes(max: nat, es: seq<Event>, s: Stream) {
    var size := |RunFrom(max, START, es).Packets(s)|;
    size == max || (size > max * 2 / 3 && es != [] && FullBySizes(max, es[..|es| - 1], s))
  }

  /** Over every run FULL follows the sizes: on since the maximum was last reached, off once two thirds were. */
  lemma {:induction false} FullFollowsSizes(max: nat, es: seq<Event>, s: Stream)
    requires max > 0 && IsRun(max, es)
    ensures Full(Queue.Packets(s)) in RunFrom(max, START, es).on <==> FullBySizes(max, es, s)
  {
    if es != [] {
      var n := |es| - 1;
      FullFollowsSizes(max, es[..n], s);
      QueuesStayBounded(max, es[..n]);
      FullStep(max, RunFrom(max, START, es[..n]), es[n], s);
    }
  }

  /** EMPTY comes on when a remove leaves or finds nothing, and stays until a packet is added. */
  lemma EmptyStep(max: nat, sys: System, e: Event, s: Stream)
    requires max > 0 && QueueOk(max, sys.on, s, |sys.Packets(s)|) && Enabled(sys, e)
    ensures var sys' := Step(max, sys, e);
            var empty := Empty(Queue.Packets(s));
            empty in sys'.on <==> sys'.Packets(s) == [] && (empty in sys.on || e == Remove(s))
  {
  }

  /** Only the extractor's own add flags a queue full. */
  lemma StepKeepsRoom(max: nat, sys: System, e: Event)
    requires Enabled(sys, e) && !e.Add? && Room(sys.on)
    ensures Room(Step(max, sys, e).on)
  {
  }

  /** Without an add in between, room lasts, and an exit once requested stays requested. */
  lemma {:induction false} QuietRun(max: nat, es: seq<Event>, since: seq<Event>)
    requires IsRun(max, es + since) && (forall e :: e in since ==> !e.Add?)
    ensures IsRun(max, es)
    ensures Room(RunFrom(max, START, es).on) ==> Room(RunFrom(max, START, es + since).on)
    ensures Exit in RunFrom(max, START, es).on ==> Exit in RunFrom(max, START, es + since).on
    decreases |since|
  {
    if since == [] {
      assert es + since == es;
    } else {
      var n := |since| - 1;
      var all := es + since;
      assert all[..|all| - 1] == es + since[..n] && all[|all| - 1] == since[n];
      QuietRun(max, es, since[..n]);
      var sys := RunFrom(max, START, es + since[..n]);
      StepKeepsExit(max, sys, since[n]);
      if Room(sys.on) {
        StepKeepsRoom(max, sys, since[n]);
      }
    }
  }

  /** No code withdraws an exit. */
  lemma StepKeepsExit(max: nat, sys: System, e: Event)
    requires Enabled(sys, e)
    ensures Exit in sys.on ==> Exit in Step(max, sys, e).on
  {
  }

  lemma PassedWait(on: Flags)
    requires !ExtractorWaits(on) && Exit !in on
    ensures Room(on)
  {
    var waits := {Full(Queue.Packets(Audio)), Full(Queue.Packets(Video)), Stopping, Stopped};
    forall f | f in waits ensures f !in on {
      assert f !in on * waits;
    }
  }

  /**
   The extractor leaves its wait after `es`, finds no exit requested after `mid`, and adds its
   packet after `since`, without a further test. Whatever the other threads and the clients do
   in between, a stop or an exit included, there is still room when it adds.
   */
  lemma RoomLasts(max: nat, es: seq<Event>, mid: seq<Event>, since: seq<Event>)
    requires IsRun(max, es + mid + since) && (forall e :: e in mid + since ==> !e.Add?)
    requires !ExtractorWaits(RunFrom(max, START, es).on) && Exit !in RunFrom(max, START, es + mid).on
    ensures Room(RunFrom(max, START, es + mid + since).on)
  {
    QuietRun(max, es + mid, since);
    QuietRun(max, es, mid);
    PassedWait(RunFrom(max, START, es).on);
  }

  // --------------------------------------------------------------- stop handshake

  /** The component has run its stop action, and neither it has resumed nor play has begun since. */
  ghost predicate AckedSince(es: seq<Event>, c: Component) {
    if es == [] then false
    else
      var last := es[|es| - 1];
      if last == Ack(c) then true
      else if last == Resume(c) || last == Request(Playing) then false
      else AckedSince(es[..|es| - 1], c)
  }

  lemma StepComponentFlag(max: nat, sys: System, e: Event, c: Component)
    requires Enabled(sys, e)
    ensures ComponentStopped(c) in Step(max, sys, e).on <==>
            e == Ack(c) || (e != Resume(c) && e != Request(Playing) && ComponentStopped(c) in sys.on)
  {
  }

  /** The flag of a component says exactly whether it has acknowledged. */
  lemma {:induction false} FlagMeansAcked(max: nat, es: seq<Event>, c: Component)
    requires IsRun(max, es)
    ensures ComponentStopped(c) in RunFrom(max, START, es).on <==> AckedSince(es, c)
  {
    if es != [] {
      var n := |es| - 1;
      FlagMeansAcked(max, es[..n], c);
      StepComponentFlag(max, RunFrom(max, START, es[..n]), es[n], c);
    }
  }

  lemma StepEntersStopped(max: nat, sys: System, e: Event)
    requires Enabled(sys, e) && Stopped !in sys.on && Stopped in Step(max, sys, e).on
    ensures e.Ack? && Stopping in sys.on && ALL_STOPPED <= sys.on + {ComponentStopped(e.c)}
  {
  }

  /**
   STOPPED is entered only by a stop action, while a stop is requested, and when all three
   components have run their stop action since play last began.
   */
  lemma StoppedNeedsEveryAck(max: nat, es: seq<Event>, e: Event, c: Component)
    requires IsRun(max, es + [e])
    requires Stopped !in RunFrom(max, START, es).on && Stopped in RunFrom(max, START, es + [e]).on
    ensures e.Ack? && Stopping in RunFrom(max, START, es).on && AckedSince(es + [e], c)
  {
    assert (es + [e])[..|es|] == es;
    var sys := RunFrom(max, START, es);
    StepEntersStopped(max, sys, e);
    FlagMeansAcked(max, es, c);
    assert ComponentStopped(c) in ALL_STOPPED by {
      match c { case Extractor => case VideoCodec => case AudioCodec => }
    }
  }

  /** A step that neither resumes a component nor takes the stop or its request back. */
  predicate Patient(e: Event) {
    && !e.Resume?
    && (e.Request? ==> e.s !in {Playing, Seeked})
    && (e.Withdraw? ==> e.s !in {Stopping, Stopped} && !e.s.ComponentStopped?)
  }

  /** A patient step keeps the stop requested or complete, and every acknowledgement. */
  lemma PatientStep(max: nat, sys: System, e: Event)
    requires Patient(e) && (Stopping in sys.on || Stopped in sys.on)
    ensures var sys' := Step(max, sys, e);
            && (Stopping in sys'.on || Stopped in sys'.on)
            && forall c: Component :: ComponentStopped(c) in sys.on || e == Ack(c) ==> ComponentStopped(c) in sys'.on
  {
  }

  lemma {:induction false} PatientRun(max: nat, sys: System, es: seq<Event>)
    requires Stopping in sys.on && (forall e :: e in es ==> Patient(e))
    ensures Stopping in RunFrom(max, sys, es).on || Stopped in RunFrom(max, sys, es).on
    ensures forall c: Component :: Ack(c) in es ==> ComponentStopped(c) in RunFrom(max, sys, es).on
  {
    if es != [] {
      var n := |es| - 1;
      PatientRun(max, sys, es[..n]);
      PatientStep(max, RunFrom(max, sys, es[..n]), es[n]);
      forall c: Component | Ack(c) in es ensures Ack(c) in es[..n] || es[n] == Ack(c) {
      }
    }
  }

  /** The last missing acknowledgement of a requested stop enters STOPPED. */
  lemma LastAckStops(on: Flags, c: Component)
    requires Stopping in on && (forall d: Component :: d != c ==> ComponentStopped(d) in on)
    ensures Stopped in AfterAck(on, c) && Stopping !in AfterAck(on, c) && Playing !in AfterAck(on, c)
  {
    assert ALL_STOPPED <= on + {ComponentStopped(c)};
  }

  /**
   Once a stop is requested and all three components acknowledge, with no resumption and no new
   play in between, the last acknowledgement leaves the player stopped, with no request open.
   */
  lemma HandshakeCompletes(max: nat, sys: System, es: seq<Event>, c: Component)
    requires Stopping in sys.on && (forall e :: e in es ==> Patient(e))
    requires forall d: Component :: d != c ==> Ack(d) in es
    ensures var on := RunFrom(max, sys, es + [Ack(c)]).on;
            Stopped in on && Stopping !in on && ALL_STOPPED <= on
  {
    PatientRun(max, sys, es);
    var before := RunFrom(max, sys, es).on;
    assert (es + [Ack(c)])[..|es|] == es;
    if Stopping in before {
      LastAckStops(before, c);
    }
  }

  // ----------------------------------------------------------- the code of the steps

  class Media {
    const max: nat
    const player: Player
    var audio: seq<nat>
    var video: seq<nat>

    constructor (max: nat)
      ensures this.max == max && fresh(player) && Now() == START
    {
      this.max := max;
      player := new Player();
      audio := [];
      video := [];
    }

    ghost function Now(): System
      reads this, player
    {
      System(player.on, audio, video)
    }

    /** PacketStream's __add_packet */
    method AddPacket(s: Stream, packet: nat)
      modifies this, player
      ensures Now() == Step(max, old(Now()), Add(s, packet))
    {
      var size;
      if s.Audio? {
        audio := audio + [packet];
        size := |audio|;
      } else {
        video := video + [packet];
        size := |video|;
      }
      if size == max {
        player.SetState(Full(Queue.Packets(s)));
      }
      if player.IsState(Empty(Queue.Packets(s))) {
        player.ClearState(Empty(Queue.Packets(s)));
      }
    }

    /** PacketStream's __remove_packet */
    method RemovePacket(s: Stream)
      modifies this, player
      ensures Now() == Step(max, old(Now()), Remove(s))
    {
      var size;
      if s.Audio? {
        audio := if audio == [] then [] else audio[1..];
        size := |audio|;
      } else {
        video := if video == [] then [] else video[1..];
        size := |video|;
      }
      if size == 0 {
        player.SetState(Empty(Queue.Packets(s)));
      } else if size <= max * 2 / 3 {
        if player.IsState(Full(Queue.Packets(s))) {
          player.ClearState(Full(Queue.Packets(s)));
        }
      }
    }

    /** PacketStream's __clear */
    method ClearStream(s: Stream)
      modifies this
      ensures s.Audio? ==> audio == [] && video == old(video)
      ensures s.Video? ==> video == [] && audio == old(audio)
    {
      while (if s.Audio? then audio else video) != []
        invariant s.Audio? ==> video == old(video)
        invariant s.Video? ==> audio == old(audio)
        decreases |audio| + |video|
      {
        if s.Audio? {
          audio := audio[1..];
        } else {
          video := video[1..];
        }
      }
    }

    /** What the extractor's __seek and __close do to the queues. */
    method ClearStreams()
      modifies this, player
      ensures Now() == Step(max, old(Now()), ClearQueues)
    {
      ClearStream(Video);
      ClearStream(Audio);
      player.ClearState(Full(Queue.Packets(Video)));
      player.ClearState(Full(Queue.Packets(Audio)));
    }

    /** The stop action of the extractor and of both codecs. */
    method StopComponent(c: Component)
      modifies player
      ensures Now() == Step(max, old(Now()), Ack(c))
    {
      player.Raise(ComponentStopped(c));
      if && Stopping in player.on && ComponentStopped(Extractor) in player.on
         && ComponentStopped(VideoCodec) in player.on && ComponentStopped(AudioCodec) in player.on {
        player.SetState(Stopped);
      }
    }
  }
}
