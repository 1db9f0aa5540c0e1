/**
 The media player's flags, its bounded packet queues and the stop handshake between its threads
 (src/media/Player.c, PacketStream.c, FF_Extractor.c, FF_Video_Codec.c, FF_Audio_Codec.c).
 Calls made by the threads are modelled as atomic steps.
 */
module PlayerState {

  datatype Component = Extractor | VideoCodec | AudioCodec

  datatype Stream = Audio | Video

  datatype Queue = Packets(stream: Stream) | Frames(stream: Stream)

  /** The player's states; the player holds one flag for each. */
  datatype State =
    | Runned | Idle | Inited | Opening | Opened | Ready(c: Component) | ComponentStopped(c: Component) | ExtractorEof
    | Playing | Stopping | Stopped | Empty(q: Queue) | Full(q: Queue) | Seeking | Seeked | Switch | End
    | Fullscreen | ScreensizeChanged | Exit | Close | Loading | PacketLoading(stream: Stream)

  type Flags = set<State>

  const ALL_STOPPED: Flags := {ComponentStopped(Extractor), ComponentStopped(VideoCodec), ComponentStopped(AudioCodec)}

  const ALL_EMPTY: Flags :=
    {Empty(Packets(Audio)), Empty(Packets(Video)), Empty(Frames(Audio)), Empty(Frames(Video))}

  /** The net effect of requesting a stop. */
  function StopRequested(on: Flags): Flags {
    on + {Stopping} - {Stopped, Playing}
  }

  /** The flags after set_state, nested requests included. */
  function AfterSet(on: Flags, s: State): Flags {
    match s
    case Opening => StopRequested(on + {Opening} - {Opened, Loading, End, Seeking})
    case Opened => on + {Opened} - {Opening}
    case Playing =>
      on + {Playing}
      - {Loading, PacketLoading(Video), PacketLoading(Audio), Stopping, Stopped, ExtractorEof, Seeking} - ALL_STOPPED
    case Stopping => StopRequested(on)
    case Stopped => on + {Stopped} - {Stopping, Playing}
    case Empty(q) =>
      var on' := on + {Empty(q)} - {Full(q)};
      if ALL_EMPTY <= on' && ExtractorEof in on' then StopRequested(on' + {End}) else on'
    case Full(q) => on + {Full(q)} - {Empty(q)}
    case Seeking => StopRequested(on + {Seeking} - {Seeked, End})
    case Seeked => on + {Seeked} - {Seeking, Stopping, Stopped}
    case Switch => on + {Switch, Stopping}
    case End => StopRequested(on + {End})
    case Close => StopRequested(on + {Close} - {Inited})
    case Loading => on + {Loading, PacketLoading(Audio), PacketLoading(Video)} - {Playing}
    case _ => on + {s}
  }

  /** The flags after clear_state; clearing the screen-size flag falls through to the loading case. */
  function AfterClear(on: Flags, s: State): Flags {
    match s
    case ScreensizeChanged => on + {Playing} - {ScreensizeChanged, Loading}
    case Loading => on + {Playing} - {Loading}
    case _ => on - {s}
  }

  /** What is_state answers: LOADING is read off the two packet flags, which themselves are never reported. */
  function Reported(on: Flags, s: State): bool {
    match s
    case Loading => PacketLoading(Audio) in on && PacketLoading(Video) in on
    case PacketLoading(_) => false
    case _ => s in on
  }

  /** A state just requested is reported, packet loading excepted. */
  lemma RequestedIsReported(on: Flags, s: State)
    ensures Reported(AfterSet(on, s), s) <==> !s.PacketLoading?
  {
  }

  /**
   A state just withdrawn is no longer reported, except LOADING: its flag is lowered, but the
   answer comes from the packet flags, which stay. Of all other answers only PLAYING can change, and
   LOADING when a packet flag is withdrawn.
   */
  lemma WithdrawnIsNotReported(on: Flags, s: State)
    ensures Reported(AfterClear(on, s), s) <==> s.Loading? && Reported(on, Loading)
    ensures forall t :: t != s && t != Playing && !t.Loading? ==> (Reported(AfterClear(on, s), t) <==> Reported(on, t))
    ensures !s.PacketLoading? ==> (Reported(AfterClear(on, s), Loading) <==> Reported(on, Loading))
    ensures Reported(AfterClear(on, s), Playing) <==>
            s in {Loading, ScreensizeChanged} || (Reported(on, Playing) && s != Playing)
  {
  }

  // ---------------------------------------------------------- what a request does

  /** The flags that a request may change. */
  function Touched(s: State): Flags {
    match s
    case Opening => {Opening, Opened, Loading, End, Seeking, Stopping, Stopped, Playing}
    case Opened => {Opened, Opening}
    case Playing =>
      {Playing, Loading, PacketLoading(Video), PacketLoading(Audio), Stopping, Stopped, ExtractorEof, Seeking}
      + {ComponentStopped(Extractor), ComponentStopped(VideoCodec), ComponentStopped(AudioCodec)}
    case Stopping => {Stopping, Stopped, Playing}
    case Stopped => {Stopping, Stopped, Playing}
    case Empty(q) => {Empty(q), Full(q), End, Stopping, Stopped, Playing}
    case Full(q) => {Full(q), Empty(q)}
    case Seeking => {Seeking, Seeked, End, Stopping, Stopped, Playing}
    case Seeked => {Seeked, Seeking, Stopping, Stopped}
    case Switch => {Switch, Stopping}
    case End => {End, Stopping, Stopped, Playing}
    case Close => {Close, Inited, Stopping, Stopped, Playing}
    case Loading => {Loading, PacketLoading(Audio), PacketLoading(Video), Playing}
    case _ => {s}
  }

  /** The requests that contain a stop. */
  predicate RequestsStop(s: State) {
    s in {Opening, Stopping, Seeking, End, Close, Switch}
  }

  /**
   Of the flags it may change, a request raises its own, STOPPING if it contains a stop, and the
   packet flags of LOADING, and lowers the others; an empty queue is another matter
   (`LastEmptyQueueEnds`).
   */
  lemma RequestEffect(on: Flags, s: State, t: State)
    requires !s.Empty?
    ensures t in AfterSet(on, s) <==>
            if t !in Touched(s) then t in on
            else t == s || (t == Stopping && RequestsStop(s)) || (s == Loading && t.PacketLoading?)
  {
  }

  /** Every request that contains a stop leaves STOPPING on, and all but a switch leave STOPPED and PLAYING off. */
  lemma StopIsRequested(on: Flags, s: State)
    requires RequestsStop(s)
    ensures Stopping in AfterSet(on, s)
    ensures s != Switch ==> Stopped !in AfterSet(on, s) && Playing !in AfterSet(on, s)
  {
  }

  /**
   The last of the four queues to run dry after the end of input ends the play: END and STOPPING on,
   STOPPED and PLAYING off. Otherwise nothing but the queue's own flags changes.
   */
  lemma LastEmptyQueueEnds(on: Flags, q: Queue)
    ensures var after := AfterSet(on, Empty(q));
            var last := ExtractorEof in on && forall p: Queue :: p != q ==> Empty(p) in on;
            && Empty(q) in after && Full(q) !in after
            && (last ==> End in after && Stopping in after && Stopped !in after && Playing !in after)
            && (!last ==> forall t :: t in {End, Stopping, Stopped, Playing} ==> (t in after <==> t in on))
            && forall t :: t !in Touched(Empty(q)) ==> (t in after <==> t in on)
  {
    assert ALL_EMPTY <= on + {Empty(q)} - {Full(q)} <==> forall p: Queue :: p != q ==> Empty(p) in on by {
      EveryQueue(on, q);
    }
  }

  lemma EveryQueue(on: Flags, q: Queue)
    ensures ALL_EMPTY <= on + {Empty(q)} - {Full(q)} <==> forall p: Queue :: p != q ==> Empty(p) in on
  {
    forall p: Queue ensures Empty(p) in ALL_EMPTY {
      match p {
        case Packets(s) => match s { case Audio => case Video => }
        case Frames(s) => match s { case Audio => case Video => }
      }
    }
  }

  class Player {
    var on: Flags

    constructor ()
      ensures on == {}
    {
      on := {};
    }

    /** __is_state */
    function IsState(s: State): bool
      reads this
    {
      Reported(on, s)
    }

    method Raise(s: State)
      modifies this
      ensures on == old(on) + {s}
    {
      on := on + {s};
    }

    method Lower(s: State)
      modifies this
      ensures on == old(on) - {s}
    {
      on := on - {s};
    }

    /** __set_state for STATE_STOPPING, which several other requests contain */
    method SetStopping()
      modifies this
      ensures on == AfterSet(old(on), Stopping)
    {
      Raise(Stopping);
      Lower(Stopped);
      ClearState(Playing);
    }

    /** __set_state for STATE_END */
    method SetEnd()
      modifies this
      ensures on == AfterSet(old(on), End)
    {
      Raise(End);
      SetStopping();
    }

    /** __set_state */
    method SetState(s: State)
      modifies this
      ensures on == AfterSet(old(on), s)
    {
      match s {
        case Opening =>
          on := on + {Opening, Stopping};
          on := on - {Stopped, Opened, Loading, End, Seeking};
          SetStopping();
        case Opened =>
          on := on + {Opened};
          on := on - {Opening};
        case Playing =>
          on := on + {Playing};
          on := on - {Loading, PacketLoading(Video), PacketLoading(Audio), Stopping, Stopped};
          on := on - {ComponentStopped(VideoCodec), ComponentStopped(AudioCodec), ComponentStopped(Extractor)};
          on := on - {ExtractorEof, Seeking};
        case Stopping =>
          SetStopping();
        case Stopped =>
          on := on + {Stopped};
          on := on - {Stopping};
          ClearState(Playing);
        case Empty(q) =>
          SetEmpty(q);
        case Full(q) =>
          on := on + {Full(q)};
          on := on - {Empty(q)};
        case Seeking =>
          on := on + {Seeking};
          on := on - {Seeked, Playing, End};
          SetStopping();
        case Seeked =>
          on := on - {Seeking};
          on := on + {Seeked};
          on := on - {Stopping, Stopped};
        case Switch =>
          on := on + {Switch, Stopping};
        case End =>
          SetEnd();
        case Close =>
          on := on + {Close};
          on := on - {Inited};
          SetStopping();
        case Loading =>
          on := on + {Loading};
          on := on - {Playing};
          on := on + {PacketLoading(Audio), PacketLoading(Video)};
        case _ =>
          Raise(s);
      }
    }

    /** __set_state for the four queue-empty states: the last one to run dry at end of input ends the play. */
    method SetEmpty(q: Queue)
      modifies this
      ensures on == AfterSet(old(on), Empty(q))
      ensures if ExtractorEof in old(on) && forall p: Queue :: p != q ==> Empty(p) in old(on)
              then End in on && Stopping in on && Stopped !in on && Playing !in on
              else forall t :: t in {End, Stopping, Stopped, Playing} ==> (t in on <==> t in old(on))
    {
      LastEmptyQueueEnds(on, q);
      on := on + {Empty(q)};
      on := on - {Full(q)};
      if && Empty(Packets(Audio)) in on && Empty(Frames(Audio)) in on
         && Empty(Packets(Video)) in on && Empty(Frames(Video)) in on && ExtractorEof in on {
        SetEnd();
      }
    }

    /** __clear_state */
    method ClearState(s: State)
      modifies this
      ensures on == AfterClear(old(on), s)
    {
      match s {
        case ScreensizeChanged =>
          on := on - {ScreensizeChanged};
          on := on + {Playing};
          on := on - {Loading};
        case Loading =>
          on := on + {Playing};
          on := on - {Loading};
        case _ =>
          Lower(s);
      }
    }
  }
}
