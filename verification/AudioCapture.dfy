/**
  client/src/scripts/audio-capture.ts: the microphone track is recorded in chunks that go to the server
  over a socket, between a `start` and a `stop` control frame. Recorders are numbered in the order they
  are created; their chunks arrive as events at any time, also after the recorder has been stopped.
 */
module AudioCapture {
  import opened Wrappers

  type RecorderId = nat

  /** What travels over the socket; a chunk is tagged with the recorder that made it. */
  datatype Frame = StartFrame | StopFrame | Data(recorder: RecorderId)

  datatype Socket = Connecting | Open | Closed

  /** How the browser answers `new MediaRecorder` and `recorder.start`. */
  datatype Outcome = CannotCreate | CannotStart | Starts

  /**
    The fields of the capture, its socket, and the recorders it has made: which of them still have a data
    handler, and which were started and may therefore emit chunks.
   */
  datatype Capture = Capture(
    recorder: Option<RecorderId>, active: bool, hasTrack: bool, socket: Socket,
    created: nat, handled: set<RecorderId>, started: set<RecorderId>, sent: seq<Frame>)

  datatype Event =
    | Start(outcome: Outcome)
    | Stop
    | Restart(outcome: Outcome)
    | SetMuted(muted: bool, outcome: Outcome)
    | SetStream(hasTrack: bool)
    | Chunk(recorder: RecorderId, size: nat)
    | SocketOpens
    | SocketCloses

  function Initial(hasTrack: bool, socket: Socket): Capture {
    Capture(None, false, hasTrack, socket, 0, {}, {}, [])
  }

  /** A frame reaches the wire only while the socket is open. */
  function Sent(s: Capture, f: Frame): Capture {
    if s.socket == Open then s.(sent := s.sent + [f]) else s
  }

  function Started(s: Capture, outcome: Outcome): Capture {
    if s.active || !s.hasTrack || outcome == CannotCreate then s
    else
      var r := s.created;
      var made := Sent(s.(recorder := Some(r), created := r + 1, handled := s.handled + {r}), StartFrame);
      if outcome == CannotStart then made else made.(active := true, started := s.started + {r})
  }

  function Stopped(s: Capture): Capture {
    var quiet := s.(active := false, recorder := None,
      handled := if s.recorder.Some? then s.handled - {s.recorder.value} else s.handled);
    if s.active then Sent(quiet, StopFrame) else quiet
  }

  function Stepped(s: Capture, e: Event): Capture {
    match e
    case Start(outcome) => Started(s, outcome)
    case Stop => Stopped(s)
    case Restart(outcome) => Started(Stopped(s), outcome)
    case SetMuted(muted, outcome) => if muted then Stopped(s) else Started(s, outcome)
    case SetStream(hasTrack) => s.(hasTrack := hasTrack)
    case Chunk(r, size) => if r in s.started && r in s.handled && size > 0 then Sent(s, Data(r)) else s
    case SocketOpens => if s.socket == Connecting then s.(socket := Open) else s
    case SocketCloses => s.(socket := Closed)
  }

  class AudioCapture {
    var recorder: Option<RecorderId>
    var active: bool
    var hasTrack: bool
    /** The ready state of the socket and the frames sent on it. */
    var socket: Socket
    var sent: seq<Frame>
    /** The recorders made so far. */
    var created: nat
    var handled: set<RecorderId>
    var started: set<RecorderId>

    constructor (hasTrack: bool, socket: Socket)
      ensures State() == Initial(hasTrack, socket)
    {
      recorder, active, this.hasTrack, this.socket := None, false, hasTrack, socket;
      sent, created, handled, started := [], 0, {}, {};
    }

    ghost function State(): Capture
      reads this
    {
      Capture(recorder, active, hasTrack, socket, created, handled, started, sent)
    }

    method SetStream(hasTrack: bool)
      modifies this
      ensures State() == Stepped(old(State()), Event.SetStream(hasTrack))
    {
      this.hasTrack := hasTrack;
    }

    /** `threw` when `recorder.start` throws, which nothing here catches. */
    method Start(outcome: Outcome) returns (threw: bool)
      modifies this
      ensures State() == Stepped(old(State()), Event.Start(outcome))
      ensures threw ==> !active
    {
      if active {
        return false;
      }
      if !hasTrack {
        return false;
      }
      if outcome == CannotCreate {
        return false;
      }
      var r := created;
      recorder, created := Some(r), created + 1;
      handled := handled + {r};
      SendControl(StartFrame);
      if outcome == CannotStart {
        return true;
      }
      started := started + {r};
      active := true;
      return false;
    }

    method Stop()
      modifies this
      ensures State() == Stepped(old(State()), Event.Stop)
    {
      var wasActive, rec := active, recorder;
      active := false;
      recorder := None;
      if rec.Some? {
        handled := handled - {rec.value};
      }
      if wasActive {
        SendControl(StopFrame);
      }
    }

    method Restart(outcome: Outcome) returns (threw: bool)
      modifies this
      ensures State() == Stepped(old(State()), Event.Restart(outcome))
      ensures threw ==> !active
    {
      Stop();
      threw := Start(outcome);
    }

    method SetMuted(muted: bool, outcome: Outcome) returns (threw: bool)
      modifies this
      ensures State() == Stepped(old(State()), Event.SetMuted(muted, outcome))
      ensures threw ==> !active
    {
      threw := false;
      if muted {
        Stop();
      } else {
        threw := Start(outcome);
      }
    }

    /** A recorder that was started delivers a chunk; only its handler, if still attached, sees it. */
    method DataAvailable(r: RecorderId, size: nat)
      requires r in started
      modifies this
      ensures State() == Stepped(old(State()), Chunk(r, size))
    {
      if r in handled {
        if size > 0 && socket == Open {
          sent := sent + [Data(r)];
        }
      }
    }

    method SendControl(f: Frame)
      modifies this`sent
      ensures State() == Sent(old(State()), f)
    {
      if socket == Open {
        sent := sent + [f];
      }
    }
  }

  // ---- Runs ------------------------------------------------------------------------------------------

  /** The state after a history of calls, chunks and socket events. */
  function Run(s: Capture, events: seq<Event>): Capture {
    if events == [] then s else Stepped(Run(s, events[..|events| - 1]), events[|events| - 1])
  }

  /** A prefix of (start chunk* stop)*, the chunks of one session all from one recorder. */
  ghost predicate Bracketed(frames: seq<Frame>) {
    forall i :: 0 <= i < |frames| ==> Follows(frames, i)
  }

  /** Frame `i` may come where it is. */
  predicate Follows(frames: seq<Frame>, i: nat)
    requires i < |frames|
  {
    match frames[i]
    case StartFrame => i == 0 || frames[i - 1] == StopFrame
    case StopFrame => i > 0 && frames[i - 1] != StopFrame
    case Data(_) => i > 0 && (frames[i - 1] == StartFrame || frames[i - 1] == frames[i])
  }

  /** Between two chunks of one recorder lie only chunks of that recorder: none turns up in another session. */
  ghost predicate NoStray(frames: seq<Frame>) {
    forall i, j, k :: 0 <= i < k < j < |frames| && frames[i] == frames[j] && frames[i].Data? ==> frames[k] == frames[i]
  }

  ghost predicate WellFormed(frames: seq<Frame>) {
    Bracketed(frames) && NoStray(frames)
  }

  /** The last frame sent leaves a session of the server open. */
  predicate SessionOpen(frames: seq<Frame>) {
    frames != [] && frames[|frames| - 1] != StopFrame
  }

  predicate IsStart(e: Event) {
    e.Start? || e.Restart? || (e.SetMuted? && !e.muted)
  }

  /**
    The two things a caller must not let happen: a start that gets through to the recorder while the
    socket is still connecting, and a recorder that refuses to start while the socket is open.
   */
  predicate Offends(s: Capture, e: Event) {
    && IsStart(e)
    && (e.Restart? || !s.active)
    && s.hasTrack
    && ((s.socket == Connecting && e.outcome == Starts) || (s.socket == Open && e.outcome == CannotStart))
  }

  ghost predicate Guarded(s: Capture, events: seq<Event>) {
    forall i :: 0 <= i < |events| ==> !Offends(Run(s, events[..i]), events[i])
  }

  // ---- The invariant ---------------------------------------------------------------------------------

  /** Only the active recorder is both started and listened to, on every run. */
  ghost predicate OneVoice(s: Capture) {
    && (s.active ==> s.recorder.Some? && s.recorder.value in s.started && s.recorder.value in s.handled)
    && (forall r :: r in s.handled && r in s.started ==> s.active && s.recorder == Some(r))
    && (forall r :: r in s.started ==> r < s.created)
    && (s.recorder.Some? ==> s.recorder.value < s.created)
  }

  /** What the wire looks like while no rule has been broken. */
  ghost predicate InStep(s: Capture) {
    && WellFormed(s.sent)
    && (forall f :: f in s.sent && f.Data? ==> f.recorder < s.created)
    && (s.socket == Connecting ==> !s.active && s.sent == [])
    && (s.socket == Open ==> (s.active <==> SessionOpen(s.sent)))
    && (s.socket == Open && s.active ==> Speaking(s))
  }

  /** The open session belongs to the current recorder, and no earlier one does. */
  ghost predicate Speaking(s: Capture)
    requires s.sent != []
  {
    && s.recorder.Some?
    && var own := Data(s.recorder.value);
       s.sent[|s.sent| - 1] == own || (s.sent[|s.sent| - 1] == StartFrame && own !in s.sent)
  }

  lemma StartKeepsVoice(s: Capture, outcome: Outcome)
    requires OneVoice(s)
    ensures OneVoice(Started(s, outcome))
  {
  }

  lemma StopKeepsVoice(s: Capture)
    requires OneVoice(s)
    ensures OneVoice(Stopped(s))
  {
  }

  lemma AppendKeepsForm(frames: seq<Frame>, f: Frame)
    requires WellFormed(frames) && Follows(frames + [f], |frames|)
    requires f.Data? && f in frames ==> frames[|frames| - 1] == f
    ensures WellFormed(frames + [f])
  {
    var all := frames + [f];
    forall i | 0 <= i < |all|
      ensures Follows(all, i)
    {
      assert i < |frames| ==> Follows(frames, i);
    }
  }

  lemma StartKeepsStep(s: Capture, outcome: Outcome)
    requires OneVoice(s) && InStep(s) && !Offends(s, Start(outcome))
    ensures InStep(Started(s, outcome))
  {
    if s.socket == Open && Started(s, outcome) != s {
      AppendKeepsForm(s.sent, StartFrame);
    }
  }

  lemma StopKeepsStep(s: Capture)
    requires OneVoice(s) && InStep(s)
    ensures InStep(Stopped(s))
  {
    if s.socket == Open && s.active {
      AppendKeepsForm(s.sent, StopFrame);
    }
  }

  lemma ChunkKeepsStep(s: Capture, r: RecorderId, size: nat)
    requires OneVoice(s) && InStep(s)
    ensures InStep(Stepped(s, Chunk(r, size)))
  {
    if Stepped(s, Chunk(r, size)) != s {
      AppendKeepsForm(s.sent, Data(r));
    }
  }

  lemma StepKeeps(s: Capture, e: Event)
    requires OneVoice(s)
    ensures OneVoice(Stepped(s, e))
    ensures InStep(s) && !Offends(s, e) ==> InStep(Stepped(s, e))
  {
    match e
    case Start(outcome) => StartCase(s, outcome);
    case Stop => StopCase(s);
    case Restart(outcome) =>
      StopCase(s);
      StartCase(Stopped(s), outcome);
    case SetMuted(muted, outcome) =>
      StartCase(s, outcome);
      StopCase(s);
    case Chunk(r, size) =>
      if InStep(s) {
        ChunkKeepsStep(s, r, size);
      }
    case SetStream(_) =>
    case SocketOpens =>
    case SocketCloses =>
  }

  lemma StartCase(s: Capture, outcome: Outcome)
    requires OneVoice(s)
    ensures OneVoice(Started(s, outcome))
    ensures InStep(s) && !Offends(s, Start(outcome)) ==> InStep(Started(s, outcome))
  {
    StartKeepsVoice(s, outcome);
    if InStep(s) && !Offends(s, Start(outcome)) {
      StartKeepsStep(s, outcome);
    }
  }

  lemma StopCase(s: Capture)
    requires OneVoice(s)
    ensures OneVoice(Stopped(s))
    ensures InStep(s) ==> InStep(Stopped(s))
  {
    StopKeepsVoice(s);
    if InStep(s) {
      StopKeepsStep(s);
    }
  }

  // ---- The protocol ----------------------------------------------------------------------------------

  lemma {:induction false} StaysBracketed(s: Capture, rest: seq<Event>)
    requires OneVoice(s) && InStep(s) && Guarded(s, rest)
    ensures OneVoice(Run(s, rest)) && InStep(Run(s, rest))
    decreases |rest|
  {
    if rest == [] {
    } else {
      var first := rest[..|rest| - 1];
      forall i | 0 <= i < |first|
        ensures !Offends(Run(s, first[..i]), first[i])
      {
        assert first[..i] == rest[..i];
      }
      StaysBracketed(s, first);
      StepKeeps(Run(s, first), rest[|rest| - 1]);
    }
  }

  /**
    While no rule is broken, what is sent is well bracketed with every chunk in its recorder's own
    session, and on an open socket the server's session is open exactly while a capture is active.
   */
  lemma CaptureIsBracketed(hasTrack: bool, socket: Socket, events: seq<Event>)
    requires Guarded(Initial(hasTrack, socket), events)
    ensures var s := Run(Initial(hasTrack, socket), events);
      WellFormed(s.sent) && (s.socket == Open ==> (s.active <==> SessionOpen(s.sent)))
  {
    StaysBracketed(Initial(hasTrack, socket), events);
  }

  /** An open socket at the first start is enough when recorders do start. */
  lemma OpenSocketSuffices(hasTrack: bool, events: seq<Event>)
    requires forall e :: e in events && IsStart(e) ==> e.outcome != CannotStart
    ensures Run(Initial(hasTrack, Open), events).socket != Connecting
    ensures Guarded(Initial(hasTrack, Open), events)
    ensures WellFormed(Run(Initial(hasTrack, Open), events).sent)
  {
    forall i | 0 <= i <= |events|
      ensures Run(Initial(hasTrack, Open), events[..i]).socket != Connecting
    {
      NeverConnects(hasTrack, events[..i]);
    }
    assert events[..|events|] == events;
    CaptureIsBracketed(hasTrack, Open, events);
  }

  lemma {:induction false} NeverConnects(hasTrack: bool, events: seq<Event>)
    ensures Run(Initial(hasTrack, Open), events).socket != Connecting
    decreases |events|
  {
    if events == [] {
    } else {
      NeverConnects(hasTrack, events[..|events| - 1]);
    }
  }

  // ---- The rules are needed --------------------------------------------------------------------------

  /**
    A step breaks a rule exactly when, after it, a continuation that breaks no rule itself can garble
    the wire.
   */
  lemma OffenceExactlyWhenGarbled(s: Capture, e: Event)
    requires OneVoice(s) && InStep(s)
    ensures Offends(s, e) <==>
      exists rest :: Guarded(Stepped(s, e), rest) && !WellFormed(Run(Stepped(s, e), rest).sent)
  {
    if Offends(s, e) {
      Garbling(s, e);
    } else {
      StepKeeps(s, e);
      forall rest | Guarded(Stepped(s, e), rest)
        ensures WellFormed(Run(Stepped(s, e), rest).sent)
      {
        StaysBracketed(Stepped(s, e), rest);
      }
    }
  }

  lemma Garbling(s: Capture, e: Event)
    requires OneVoice(s) && InStep(s) && Offends(s, e)
    ensures exists rest :: Guarded(Stepped(s, e), rest) && !WellFormed(Run(Stepped(s, e), rest).sent)
  {
    var t := Stepped(s, e);
    if s.socket == Connecting {
      var rest := [SocketOpens, Stop];
      assert rest[..1] == [SocketOpens] && rest[..0] == [];
      assert Run(t, [SocketOpens]) == Stepped(Run(t, []), SocketOpens);
      var frames := Run(t, rest).sent;
      assert frames == [StopFrame];
      assert !Follows(frames, 0);
    } else {
      var rest := [Start(Starts)];
      assert rest[..0] == [];
      assert Run(t, rest) == Stepped(Run(t, []), Start(Starts));
      var frames := Run(t, rest).sent;
      assert !Follows(frames, |frames| - 1);
    }
  }

  // ---- Who is heard ----------------------------------------------------------------------------------

  /** The call begins a capture, or may begin one, with a recorder that starts. */
  predicate Begins(e: Event) {
    IsStart(e) && e.outcome == Starts
  }

  predicate Ends(e: Event) {
    e.Stop? || (e.SetMuted? && e.muted)
  }

  /** An active capture on an open socket goes on past the event. */
  predicate GoesOn(e: Event) {
    !Ends(e) && !e.Restart? && !e.SocketCloses?
  }

  /** Whatever has happened so far, a run can be continued from where it is. */
  lemma {:induction false} RunVoice(s: Capture, events: seq<Event>)
    requires OneVoice(s)
    ensures OneVoice(Run(s, events))
    decreases |events|
  {
    if events != [] {
      RunVoice(s, events[..|events| - 1]);
      StepKeeps(Run(s, events[..|events| - 1]), events[|events| - 1]);
    }
  }

  lemma {:induction false} RunOn(s: Capture, before: seq<Event>, after: seq<Event>)
    ensures Run(s, before + after) == Run(Run(s, before), after)
    decreases |after|
  {
    var all := before + after;
    if after == [] {
      assert all == before;
    } else {
      var first := after[..|after| - 1];
      assert all[..|all| - 1] == before + first;
      RunOn(s, before, first);
    }
  }

  /**
    A chunk is heard exactly when it is not empty and comes from the recorder of the active capture, on
    an open socket; trailing chunks of recorders stopped earlier never are.
   */
  lemma ChunkIsHeardExactlyWhen(s: Capture, r: RecorderId, size: nat)
    requires OneVoice(s)
    ensures Stepped(s, Chunk(r, size)) == s.(sent := Stepped(s, Chunk(r, size)).sent)
    ensures Stepped(s, Chunk(r, size)).sent ==
      if s.active && s.recorder == Some(r) && s.socket == Open && size > 0 then s.sent + [Data(r)] else s.sent
  {
  }

  /** Stopping and muting end the capture at once, and say so when there was one to end. */
  lemma EndIsHeard(s: Capture, e: Event)
    requires OneVoice(s) && Ends(e)
    ensures !Stepped(s, e).active && Stepped(s, e).recorder == None
    ensures Stepped(s, e).sent == if s.active && s.socket == Open then s.sent + [StopFrame] else s.sent
    ensures Stepped(s, e).hasTrack == s.hasTrack && Stepped(s, e).socket == s.socket
  {
  }

  /** Starting and unmuting do nothing to an active capture; otherwise the browser's answer decides. */
  lemma StartAnswers(s: Capture, e: Event)
    requires OneVoice(s) && (e.Start? || (e.SetMuted? && !e.muted))
    ensures Stepped(s, e).active <==> s.active || (s.hasTrack && e.outcome == Starts)
    ensures s.active || !s.hasTrack || e.outcome == CannotCreate ==> Stepped(s, e) == s
    ensures !s.active && s.hasTrack && e.outcome != CannotCreate ==>
      Stepped(s, e).recorder == Some(s.created) && Stepped(s, e).created == s.created + 1
    ensures !s.active && s.hasTrack && e.outcome != CannotCreate ==>
      Stepped(s, e).sent == if s.socket == Open then s.sent + [StartFrame] else s.sent
    ensures Stepped(s, e).hasTrack == s.hasTrack && Stepped(s, e).socket == s.socket
  {
  }

  /** A restart of an active capture is heard as its end and a new beginning, with a new recorder. */
  lemma RestartIsHeard(s: Capture, outcome: Outcome)
    requires OneVoice(s) && s.active && s.hasTrack && s.socket == Open
    ensures var t := Stepped(s, Restart(outcome));
      && (t.active <==> outcome == Starts)
      && (t.active ==> t.recorder == Some(s.created))
      && t.sent == s.sent + if outcome == CannotCreate then [StopFrame] else [StopFrame, StartFrame]
  {
  }

  /** What was heard stays heard, and what comes after holds no chunk. */
  ghost predicate NoDataSince(s: Capture, t: Capture) {
    && |s.sent| <= |t.sent| && t.sent[..|s.sent|] == s.sent
    && forall k :: |s.sent| <= k < |t.sent| ==> !t.sent[k].Data?
  }

  /** Nothing is heard from a microphone that is not capturing until a recorder is started. */
  lemma {:induction false} SilentUntilStarted(s: Capture, rest: seq<Event>)
    requires OneVoice(s) && !s.active
    requires forall i :: 0 <= i < |rest| ==> !Begins(rest[i])
    ensures !Run(s, rest).active && NoDataSince(s, Run(s, rest))
    ensures (forall i :: 0 <= i < |rest| ==> !IsStart(rest[i])) ==> Run(s, rest).sent == s.sent
    decreases |rest|
  {
    if rest != [] {
      var first := rest[..|rest| - 1];
      SilentUntilStarted(s, first);
      RunVoice(s, first);
      SilentStep(s, Run(s, first), rest[|rest| - 1]);
    }
  }

  lemma SilentStep(s: Capture, t: Capture, e: Event)
    requires OneVoice(t) && !t.active && NoDataSince(s, t) && !Begins(e)
    ensures !Stepped(t, e).active && NoDataSince(s, Stepped(t, e))
    ensures !IsStart(e) ==> Stepped(t, e).sent == t.sent
  {
  }

  /**
    Over every run: once the user stops or mutes, the active capture's end is on the wire at once and
    nobody hears a chunk until a later call starts a recorder, however many chunks still arrive.
   */
  lemma MutedIsSilent(hasTrack: bool, socket: Socket, before: seq<Event>, e: Event, rest: seq<Event>)
    requires Ends(e) && forall i :: 0 <= i < |rest| ==> !Begins(rest[i])
    ensures var s := Run(Initial(hasTrack, socket), before);
      var t := Run(Initial(hasTrack, socket), before + [e]);
      && t.sent == (if s.active && s.socket == Open then s.sent + [StopFrame] else s.sent)
      && NoDataSince(t, Run(Initial(hasTrack, socket), before + [e] + rest))
  {
    var init := Initial(hasTrack, socket);
    RunVoice(init, before);
    RunOn(init, before, [e]);
    RunVoice(init, before + [e]);
    assert Run(Run(init, before), [e]) == Stepped(Run(init, before), e);
    EndIsHeard(Run(init, before), e);
    SilentUntilStarted(Run(init, before + [e]), rest);
    RunOn(init, before + [e], rest);
  }

  /** The chunks of recorder `r` that hold something, in the order they arrive. */
  function Spoken(r: RecorderId, events: seq<Event>): seq<Frame> {
    if events == [] then []
    else Spoken(r, events[..|events| - 1]) + match events[|events| - 1]
      case Chunk(from, size) => if from == r && size > 0 then [Data(r)] else []
      case _ => []
  }

  /** An active capture on an open socket sends every chunk of its recorder that is not empty, in order. */
  lemma {:induction false} CaptureSendsAll(s: Capture, r: RecorderId, events: seq<Event>)
    requires OneVoice(s) && s.active && s.recorder == Some(r) && s.socket == Open
    requires forall i :: 0 <= i < |events| ==> GoesOn(events[i])
    ensures Run(s, events).active && Run(s, events).recorder == Some(r) && Run(s, events).socket == Open
    ensures Run(s, events).sent == s.sent + Spoken(r, events)
    decreases |events|
  {
    if events != [] {
      var first := events[..|events| - 1];
      CaptureSendsAll(s, r, first);
      RunVoice(s, first);
    }
  }

  /** A whole session, from the start that begins it to the call that ends it, reaches the server whole. */
  lemma SessionIsHeard(s: Capture, begin: Event, events: seq<Event>, end: Event)
    requires OneVoice(s) && !s.active && s.hasTrack && s.socket == Open && Begins(begin) && Ends(end)
    requires forall i :: 0 <= i < |events| ==> GoesOn(events[i])
    ensures Run(s, [begin] + events + [end]).sent ==
      s.sent + [StartFrame] + Spoken(s.created, events) + [StopFrame]
  {
    var t := Stepped(s, begin);
    assert Run(s, [begin]) == t by {
      assert [begin][..0] == [];
    }
    StepKeeps(s, begin);
    RunOn(s, [begin], events);
    CaptureSendsAll(t, s.created, events);
    RunVoice(t, events);
    EndIsHeard(Run(t, events), end);
    RunOn(s, [begin] + events, [end]);
  }

  /** A socket that has closed carries nothing more. */
  lemma {:induction false} ClosedSaysNothing(s: Capture, events: seq<Event>)
    requires s.socket == Closed
    ensures Run(s, events).socket == Closed && Run(s, events).sent == s.sent
    decreases |events|
  {
    if events != [] {
      ClosedSaysNothing(s, events[..|events| - 1]);
    }
  }
}
