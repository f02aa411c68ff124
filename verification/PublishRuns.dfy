/** What a whole run publishes, said by the messages of the run alone. */
module PublishRuns {
  import opened Publish

  // ---------- Which messages become frames ----------

  /** A parsed raw AAC message. */
  predicate IsAudio(e: Event) { e.OnMessage? && e.m == AacRaw(true) }

  /** A parsed AVC NALU message. */
  predicate IsVideo(e: Event) { e.OnMessage? && e.m.AvcNalu? && e.m.parsed }

  /** FLV frame type 1 is that of key frames. */
  predicate IsKeyVideo(e: Event) { e.OnMessage? && e.m == AvcNalu(true, 1) }

  predicate KeyCame(events: seq<Event>) { exists j :: 0 <= j < |events| && IsKeyVideo(events[j]) }

  /** Every audio message is a frame, and every video message from the first key frame on, numbered as they come. */
  function Media(events: seq<Event>): seq<Frame> {
    if events == [] then []
    else
      var before, e := Media(events[..|events| - 1]), events[|events| - 1];
      if IsAudio(e) then before + [Frame(|before| + 1, false, true)]
      else if IsVideo(e) && KeyCame(events) then before + [Frame(|before| + 1, true, IsKeyVideo(e))]
      else before
  }

  /** What the frames of a context are after these events. */
  predicate Holds(c: Context, events: seq<Event>) {
    Frames(c) == Media(events) && c.frameNumber == |Media(events)| && c.firstVideoKeyFrameSent == KeyCame(events)
  }

  lemma KeyCameMore(events: seq<Event>, e: Event)
    ensures KeyCame(events + [e]) <==> KeyCame(events) || IsKeyVideo(e)
  {
    hide IsKeyVideo;
    var more := events + [e];
    if KeyCame(events) {
      var j :| 0 <= j < |events| && IsKeyVideo(events[j]);
      assert IsKeyVideo(more[j]);
    }
    assert IsKeyVideo(e) ==> IsKeyVideo(more[|events|]);
  }

  lemma MediaMore(events: seq<Event>, e: Event)
    ensures var before := Media(events);
      Media(events + [e])
      == if IsAudio(e) then before + [Frame(|before| + 1, false, true)]
         else if IsVideo(e) && (KeyCame(events) || IsKeyVideo(e)) then
           before + [Frame(|before| + 1, true, IsKeyVideo(e))]
         else before
  {
    hide IsAudio, IsVideo, IsKeyVideo, KeyCame;
    KeyCameMore(events, e);
    assert (events + [e])[..|events|] == events;
  }

  lemma PublishFrames(c: Context, a: Answers)
    requires Invariant(c)
    ensures var d := Published(c, a);
      && Invariant(d) && Frames(d) == Frames(c) && d.frameNumber == c.frameNumber
      && d.firstVideoKeyFrameSent == c.firstVideoKeyFrameSent
  {
    hide Invariant, Opening, Sending, Closing, Frames;
    PublishKeeps(c, a);
    OpeningCodecs(c, a);
    SendingCodecs(Opening(c, a).0, a);
    ClosingCodecs(Sending(Opening(c, a).0, a).0);
  }

  lemma ProcessFrames(c: Context, m: Message, a: Answers)
    ensures var d := Process(c, m).0; var e := OnMessage(m, a);
      && Frames(d)
         == (if IsAudio(e) then Frames(c) + [Frame(c.frameNumber + 1, false, true)]
             else if IsVideo(e) && (c.firstVideoKeyFrameSent || IsKeyVideo(e)) then
               Frames(c) + [Frame(c.frameNumber + 1, true, IsKeyVideo(e))]
             else Frames(c))
      && d.frameNumber - c.frameNumber == |Frames(d)| - |Frames(c)|
      && d.firstVideoKeyFrameSent == (c.firstVideoKeyFrameSent || IsKeyVideo(e))
  {
    hide PushFrame, Frames;
    match m {
      case AacRaw(parsed) =>
        if parsed { PushFrames(c, false, true); }
      case AvcNalu(parsed, frameType) =>
        PushFrames(c.(firstVideoKeyFrameSent := true), true, true);
        PushFrames(c, true, false);
        SameFrames(c, c.(firstVideoKeyFrameSent := true));
      case _ => SameFrames(c, Process(c, m).0);
    }
  }

  lemma PushFrames(c: Context, video: bool, key: bool)
    ensures var d := PushFrame(c, video, key);
      && Frames(d) == Frames(c) + [Frame(c.frameNumber + 1, video, key)] && d.frameNumber == c.frameNumber + 1
      && d.firstVideoKeyFrameSent == c.firstVideoKeyFrameSent
  {
  }

  lemma SameFrames(c: Context, d: Context)
    requires c.delivered == d.delivered && c.queue == d.queue
    ensures Frames(c) == Frames(d)
  {
  }

  lemma HoldsMore(c: Context, events: seq<Event>, e: Event)
    requires Invariant(c) && Holds(c, events)
    ensures Invariant(Step(c, e)) && Holds(Step(c, e), events + [e])
  {
    hide Invariant, Published, Process, Frames, Media, KeyCame, IsAudio, IsVideo, IsKeyVideo;
    MediaMore(events, e);
    KeyCameMore(events, e);
    match e {
      case OnMessage(m, a) =>
        ProcessKeeps(c, m);
        ProcessFrames(c, m, a);
        PublishFrames(Process(c, m).0, a);
      case SetReadyToEnd(ready) =>
        NoMedium(e);
        FlagKeeps(c, ready);
        FlagFrames(c, ready);
      case OnPublish(a) =>
        NoMedium(e);
        PublishFrames(c, a);
    }
  }

  lemma NoMedium(e: Event)
    requires !e.OnMessage?
    ensures !IsAudio(e) && !IsVideo(e) && !IsKeyVideo(e)
  {
  }

  lemma FlagFrames(c: Context, ready: bool)
    ensures Frames(c.(readyToEnd := ready)) == Frames(c)
  {
  }

  lemma {:induction false} RunMore(c: Context, events: seq<Event>, e: Event)
    ensures Run(c, events + [e]) == Step(Run(c, events), e)
    decreases |events|
  {
    hide Step;
    if events == [] {
      assert [e][1..] == [] && [] + [e] == [e];
    } else {
      assert (events + [e])[0] == events[0] && (events + [e])[1..] == events[1..] + [e];
      RunMore(Step(c, events[0]), events[1..], e);
    }
  }

  lemma NewHolds()
    ensures Invariant(NEW_CONTEXT) && Holds(NEW_CONTEXT, [])
  {
    hide Invariant;
    NewKeeps();
    assert Frames(NEW_CONTEXT) == [];
  }

  lemma {:induction false} RunHolds(events: seq<Event>)
    ensures Invariant(Run(NEW_CONTEXT, events)) && Holds(Run(NEW_CONTEXT, events), events)
    decreases |events|
  {
    hide Invariant, Step, Holds;
    NewHolds();
    if events != [] {
      var front, e := events[..|events| - 1], events[|events| - 1];
      assert events == front + [e];
      RunHolds(front);
      RunMore(NEW_CONTEXT, front, e);
      HoldsMore(Run(NEW_CONTEXT, front), front, e);
    }
  }

  /** In every run, whatever the library answers: what is delivered and queued are the media of the messages. */
  lemma RunFrames(events: seq<Event>)
    ensures var c := Run(NEW_CONTEXT, events); c.delivered + c.queue == Media(events)
  {
    hide Run, Invariant, Media;
    RunHolds(events);
  }

  // ---------- Which messages are dropped, and what asks for the end ----------

  /** A message that does not parse, and a video message before the first key frame. */
  predicate Dropped(events: seq<Event>, m: Message) {
    match m
    case AacSequenceHeader(parsed) => !parsed
    case AacRaw(parsed) => !parsed
    case AvcSequenceHeader(parsed) => !parsed
    case AvcNalu(parsed, frameType) => !parsed || (frameType != 1 && !KeyCame(events))
    case AvcEndOfSequence(_) => false
    case Unparsable => true
  }

  /** Exactly the other messages are followed by a call to publish. */
  lemma DroppedOrPublished(events: seq<Event>, m: Message, a: Answers)
    ensures var c := Run(NEW_CONTEXT, events);
      Step(c, OnMessage(m, a)) == if Dropped(events, m) then c else Published(Process(c, m).0, a)
  {
    hide Run, Published, PushFrame, Invariant, Frames, Media, KeyCame;
    RunHolds(events);
  }

  /** The last word on it was that it is ready to end. */
  predicate AskedToEnd(events: seq<Event>) {
    && events != []
    && var e := events[|events| - 1];
       if e.SetReadyToEnd? then e.ready else AskedToEnd(events[..|events| - 1])
  }

  /** The last end of sequence was not empty. */
  predicate StreamEnded(events: seq<Event>) {
    && events != []
    && var e := events[|events| - 1];
       if e.OnMessage? && e.m.AvcEndOfSequence? then !e.m.empty else StreamEnded(events[..|events| - 1])
  }

  lemma PublishedFlags(c: Context, a: Answers)
    ensures Published(c, a).readyToEnd == c.readyToEnd && Published(c, a).videoEos == c.videoEos
  {
    hide Opening, Sending, Closing;
    OpeningCodecs(c, a);
    SendingCodecs(Opening(c, a).0, a);
    ClosingCodecs(Sending(Opening(c, a).0, a).0);
  }

  lemma ProcessFlags(c: Context, m: Message)
    ensures Process(c, m).0.readyToEnd == c.readyToEnd
    ensures Process(c, m).0.videoEos == if m.AvcEndOfSequence? then !m.empty else c.videoEos
    ensures m.AvcEndOfSequence? ==> Process(c, m).1
  {
  }

  lemma {:induction false} RunFlags(events: seq<Event>)
    ensures var c := Run(NEW_CONTEXT, events);
      c.readyToEnd == AskedToEnd(events) && c.videoEos == StreamEnded(events)
    decreases |events|
  {
    hide Published, Process;
    if events != [] {
      var front, e := events[..|events| - 1], events[|events| - 1];
      assert events == front + [e];
      RunFlags(front);
      RunMore(NEW_CONTEXT, front, e);
      var c := Run(NEW_CONTEXT, front);
      match e {
        case OnMessage(m, a) =>
          ProcessFlags(c, m);
          PublishedFlags(Process(c, m).0, a);
        case SetReadyToEnd(_) =>
        case OnPublish(a) => PublishedFlags(c, a);
      }
    }
  }

  // ---------- A library that refuses nothing ----------

  predicate Willing(a: Answers, c: Context) { a.start && a.init && a.frames >= |c.queue| }

  /** Both codecs are known, and there is a frame of each kind. */
  predicate Complete(events: seq<Event>) {
    && (exists k :: 0 <= k < |events| && AudioHeader(events[k]))
    && (exists k :: 0 <= k < |events| && VideoHeader(events[k]))
    && (exists k :: 0 <= k < |Media(events)| && Media(events)[k].video)
    && (exists k :: 0 <= k < |Media(events)| && !Media(events)[k].video)
  }

  lemma {:induction false} VideosMeans(frames: seq<Frame>)
    ensures Videos(frames) >= 1 <==> exists k :: 0 <= k < |frames| && frames[k].video
    ensures Videos(frames) < |frames| <==> exists k :: 0 <= k < |frames| && !frames[k].video
    ensures Videos(frames) <= |frames|
  {
    if frames != [] {
      var front := frames[..|frames| - 1];
      VideosMeans(front);
      assert forall k :: 0 <= k < |front| ==> front[k] == frames[k];
      assert frames[|frames| - 1].video <==> Videos(frames) == Videos(front) + 1;
    }
  }

  lemma ReadyMeans(events: seq<Event>)
    ensures ReadyToSend(Run(NEW_CONTEXT, events)) <==> Complete(events)
  {
    hide Run, Invariant, Media, AudioHeader, VideoHeader, Videos;
    var c := Run(NEW_CONTEXT, events);
    RunHolds(events);
    InvariantMeans(c);
    CodecsFromHeaders(NEW_CONTEXT, events);
    VideosMeans(Media(events));
  }

  lemma {:induction false} AllDelivered(c: Context)
    ensures var d := Deliver(c, |c.queue|); d.queue == [] && d.delivered == c.delivered + c.queue
    ensures SameElse(c, Deliver(c, |c.queue|))
    decreases |c.queue|
  {
    if c.queue == [] {
      assert c.delivered + c.queue == c.delivered;
    } else {
      AllDelivered(DeliverFront(c));
      assert c.delivered + [c.queue[0]] + c.queue[1..] == c.delivered + c.queue;
    }
  }

  lemma WillingOpens(c: Context, a: Answers)
    requires Willing(a, c) && c.phase != End && PhaseOk(c)
    ensures var (d, open) := Opening(c, a);
      && open && d == c.(phase := d.phase, calls := d.calls) && d.phase != End
      && (d.phase == Publishing <==> ReadyToSend(c))
  {
    hide ReadyToSend;
    ReadyStays(c, Started(c));
  }

  lemma WillingSends(c: Context, a: Answers)
    requires a.frames >= |c.queue|
    ensures var (d, done) := Sending(c, a);
      && done && SameElse(c, d)
      && if c.phase == Publishing then d.queue == [] && d.delivered == c.delivered + c.queue else d == c
  {
    hide Deliver;
    AllDelivered(c);
  }

  /** One call with a willing library does all there is to do. */
  lemma WillingPublishes(c: Context, a: Answers)
    requires Willing(a, c) && c.phase != End && PhaseOk(c)
    ensures var d := Published(c, a);
      && (if ReadyToSend(c) then d.queue == [] && d.delivered == c.delivered + c.queue
          else d.queue == c.queue && d.delivered == c.delivered)
      && (d.phase == End <==> c.readyToEnd || c.videoEos)
      && (d.phase == End ==> d.calls != [] && d.calls[|d.calls| - 1] == StopIngest)
  {
    hide Opening, Sending, ReadyToSend, PhaseOk;
    WillingOpens(c, a);
    WillingSends(Opening(c, a).0, a);
  }

  /**
   After any run, one call with a library that refuses nothing delivers every medium of the run if it is complete, and
   none otherwise; and it ends exactly when the end has been asked for or the video stream has ended.
   */
  lemma WillingDrains(events: seq<Event>, a: Answers)
    requires Willing(a, Run(NEW_CONTEXT, events)) && Run(NEW_CONTEXT, events).phase != End
    ensures var c := Run(NEW_CONTEXT, events); var d := Published(c, a);
      && d.delivered == (if Complete(events) then Media(events) else [])
      && d.queue == (if Complete(events) then [] else Media(events))
      && (d.phase == End <==> AskedToEnd(events) || StreamEnded(events))
  {
    hide Run, Published, Media, Complete, FramesOk, CallsOk, AskedToEnd, StreamEnded;
    var c := Run(NEW_CONTEXT, events);
    RunFlags(events);
    RunHolds(events);
    RunFrames(events);
    ReadyMeans(events);
    WillingPublishes(c, a);
  }

  /** The end of the video stream is what ends it. */
  lemma EndOfSequenceEnds(c: Context, a: Answers)
    requires Willing(a, c) && c.phase != End && Invariant(c)
    ensures Step(c, OnMessage(AvcEndOfSequence(false), a)).phase == End
  {
    hide Published, FramesOk, CallsOk;
    ProcessKeeps(c, AvcEndOfSequence(false));
    WillingPublishes(c.(videoEos := true), a);
  }

  // ---------- The order of the calls ----------

  predicate FrameCalls(calls: seq<Call>) { forall k :: 0 <= k < |calls| ==> calls[k].OnSegment? || calls[k].OnEsChunk? }

  /** The ingest is started first, and initialised before any frame. */
  predicate Underway(calls: seq<Call>) {
    |calls| >= 2 && calls[0] == StartIngest && calls[1] == InitSegment && FrameCalls(calls[2..])
  }

  /** The calls by phase: none; the start; then the codec infos and frames; and the stop as the last. */
  predicate InOrder(calls: seq<Call>, phase: Phase) {
    match phase
    case Begin => calls == []
    case Initial => calls == [StartIngest]
    case Publishing => Underway(calls)
    case End =>
      && calls != [] && calls[|calls| - 1] == StopIngest
      && var before := calls[..|calls| - 1]; before == [StartIngest] || Underway(before)
  }

  lemma UnderwayMore(calls: seq<Call>, more: seq<Call>)
    requires Underway(calls) && FrameCalls(more)
    ensures Underway(calls + more)
  {
    assert (calls + more)[2..] == calls[2..] + more;
  }

  lemma {:induction false} DeliverOrder(c: Context, n: nat)
    requires n <= |c.queue| && Underway(c.calls)
    ensures Underway(Deliver(c, n).calls) && Deliver(c, n).phase == c.phase
    decreases n
  {
    hide Underway;
    if n > 0 {
      UnderwayMore(c.calls, [OnSegment(c.queue[0].number), OnEsChunk(c.queue[0].number)]);
      DeliverOrder(DeliverFront(c), n - 1);
    }
  }

  lemma SendingOrder(c: Context, a: Answers)
    requires InOrder(c.calls, c.phase)
    ensures InOrder(Sending(c, a).0.calls, c.phase) && Sending(c, a).0.phase == c.phase
  {
    hide Underway, Deliver;
    if c.phase == Publishing {
      var n := if a.frames < |c.queue| then a.frames else |c.queue|;
      DeliverOrder(c, n);
      var d := Deliver(c, n);
      if d.queue != [] { UnderwayMore(d.calls, [OnSegment(d.queue[0].number)]); }
    }
  }

  lemma OpeningOrder(c: Context, a: Answers)
    requires InOrder(c.calls, c.phase)
    ensures InOrder(Opening(c, a).0.calls, Opening(c, a).0.phase)
  {
    hide ReadyToSend;
    assert [StartIngest, InitSegment][2..] == [];
    assert [StartIngest] + [InitSegment] == [StartIngest, InitSegment];
  }

  lemma ClosingOrder(c: Context)
    requires InOrder(c.calls, c.phase) && c.phase != Begin
    ensures InOrder(Closing(c).calls, Closing(c).phase)
  {
    hide Underway;
    assert (c.calls + [StopIngest])[..|c.calls|] == c.calls;
  }

  lemma PublishOrder(c: Context, a: Answers)
    requires InOrder(c.calls, c.phase)
    ensures InOrder(Published(c, a).calls, Published(c, a).phase)
  {
    hide InOrder, Sending, Closing, ReadyToSend;
    OpeningOrder(c, a);
    var c2 := Opening(c, a).0;
    SendingOrder(c2, a);
    if Opening(c, a).1 { ClosingOrder(Sending(c2, a).0); }
  }

  /** In every run the calls into the library come in this order. */
  lemma {:induction false} RunInOrder(events: seq<Event>)
    ensures var c := Run(NEW_CONTEXT, events); InOrder(c.calls, c.phase)
    decreases |events|
  {
    hide Published, Process, InOrder;
    NewInOrder();
    if events != [] {
      var front, e := events[..|events| - 1], events[|events| - 1];
      assert events == front + [e];
      RunInOrder(front);
      RunMore(NEW_CONTEXT, front, e);
      var c := Run(NEW_CONTEXT, front);
      match e {
        case OnMessage(m, a) =>
          ProcessCalls(c, m);
          PublishOrder(Process(c, m).0, a);
        case SetReadyToEnd(_) =>
        case OnPublish(a) => PublishOrder(c, a);
      }
    }
  }

  lemma NewInOrder()
    ensures InOrder(NEW_CONTEXT.calls, NEW_CONTEXT.phase)
  {
  }

  lemma ProcessCalls(c: Context, m: Message)
    ensures Process(c, m).0.calls == c.calls && Process(c, m).0.phase == c.phase
  {
  }
}
