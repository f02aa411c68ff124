/**
 From RTMP messages to the streamer: process_flv_es_message queues frames, publish_to_streamer hands them on, and a
 call into the ingest library may fail at any time.
 */
module Publish {

  datatype Phase = Begin | Initial | Publishing | End

  /** A queued elementary-stream frame; `key` is what the FLV frame type says, which isKeyFrame does not carry on. */
  datatype Frame = Frame(number: nat, video: bool, key: bool)

  /** A message by what its bytes parse to. */
  datatype Message =
    | AacSequenceHeader(parsed: bool)
    | AacRaw(parsed: bool)
    | AvcSequenceHeader(parsed: bool)
    | AvcNalu(parsed: bool, frameType: nat)
    | AvcEndOfSequence(empty: bool)
    | Unparsable

  /** The successful calls into the ingest library. */
  datatype Call = StartIngest | InitSegment | OnSegment(number: nat) | OnEsChunk(number: nat) | StopIngest

  /** The fields of MediaPublishEsContext that matter here, and what has been delivered. */
  datatype Context = Context(
    phase: Phase,
    audioCodecKnown: bool,
    videoCodecKnown: bool,
    videoEos: bool,
    readyToEnd: bool,
    queue: seq<Frame>,
    frameNumber: nat,
    audioFrameNumber: nat,
    videoFrameNumber: nat,
    firstVideoKeyFrameSent: bool,
    delivered: seq<Frame>,
    calls: seq<Call>)

  const NEW_CONTEXT := Context(Begin, false, false, false, false, [], 0, 0, 0, false, [], [])

  const KEY_FRAME: nat := 1

  /** process_flv_es_message: the context afterwards, and whether it returned true. */
  function Process(c: Context, m: Message): (Context, bool) {
    match m
    case AacSequenceHeader(parsed) => if parsed then (c.(audioCodecKnown := true), true) else (c, false)
    case AacRaw(parsed) => if parsed then (PushFrame(c, false, true), true) else (c, false)
    case AvcSequenceHeader(parsed) => if parsed then (c.(videoCodecKnown := true), true) else (c, false)
    case AvcNalu(parsed, frameType) =>
      if !parsed then (c, false)
      else if frameType == KEY_FRAME then (PushFrame(c.(firstVideoKeyFrameSent := true), true, true), true)
      else if !c.firstVideoKeyFrameSent then (c, false)
      else (PushFrame(c, true, false), true)
    case AvcEndOfSequence(empty) => (c.(videoEos := !empty), true)
    case Unparsable => (c, false)
  }

  function PushFrame(c: Context, video: bool, key: bool): Context {
    c.(queue := c.queue + [Frame(c.frameNumber + 1, video, key)],
    frameNumber := c.frameNumber + 1,
    audioFrameNumber := if video then c.audioFrameNumber else c.audioFrameNumber + 1,
    videoFrameNumber := if video then c.videoFrameNumber + 1 else c.videoFrameNumber)
  }

  predicate ReadyToSend(c: Context) {
    c.audioCodecKnown && c.videoCodecKnown && c.videoFrameNumber >= 1 && c.audioFrameNumber >= 1
  }

  /**
   How the ingest library answers during one publish_to_streamer: whether it starts, whether it takes the codec
   infos, how many frames it takes before it refuses one, and whether it opened the segment of the one it refused.
   */
  datatype Answers = Answers(start: bool, init: bool, frames: nat, segmentOpened: bool)

  /** do_es_ingest on the frame in front, and pop_front. */
  function DeliverFront(c: Context): Context
    requires c.queue != []
  {
    var f := c.queue[0];
    c.(queue := c.queue[1..], delivered := c.delivered + [f],
    calls := c.calls + [OnSegment(f.number), OnEsChunk(f.number)])
  }

  /** do_es_ingest and pop_front, for the first `n` frames of the queue. */
  function Deliver(c: Context, n: nat): Context
    requires n <= |c.queue|
    decreases n
  {
    if n == 0 then c else Deliver(DeliverFront(c), n - 1)
  }

  /** The loop over the queue: whether it ran to the end, and the context. */
  function SendQueue(c: Context, a: Answers): (Context, bool) {
    if a.frames >= |c.queue| then (Deliver(c, |c.queue|), true)
    else
      var d := Deliver(c, a.frames);
      (if a.segmentOpened && d.queue != [] then d.(calls := d.calls + [OnSegment(d.queue[0].number)]) else d, false)
  }

  function Started(c: Context): Context { c.(phase := Initial, calls := c.calls + [StartIngest]) }

  function Initialised(c: Context): Context { c.(phase := Publishing, calls := c.calls + [InitSegment]) }

  /** The first two steps of publish_to_streamer: the context, and whether it goes on. */
  function Opening(c: Context, a: Answers): (Context, bool) {
    if c.phase == Begin && !a.start then (c, false)
    else
      var c1 := if c.phase == Begin then Started(c) else c;
      if c1.phase == Initial && ReadyToSend(c1) then
        if a.init then (Initialised(c1), true) else (c1, false)
      else (c1, true)
  }

  function Sending(c: Context, a: Answers): (Context, bool) {
    if c.phase == Publishing then SendQueue(c, a) else (c, true)
  }

  /** The last step: stop_ingest only starts the stopping, and always succeeds. */
  function Closing(c: Context): Context {
    if c.phase != End && (c.readyToEnd || c.videoEos) then c.(phase := End, calls := c.calls + [StopIngest]) else c
  }

  /** publish_to_streamer. */
  function Published(c: Context, a: Answers): Context {
    var (c2, open) := Opening(c, a);
    if !open then c2
    else
      var (c3, done) := Sending(c2, a);
      if !done then c3 else Closing(c3)
  }

  /** A message from the client; or what the connection does when it ends or starts over. */
  datatype Event = OnMessage(m: Message, a: Answers) | SetReadyToEnd(ready: bool) | OnPublish(a: Answers)

  /** process_rtmp_message: a message that fails is dropped without publishing. */
  function Step(c: Context, e: Event): Context {
    match e
    case OnMessage(m, a) =>
      var (d, ok) := Process(c, m);
      if ok then Published(d, a) else d
    case SetReadyToEnd(ready) => c.(readyToEnd := ready)
    case OnPublish(a) => Published(c, a)
  }

  function Run(c: Context, events: seq<Event>): Context
    decreases |events|
  {
    if events == [] then c else Run(Step(c, events[0]), events[1..])
  }

  // ---------- What every run keeps ----------

  /** Frames numbered from 1 on, without gap or repeat. */
  predicate Numbered(frames: seq<Frame>) { forall k :: 0 <= k < |frames| ==> frames[k].number == k + 1 }

  predicate HasKey(frames: seq<Frame>) {
    frames != [] && (HasKey(frames[..|frames| - 1]) || (frames[|frames| - 1].video && frames[|frames| - 1].key))
  }

  function Videos(frames: seq<Frame>): nat {
    if frames == [] then 0 else Videos(frames[..|frames| - 1]) + if frames[|frames| - 1].video then 1 else 0
  }

  /** Every video frame has a video key frame at or before it. */
  predicate KeyFirst(frames: seq<Frame>) {
    frames == [] || (KeyFirst(frames[..|frames| - 1]) && (frames[|frames| - 1].video ==> HasKey(frames)))
  }

  /** Every chunk comes right after its own segment was opened. */
  predicate SegmentsOpened(calls: seq<Call>) {
    forall k :: 0 <= k < |calls| && calls[k].OnEsChunk? ==> k > 0 && calls[k - 1] == OnSegment(calls[k].number)
  }

  /** The chunks among the calls, in order. */
  function Chunks(calls: seq<Call>): seq<nat> {
    if calls == [] then []
    else
      var last := calls[|calls| - 1];
      Chunks(calls[..|calls| - 1]) + if last.OnEsChunk? then [last.number] else []
  }

  function Numbers(frames: seq<Frame>): (r: seq<nat>)
    ensures |r| == |frames| && forall k :: 0 <= k < |frames| ==> r[k] == frames[k].number
  {
    seq(|frames|, k requires 0 <= k < |frames| => frames[k].number)
  }

  function Rank(p: Phase): nat {
    match p case Begin => 0 case Initial => 1 case Publishing => 2 case End => 3
  }

  function Frames(c: Context): seq<Frame> { c.delivered + c.queue }

  predicate FramesOk(c: Context) {
    && Numbered(Frames(c)) && |Frames(c)| == c.frameNumber
    && KeyFirst(Frames(c)) && (c.firstVideoKeyFrameSent ==> HasKey(Frames(c)))
    && Videos(Frames(c)) == c.videoFrameNumber && c.audioFrameNumber + c.videoFrameNumber == c.frameNumber
  }

  predicate CallsOk(c: Context) { SegmentsOpened(c.calls) && Chunks(c.calls) == Numbers(c.delivered) }

  predicate PhaseOk(c: Context) {
    && (c.phase == Publishing ==> ReadyToSend(c))
    && (c.delivered != [] ==> ReadyToSend(c) && Rank(c.phase) >= 2)
  }

  predicate Invariant(c: Context) { FramesOk(c) && CallsOk(c) && PhaseOk(c) }

  lemma KeyFirstMore(frames: seq<Frame>, f: Frame)
    requires KeyFirst(frames) && (f.video && !f.key ==> HasKey(frames))
    ensures KeyFirst(frames + [f])
    ensures HasKey(frames) || (f.video && f.key) ==> HasKey(frames + [f])
    ensures Videos(frames + [f]) == Videos(frames) + if f.video then 1 else 0
  {
    assert (frames + [f])[..|frames|] == frames;
  }

  lemma {:induction false} HasKeyMeans(frames: seq<Frame>)
    ensures HasKey(frames) <==> exists j :: 0 <= j < |frames| && frames[j].video && frames[j].key
  {
    if frames != [] {
      var front := frames[..|frames| - 1];
      HasKeyMeans(front);
      assert forall j :: 0 <= j < |front| ==> front[j] == frames[j];
    }
  }

  lemma {:induction false} KeyFirstMeans(frames: seq<Frame>, k: nat)
    requires KeyFirst(frames) && k < |frames| && frames[k].video
    ensures exists j :: 0 <= j <= k && frames[j].video && frames[j].key
  {
    if k == |frames| - 1 {
      HasKeyMeans(frames);
    } else {
      var front := frames[..|frames| - 1];
      KeyFirstMeans(front, k);
      var j :| 0 <= j <= k && front[j].video && front[j].key;
      assert frames[j] == front[j];
    }
  }

  lemma PushKeeps(c: Context, video: bool, key: bool)
    requires FramesOk(c) && (video && !key ==> c.firstVideoKeyFrameSent)
    ensures FramesOk(PushFrame(c, video, key))
    ensures video && key ==> FramesOk(PushFrame(c.(firstVideoKeyFrameSent := true), video, key))
  {
    hide KeyFirst, HasKey, Videos;
    var f := Frame(c.frameNumber + 1, video, key);
    KeyFirstMore(Frames(c), f);
    assert c.delivered + (c.queue + [f]) == c.delivered + c.queue + [f];
  }

  lemma PushPart(c: Context, video: bool, key: bool)
    requires FramesOk(c) && CallsOk(c) && (video && !key ==> c.firstVideoKeyFrameSent)
    ensures FramesOk(PushFrame(c, video, key)) && CallsOk(PushFrame(c, video, key))
    ensures video && key ==>
              var d := PushFrame(c.(firstVideoKeyFrameSent := true), video, key); FramesOk(d) && CallsOk(d)
  {
    PushKeeps(c, video, key);
  }

  lemma PushInvariant(c: Context, video: bool, key: bool)
    requires Invariant(c) && (video && !key ==> c.firstVideoKeyFrameSent)
    ensures Invariant(PushFrame(c, video, key)) && PushFrame(c, video, key).phase == c.phase
    ensures video && key ==>
              var d := PushFrame(c.(firstVideoKeyFrameSent := true), video, key); Invariant(d) && d.phase == c.phase
  {
    hide FramesOk, CallsOk;
    PushPart(c, video, key);
  }

  /** A header or the end of the sequence touches neither the frames nor the calls. */
  lemma HeaderInvariant(c: Context, d: Context)
    requires d == c.(audioCodecKnown := d.audioCodecKnown, videoCodecKnown := d.videoCodecKnown, videoEos := d.videoEos)
    requires Invariant(c) && (c.audioCodecKnown ==> d.audioCodecKnown) && (c.videoCodecKnown ==> d.videoCodecKnown)
    ensures Invariant(d)
  {
  }

  lemma ProcessKeeps(c: Context, m: Message)
    requires Invariant(c)
    ensures Invariant(Process(c, m).0) && Process(c, m).0.phase == c.phase
    ensures !Process(c, m).1 ==> Process(c, m).0 == c
  {
    hide Invariant, PushFrame;
    match m {
      case AacRaw(parsed) =>
        if parsed { PushInvariant(c, false, true); }
      case AvcNalu(parsed, frameType) =>
        if frameType == KEY_FRAME || c.firstVideoKeyFrameSent { PushInvariant(c, true, frameType == KEY_FRAME); }
      case AacSequenceHeader(_) => HeaderInvariant(c, Process(c, m).0);
      case AvcSequenceHeader(_) => HeaderInvariant(c, Process(c, m).0);
      case AvcEndOfSequence(_) => HeaderInvariant(c, Process(c, m).0);
      case Unparsable =>
    }
  }

  // ---------- Publishing ----------

  lemma CallsMore(calls: seq<Call>, call: Call)
    requires SegmentsOpened(calls) && (call.OnEsChunk? ==> calls != [] && calls[|calls| - 1] == OnSegment(call.number))
    ensures SegmentsOpened(calls + [call])
    ensures Chunks(calls + [call]) == Chunks(calls) + if call.OnEsChunk? then [call.number] else []
  {
    var more := calls + [call];
    assert more[..|more| - 1] == calls;
    forall k | 0 <= k < |more| && more[k].OnEsChunk? ensures k > 0 && more[k - 1] == OnSegment(more[k].number) {
      if k < |calls| { assert calls[k].OnEsChunk?; }
    }
  }

  lemma DeliverOne(c: Context)
    requires FramesOk(c) && CallsOk(c) && c.queue != []
    ensures var d := DeliverFront(c);
      FramesOk(d) && CallsOk(d) && Frames(d) == Frames(c)
  {
    hide Numbered, KeyFirst, HasKey, SegmentsOpened, Chunks;
    var f := c.queue[0];
    assert c.delivered + [f] + c.queue[1..] == c.delivered + c.queue;
    CallsMore(c.calls, OnSegment(f.number));
    CallsMore(c.calls + [OnSegment(f.number)], OnEsChunk(f.number));
    assert c.calls + [OnSegment(f.number)] + [OnEsChunk(f.number)]
        == c.calls + [OnSegment(f.number), OnEsChunk(f.number)];
    assert Numbers(c.delivered + [f]) == Numbers(c.delivered) + [f.number];
  }

  /** What delivering frames leaves as it was. */
  predicate SameElse(c: Context, d: Context) {
    d == c.(queue := d.queue, delivered := d.delivered, calls := d.calls)
  }

  lemma {:induction false} DeliverKeeps(c: Context, n: nat)
    requires FramesOk(c) && CallsOk(c) && n <= |c.queue|
    ensures var d := Deliver(c, n);
      && FramesOk(d) && CallsOk(d) && Frames(d) == Frames(c) && SameElse(c, d)
      && d.queue == c.queue[n..] && d.delivered == c.delivered + c.queue[..n]
    decreases n
  {
    hide FramesOk, CallsOk, Frames;
    if n > 0 {
      DeliverOne(c);
      var f, d := c.queue[0], DeliverFront(c);
      DeliverKeeps(d, n - 1);
      assert c.queue[1..][n - 1..] == c.queue[n..];
      assert c.delivered + [f] + c.queue[1..][..n - 1] == c.delivered + c.queue[..n];
    } else {
      assert c.queue[0..] == c.queue && c.delivered + c.queue[..0] == c.delivered;
    }
  }

  lemma CallKeeps(c: Context, call: Call)
    requires CallsOk(c) && !call.OnEsChunk?
    ensures CallsOk(c.(calls := c.calls + [call]))
  {
    CallsMore(c.calls, call);
  }

  lemma SendKeeps(c: Context, a: Answers)
    requires FramesOk(c) && CallsOk(c)
    ensures var (d, done) := SendQueue(c, a);
      FramesOk(d) && CallsOk(d) && SameElse(c, d) && (done ==> d.queue == []) && Frames(d) == Frames(c)
  {
    hide CallsOk, Deliver;
    var n := if a.frames >= |c.queue| then |c.queue| else a.frames;
    DeliverKeeps(c, n);
    var d := Deliver(c, n);
    if n < |c.queue| && a.segmentOpened { CallKeeps(d, OnSegment(d.queue[0].number)); }
  }

  lemma OpeningPhase(c: Context, a: Answers)
    requires PhaseOk(c)
    ensures var d := Opening(c, a).0;
      && PhaseOk(d) && Rank(c.phase) <= Rank(d.phase) && d == c.(phase := d.phase, calls := d.calls)
      && (c.phase == End || c.phase == Publishing ==> Opening(c, a) == (c, true))
      && (d.phase == End ==> c.phase == End)
      && (Opening(c, a).1 && ReadyToSend(c) && c.phase != End ==> d.phase == Publishing)
  {
    hide ReadyToSend;
    ReadyStays(c, Started(c));
    ReadyStays(c, Initialised(c));
    ReadyStays(c, Initialised(Started(c)));
  }

  lemma ReadyStays(c: Context, d: Context)
    requires d == c.(phase := d.phase, calls := d.calls)
    ensures ReadyToSend(d) == ReadyToSend(c)
  {
  }

  lemma OpeningCalls(c: Context, a: Answers)
    requires FramesOk(c) && CallsOk(c)
    ensures FramesOk(Opening(c, a).0) && CallsOk(Opening(c, a).0)
  {
    hide CallsOk, FramesOk, ReadyToSend, Started, Initialised;
    StartedOk(c);
    var c1 := if c.phase == Begin then Started(c) else c;
    InitialisedOk(c1);
  }

  lemma StartedOk(c: Context)
    requires FramesOk(c) && CallsOk(c)
    ensures FramesOk(Started(c)) && CallsOk(Started(c))
  {
    hide CallsOk, FramesOk;
    CallKeeps(c, StartIngest);
    SameOk(c, Started(c));
  }

  lemma InitialisedOk(c: Context)
    requires FramesOk(c) && CallsOk(c)
    ensures FramesOk(Initialised(c)) && CallsOk(Initialised(c))
  {
    hide CallsOk, FramesOk;
    CallKeeps(c, InitSegment);
    SameOk(c, Initialised(c));
  }

  lemma OpeningKeeps(c: Context, a: Answers)
    requires Invariant(c)
    ensures var d := Opening(c, a).0;
      && Invariant(d) && Rank(c.phase) <= Rank(d.phase) && d == c.(phase := d.phase, calls := d.calls)
      && (c.phase == End || c.phase == Publishing ==> Opening(c, a) == (c, true))
      && (d.phase == End ==> c.phase == End)
      && (Opening(c, a).1 && ReadyToSend(c) && c.phase != End ==> d.phase == Publishing)
  {
    hide CallsOk, FramesOk, PhaseOk, Opening, ReadyToSend;
    OpeningPhase(c, a);
    OpeningCalls(c, a);
  }

  lemma SendingKeeps(c: Context, a: Answers)
    requires Invariant(c)
    ensures var (d, done) := Sending(c, a);
      && Invariant(d) && d.phase == c.phase && SameElse(c, d) && Frames(d) == Frames(c)
      && (done && c.phase == Publishing ==> d.queue == [])
      && (c.phase == End ==> d == c)
  {
    hide CallsOk, FramesOk, SendQueue;
    SendKeeps(c, a);
  }

  lemma ClosingKeeps(c: Context)
    requires Invariant(c)
    ensures var d := Closing(c);
      && Invariant(d) && Rank(c.phase) <= Rank(d.phase) && d == c.(phase := d.phase, calls := d.calls)
      && (c.phase == End ==> d == c)
  {
    hide CallsOk, FramesOk;
    CallKeeps(c, StopIngest);
    SameOk(c, c.(phase := End, calls := c.calls + [StopIngest]));
  }

  lemma PublishKeeps(c: Context, a: Answers)
    requires Invariant(c)
    ensures Invariant(Published(c, a)) && Rank(c.phase) <= Rank(Published(c, a).phase)
    ensures Frames(Published(c, a)) == Frames(c)
    ensures c.phase == End ==> Published(c, a) == c
    ensures Published(c, a).phase == End && c.phase != End && ReadyToSend(c) ==> Published(c, a).queue == []
  {
    hide Invariant, Opening, Sending, Closing, ReadyToSend;
    OpeningKeeps(c, a);
    var c2 := Opening(c, a).0;
    SendingKeeps(c2, a);
    ClosingKeeps(Sending(c2, a).0);
  }

  /** The frames do not depend on the phase, nor on the calls; the calls do not depend on the phase. */
  lemma SameOk(c: Context, d: Context)
    requires FramesOk(c) && d == c.(phase := d.phase, calls := d.calls)
    requires CallsOk(c.(calls := d.calls))
    ensures FramesOk(d) && CallsOk(d) && Frames(d) == Frames(c)
  {
    hide Numbered, KeyFirst, HasKey;
  }

  lemma StepKeeps(c: Context, e: Event)
    requires Invariant(c)
    ensures Invariant(Step(c, e)) && Rank(c.phase) <= Rank(Step(c, e).phase)
    ensures c.phase == End ==>
              var d := Step(c, e); d.phase == End && d.delivered == c.delivered && d.calls == c.calls
    ensures e.OnMessage? && !Process(c, e.m).1 ==> Step(c, e) == c
  {
    hide Published, Process, FramesOk, CallsOk;
    match e {
      case OnMessage(m, a) =>
        ProcessKeeps(c, m);
        var d := Process(c, m).0;
        ProcessSends(c, m);
        if Process(c, m).1 { PublishKeeps(d, a); }
      case SetReadyToEnd(ready) => FlagKeeps(c, ready);
      case OnPublish(a) => PublishKeeps(c, a);
    }
  }

  lemma ProcessSends(c: Context, m: Message)
    ensures Process(c, m).0.delivered == c.delivered && Process(c, m).0.calls == c.calls
  {
  }

  lemma FlagKeeps(c: Context, ready: bool)
    requires Invariant(c)
    ensures Invariant(c.(readyToEnd := ready))
  {
  }

  /** In every run, with the ingest library answering as it likes: the invariant holds and the phase never goes back. */
  lemma {:induction false} RunKeeps(c: Context, events: seq<Event>)
    requires Invariant(c)
    ensures Invariant(Run(c, events)) && Rank(c.phase) <= Rank(Run(c, events).phase)
    decreases |events|
  {
    hide Step, Invariant;
    if events != [] {
      StepKeeps(c, events[0]);
      RunKeeps(Step(c, events[0]), events[1..]);
    }
  }

  lemma NoFrames(c: Context)
    requires c.delivered == [] && c.queue == [] && c.calls == [] && !c.firstVideoKeyFrameSent
    requires c.frameNumber == c.audioFrameNumber == c.videoFrameNumber == 0
    ensures FramesOk(c) && CallsOk(c)
  {
    assert Frames(c) == [];
    assert Numbers([]) == [];
  }

  lemma NewKeeps()
    ensures Invariant(NEW_CONTEXT)
  {
    hide FramesOk, CallsOk;
    NoFrames(NEW_CONTEXT);
  }

  /** What a whole run from a new context has delivered and still holds. */
  lemma RunDelivers(events: seq<Event>)
    ensures var c := Run(NEW_CONTEXT, events);
      && Numbered(c.delivered + c.queue) && |c.delivered| + |c.queue| == c.frameNumber
      && KeyFirst(c.delivered + c.queue)
      && c.videoFrameNumber == Videos(c.delivered + c.queue) && c.audioFrameNumber == c.frameNumber - c.videoFrameNumber
      && (c.delivered != [] ==> c.audioCodecKnown && c.videoCodecKnown)
      && Chunks(c.calls) == Numbers(c.delivered) && SegmentsOpened(c.calls)
  {
    hide Run, Numbered, KeyFirst, Chunks, SegmentsOpened, Videos, Invariant;
    NewKeeps();
    RunKeeps(NEW_CONTEXT, events);
    InvariantMeans(Run(NEW_CONTEXT, events));
  }

  lemma InvariantMeans(c: Context)
    requires Invariant(c)
    ensures Numbered(c.delivered + c.queue) && |c.delivered| + |c.queue| == c.frameNumber
    ensures KeyFirst(c.delivered + c.queue)
    ensures c.videoFrameNumber == Videos(c.delivered + c.queue)
    ensures c.audioFrameNumber == c.frameNumber - c.videoFrameNumber
    ensures c.delivered != [] ==> c.audioCodecKnown && c.videoCodecKnown
    ensures Chunks(c.calls) == Numbers(c.delivered) && SegmentsOpened(c.calls)
  {
    hide Numbered, KeyFirst, Chunks, SegmentsOpened, Videos;
  }

  lemma InvariantPhase(c: Context)
    requires Invariant(c)
    ensures c.phase == Publishing ==> ReadyToSend(c)
  {
  }

  predicate AudioHeader(e: Event) { e.OnMessage? && e.m == AacSequenceHeader(true) }

  predicate VideoHeader(e: Event) { e.OnMessage? && e.m == AvcSequenceHeader(true) }

  lemma ProcessCodecs(c: Context, m: Message)
    ensures Process(c, m).0.audioCodecKnown == (c.audioCodecKnown || m == AacSequenceHeader(true))
    ensures Process(c, m).0.videoCodecKnown == (c.videoCodecKnown || m == AvcSequenceHeader(true))
  {
  }

  lemma CodecStep(c: Context, e: Event)
    ensures Step(c, e).audioCodecKnown == (c.audioCodecKnown || AudioHeader(e))
    ensures Step(c, e).videoCodecKnown == (c.videoCodecKnown || VideoHeader(e))
  {
    hide Published, Process;
    match e {
      case OnMessage(m, a) =>
        ProcessCodecs(c, m);
        PublishKeepsCodecs(Process(c, m).0, a);
      case SetReadyToEnd(_) =>
      case OnPublish(a) => PublishKeepsCodecs(c, a);
    }
  }

  lemma PublishKeepsCodecs(c: Context, a: Answers)
    ensures Published(c, a).audioCodecKnown == c.audioCodecKnown && Published(c, a).videoCodecKnown == c.videoCodecKnown
  {
    hide Opening, Sending, Closing;
    OpeningCodecs(c, a);
    SendingCodecs(Opening(c, a).0, a);
    ClosingCodecs(Sending(Opening(c, a).0, a).0);
  }

  lemma OpeningCodecs(c: Context, a: Answers)
    ensures var d := Opening(c, a).0; d == c.(phase := d.phase, calls := d.calls)
  {
  }

  lemma SendingCodecs(c: Context, a: Answers)
    ensures SameElse(c, Sending(c, a).0)
  {
    hide Deliver;
    DeliverKeepsElse(c, if a.frames < |c.queue| then a.frames else |c.queue|);
  }

  lemma ClosingCodecs(c: Context)
    ensures var d := Closing(c); d == c.(phase := d.phase, calls := d.calls)
  {
  }

  lemma {:induction false} DeliverKeepsElse(c: Context, n: nat)
    requires n <= |c.queue|
    ensures SameElse(c, Deliver(c, n))
    decreases n
  {
    if n > 0 { DeliverKeepsElse(DeliverFront(c), n - 1); }
  }

  /** The codec infos are known exactly when a sequence header of that kind has come and been parsed. */
  lemma {:induction false} CodecsFromHeaders(c: Context, events: seq<Event>)
    ensures Run(c, events).audioCodecKnown
       <==> c.audioCodecKnown || exists k :: 0 <= k < |events| && AudioHeader(events[k])
    ensures Run(c, events).videoCodecKnown
       <==> c.videoCodecKnown || exists k :: 0 <= k < |events| && VideoHeader(events[k])
    decreases |events|
  {
    hide Step, AudioHeader, VideoHeader;
    if events != [] {
      CodecStep(c, events[0]);
      CodecsFromHeaders(Step(c, events[0]), events[1..]);
      assert forall k :: 0 < k < |events| ==> events[k] == events[1..][k - 1];
    }
  }

  /** Entering the end from publishing leaves nothing behind; frames are only left when it was never ready to send. */
  lemma EndIsEmpty(events: seq<Event>, a: Answers)
    ensures var c := Run(NEW_CONTEXT, events);
      var d := Published(c, a);
      && (c.phase == Publishing && d.phase == End ==> d.queue == [])
      && (c.phase != End && d.phase == End && d.queue != [] ==> !ReadyToSend(c))
  {
    hide Run, Published, FramesOk, CallsOk;
    NewKeeps();
    RunKeeps(NEW_CONTEXT, events);
    InvariantPhase(Run(NEW_CONTEXT, events));
    PublishKeeps(Run(NEW_CONTEXT, events), a);
  }

  // ---------- The context as the object that is shared ----------

  /** The first frames of a queue delivered one by one. */
  lemma {:induction false} DeliverStep(c: Context, n: nat)
    requires n < |c.queue|
    ensures Deliver(c, n).queue == c.queue[n..]
    ensures Deliver(c, n).queue != [] && Deliver(c, n + 1) == DeliverFront(Deliver(c, n))
    decreases n
  {
    var d := DeliverFront(c);
    if n > 0 {
      DeliverStep(d, n - 1);
      assert c.queue[1..][n - 1..] == c.queue[n..];
    } else {
      assert Deliver(d, 0) == d && c.queue[0..] == c.queue;
    }
  }

  class MediaPublishEsContext {
    var phase: Phase
    var audioCodecKnown: bool
    var videoCodecKnown: bool
    var videoEos: bool
    var readyToEnd: bool
    var queue: seq<Frame>
    var frameNumber: nat
    var audioFrameNumber: nat
    var videoFrameNumber: nat
    var firstVideoKeyFrameSent: bool
    ghost var delivered: seq<Frame>
    ghost var calls: seq<Call>

    constructor ()
      ensures Now() == NEW_CONTEXT
    {
      phase, audioCodecKnown, videoCodecKnown, videoEos, readyToEnd := Begin, false, false, false, false;
      queue, frameNumber, audioFrameNumber, videoFrameNumber, firstVideoKeyFrameSent := [], 0, 0, 0, false;
      delivered, calls := [], [];
    }

    ghost function Now(): Context
      reads this
    {
      Context(phase, audioCodecKnown, videoCodecKnown, videoEos, readyToEnd, queue, frameNumber, audioFrameNumber,
              videoFrameNumber, firstVideoKeyFrameSent, delivered, calls)
    }

    method Push(video: bool, key: bool)
      modifies this
      ensures Now() == PushFrame(old(Now()), video, key)
    {
      queue := queue + [Frame(frameNumber + 1, video, key)];
      frameNumber := frameNumber + 1;
      if video { videoFrameNumber := videoFrameNumber + 1; } else { audioFrameNumber := audioFrameNumber + 1; }
    }

    /** process_flv_es_message. */
    method ProcessFlvEsMessage(m: Message) returns (ok: bool)
      modifies this
      ensures (Now(), ok) == Process(old(Now()), m)
    {
      match m {
        case AacSequenceHeader(parsed) =>
          if !parsed { return false; }
          audioCodecKnown := true;
        case AacRaw(parsed) =>
          if !parsed { return false; }
          Push(false, true);
        case AvcSequenceHeader(parsed) =>
          if !parsed { return false; }
          videoCodecKnown := true;
        case AvcNalu(parsed, frameType) =>
          if !parsed { return false; }
          if frameType != KEY_FRAME {
            if !firstVideoKeyFrameSent { return false; }
          } else {
            firstVideoKeyFrameSent := true;
          }
          Push(true, frameType == KEY_FRAME);
        case AvcEndOfSequence(empty) =>
          videoEos := !empty;
        case Unparsable =>
          return false;
      }
      return true;
    }

    /** The loop of publish_to_streamer over the queue; do_es_ingest opens a segment and then sends the chunk. */
    method SendFrames(a: Answers) returns (done: bool)
      requires phase == Publishing
      modifies this
      ensures (Now(), done) == Sending(old(Now()), a)
    {
      ghost var c := Now();
      ghost var n := 0;
      var left := a.frames;
      while queue != []
        invariant 0 <= n <= |c.queue| && n <= a.frames && left == a.frames - n && queue == c.queue[n..]
        invariant Now() == Deliver(c, n)
      {
        if left == 0 {
          if a.segmentOpened { calls := calls + [OnSegment(queue[0].number)]; }
          return false;
        }
        DeliverStep(c, n);
        var es := queue[0];
        calls := calls + [OnSegment(es.number), OnEsChunk(es.number)];
        delivered := delivered + [es];
        queue := queue[1..];
        left, n := left - 1, n + 1;
      }
      return true;
    }

    /** publish_to_streamer. */
    method PublishToStreamer(a: Answers)
      modifies this
      ensures Now() == Published(old(Now()), a)
    {
      hide Sending;
      if phase == Begin {
        if !a.start { return; }
        phase := Initial;
        calls := calls + [StartIngest];
      }
      if phase == Initial && audioCodecKnown && videoCodecKnown && videoFrameNumber >= 1 && audioFrameNumber >= 1 {
        if !a.init { return; }
        phase := Publishing;
        calls := calls + [InitSegment];
      }
      ghost var c2 := Now();
      assert (c2, true) == Opening(old(Now()), a);
      if phase == Publishing {
        var done := SendFrames(a);
        if !done { return; }
      } else {
        NotSending(c2, a);
      }
      if phase != End && (readyToEnd || videoEos) {
        calls := calls + [StopIngest];
        phase := End;
      }
    }
  }

  lemma NotSending(c: Context, a: Answers)
    requires c.phase != Publishing
    ensures Sending(c, a) == (c, true)
  {
  }
}
