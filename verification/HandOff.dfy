/**
 AsyncDocumentParser: a producer thread hands parts of a text to a parser thread through one buffer, under a mutex
 with two condition variables.  A step is one critical section, or what a wait or a notify does to a thread.
 */
module HandOff {
  import opened Bytes
  import opened Wrappers

  // ---------- Readers of a stream ----------

  /** What the parser thread asks of AsyncStringStream. */
  datatype Call = Peek | Take

  /** A reader's turn: another call, or its end with a result. */
  datatype Turn<R> = Ask(call: Call) | Stop(result: R)

  /** A reader knows of the text only the answers that it has had, and its next turn follows from them. */
  type Client<R> = seq<byte> -> Turn<R>

  /** How many characters a reader has taken, and the answers it has had. */
  datatype Progress = Progress(pos: nat, heard: seq<byte>)

  /** A reader alone with a whole text, after `n` turns or at its end. */
  function Alone<R>(turn: Client<R>, text: bytes, n: nat): Progress {
    if n == 0 then Progress(0, [])
    else
      var p := Alone(turn, text, n - 1);
      match turn(p.heard)
      case Stop(_) => p
      case Ask(call) => Progress(if call == Take then p.pos + 1 else p.pos, p.heard + [At(text, p.pos)])
  }

  /** Alone with the text, the reader never takes the terminator. */
  ghost predicate Disciplined<R>(turn: Client<R>, text: bytes) {
    forall n: nat ::
      var p := Alone(turn, text, n); turn(p.heard).Ask? && turn(p.heard).call == Take ==> At(text, p.pos) != NUL
  }

  /** After `n` turns the reader has ended. */
  predicate EndsBy<R>(turn: Client<R>, text: bytes, n: nat) { turn(Alone(turn, text, n).heard).Stop? }

  lemma {:induction false} AloneLength<R>(turn: Client<R>, text: bytes, n: nat)
    ensures |Alone(turn, text, n).heard| <= n
    ensures !EndsBy(turn, text, n) ==> |Alone(turn, text, n).heard| == n
  {
    if n > 0 { AloneLength(turn, text, n - 1); }
  }

  lemma {:induction false} AloneEnded<R>(turn: Client<R>, text: bytes, n: nat, m: nat)
    requires EndsBy(turn, text, n) && n <= m
    ensures Alone(turn, text, m) == Alone(turn, text, n)
    decreases m
  {
    if n < m { AloneEnded(turn, text, n, m - 1); }
  }

  // ---------- The threads ----------

  /** The parser thread: outside the stream, asleep in a call, woken from it, or past Parse. */
  datatype Parser = Running | Asleep | Woken | Done

  /** The producer thread: between calls, waiting for finish_, woken from it, in join(), or past the destructor. */
  datatype Producer = Ready | Waiting | Resuming | Joining | Finished

  /**
   `unread` is [src_, end_); `rest` the parts not yet offered; `accepted` the parts put into the stream, `taken` the
   characters that Take returned, `heard` the answers of both calls, and `terminated` says that the destructor has put
   the terminator.
   */
  datatype State = State(
    parser: Parser,
    producer: Producer,
    rest: seq<bytes>,
    unread: bytes,
    completed: bool,
    accepted: seq<bytes>,
    taken: bytes,
    heard: seq<byte>,
    terminated: bool)

  datatype Action =
    | CallStream
    | ResumeParser
    | Complete
    | CallParsePart
    | ResumeProducer
    | Join
    | SpuriousParser
    | SpuriousProducer

  function Init(parts: seq<bytes>): State {
    State(Running, Ready, parts, [], false, [], [], [], false)
  }

  /** finish_.notify_one(): only the producer waits there. */
  function NotifyFinish(s: State): State {
    if s.producer == Waiting then s.(producer := Resuming) else s
  }

  /** notEmpty_.notify_one(): only the parser waits there. */
  function NotifyNotEmpty(s: State): State {
    if s.parser == Asleep then s.(parser := Woken) else s
  }

  /** The body of Peek or Take with the mutex held: it sleeps while the stream is empty. */
  function Stream(s: State, call: Call): State {
    if s.unread == [] then s.(parser := Asleep)
    else
      var answered := s.(parser := Running, heard := s.heard + [s.unread[0]]);
      if call == Peek then answered
      else
        var t := answered.(taken := s.taken + [s.unread[0]], unread := s.unread[1..]);
        if t.unread == [] then NotifyFinish(t) else t
  }

  /** ParsePart for the next part, or the destructor after the last, with the mutex held. */
  function Offer(s: State): State {
    if s.unread != [] && !s.completed then s.(producer := Waiting)
    else if s.rest == [] then NotifyNotEmpty(s.(producer := Joining, unread := [NUL], terminated := true))
    else if s.completed then s.(producer := Ready, rest := s.rest[1..])
    else
      NotifyNotEmpty(
        s.(producer := Ready, rest := s.rest[1..], unread := s.rest[0], accepted := s.accepted + [s.rest[0]]))
  }

  /** The state after an action, or None where the action cannot happen. */
  function Step<R>(turn: Client<R>, s: State, a: Action): Option<State> {
    match a
    case CallStream =>
      if s.parser == Running && turn(s.heard).Ask? then Some(Stream(s, turn(s.heard).call)) else None
    case ResumeParser =>
      if s.parser == Woken && turn(s.heard).Ask? then Some(Stream(s, turn(s.heard).call)) else None
    case Complete =>
      if s.parser == Running && turn(s.heard).Stop? then
        Some(NotifyFinish(s.(parser := Done, completed := true)))
      else None
    case CallParsePart => if s.producer == Ready then Some(Offer(s)) else None
    case ResumeProducer => if s.producer == Resuming then Some(Offer(s)) else None
    case Join => if s.producer == Joining && s.parser == Done then Some(s.(producer := Finished)) else None
    case SpuriousParser => if s.parser == Asleep then Some(s.(parser := Woken)) else None
    case SpuriousProducer => if s.producer == Waiting then Some(s.(producer := Resuming)) else None
  }

  /** Any interleaving: a list of actions, one after the other. */
  function Execute<R>(turn: Client<R>, s: State, actions: seq<Action>): Option<State>
    decreases |actions|
  {
    if actions == [] then Some(s)
    else
      match Step(turn, s, actions[0])
      case None => None
      case Some(t) => Execute(turn, t, actions[1..])
  }

  function Joined(parts: seq<bytes>): bytes {
    if parts == [] then [] else Joined(parts[..|parts| - 1]) + parts[|parts| - 1]
  }

  // ---------- What every step keeps ----------

  /** Taken and unread characters are the accepted parts, and all of them are taken before the terminator is left. */
  predicate Delivered(s: State) {
    && s.taken <= Joined(s.accepted)
    && (!s.terminated ==> s.taken + s.unread == Joined(s.accepted))
    && (s.terminated ==> s.completed || s.taken == Joined(s.accepted))
  }

  /** The reader has come as far as it would alone with the whole text, and the answers are the same. */
  predicate InStep<R>(turn: Client<R>, text: bytes, s: State) {
    && Alone(turn, text, |s.heard|) == Progress(|s.taken|, s.heard)
    && (s.parser == Asleep || s.parser == Woken ==> turn(s.heard).Ask?)
    && (s.parser == Done ==> turn(s.heard).Stop?)
  }

  predicate Hand(parts: seq<bytes>, s: State) {
    && Delivered(s)
    && (s.parser == Asleep ==> s.unread == [])
    && (s.completed <==> s.parser == Done)
    && (s.producer == Waiting ==> s.unread != [] && !s.completed)
    && (s.terminated <==> s.producer == Joining || s.producer == Finished)
    && (s.terminated ==> s.rest == [] && (s.completed || s.unread == [NUL]))
    && (s.producer == Finished ==> s.completed)
    && |s.rest| <= |parts| && s.rest == parts[|parts| - |s.rest|..]
    && |s.accepted| <= |parts| - |s.rest| && s.accepted == parts[..|s.accepted|]
    && (!s.completed ==> |s.accepted| == |parts| - |s.rest|)
  }

  predicate Invariant<R>(turn: Client<R>, parts: seq<bytes>, s: State) {
    Hand(parts, s) && InStep(turn, Joined(parts), s)
  }

  lemma JoinedMore(parts: seq<bytes>, p: bytes)
    ensures Joined(parts + [p]) == Joined(parts) + p
  {
    assert (parts + [p])[..|parts|] == parts;
  }

  lemma {:induction false} JoinedPrefix(parts: seq<bytes>, k: nat)
    requires k <= |parts|
    ensures Joined(parts[..k]) <= Joined(parts)
    decreases |parts|
  {
    if k < |parts| {
      var front := parts[..|parts| - 1];
      JoinedPrefix(front, k);
      assert front[..k] == parts[..k];
    } else {
      assert parts[..k] == parts;
    }
  }

  /** Whatever has been accepted so far, the next unread character is the next one of the whole text. */
  lemma NextOfText(parts: seq<bytes>, s: State)
    requires Hand(parts, s) && !s.completed && s.unread != []
    ensures s.unread[0] == At(Joined(parts), |s.taken|)
    ensures s.terminated ==> At(Joined(parts), |s.taken|) == NUL
  {
    hide Joined;
    JoinedPrefix(parts, |s.accepted|);
    assert parts[..|parts|] == parts;
    if !s.terminated {
      assert Joined(s.accepted)[|s.taken|] == s.unread[0];
    }
  }

  lemma StreamKeepsHand(parts: seq<bytes>, s: State, call: Call)
    requires Hand(parts, s) && s.parser != Done
    requires call == Take && s.unread != [] ==> !s.terminated
    ensures Hand(parts, Stream(s, call))
  {
    hide Joined;
    if s.unread != [] {
      assert s.taken + s.unread == s.taken + [s.unread[0]] + s.unread[1..];
      assert !s.terminated && call == Take ==> s.taken + [s.unread[0]] <= s.taken + s.unread;
    }
  }

  lemma StreamKeeps<R>(turn: Client<R>, parts: seq<bytes>, s: State)
    requires Invariant(turn, parts, s) && s.parser != Done && turn(s.heard).Ask? && Disciplined(turn, Joined(parts))
    ensures Invariant(turn, parts, Stream(s, turn(s.heard).call))
  {
    hide Hand, Joined;
    Completed(parts, s);
    var p := Alone(turn, Joined(parts), |s.heard|);
    if s.unread != [] {
      NextOfText(parts, s);
      assert Alone(turn, Joined(parts), |s.heard| + 1).heard == s.heard + [s.unread[0]];
    }
    StreamKeepsHand(parts, s, turn(s.heard).call);
  }

  lemma Completed(parts: seq<bytes>, s: State)
    requires Hand(parts, s)
    ensures s.completed <==> s.parser == Done
  {
  }

  lemma OfferKeeps(parts: seq<bytes>, s: State)
    requires Hand(parts, s) && (s.producer == Ready || s.producer == Resuming)
    ensures Hand(parts, Offer(s))
  {
    hide Joined, Delivered;
    if s.unread == [] || s.completed {
      if s.rest == [] {
        OfferTerminator(s);
      } else if !s.completed {
        OfferPart(s);
        var n := |s.accepted|;
        assert s.accepted + [s.rest[0]] == parts[..n + 1];
        assert s.rest[1..] == parts[n + 1..];
      } else {
        SameDelivered(s);
        assert s.rest[1..] == parts[|parts| - |s.rest| + 1..];
      }
    } else {
      SameDelivered(s);
    }
  }

  lemma OfferPart(s: State)
    requires Delivered(s) && !s.terminated && s.rest != [] && s.unread == [] && !s.completed
    ensures Delivered(Offer(s))
  {
    hide Joined;
    JoinedMore(s.accepted, s.rest[0]);
    assert s.taken + s.unread == s.taken;
  }

  lemma SameDelivered(s: State)
    requires Delivered(s) && if s.completed then s.rest != [] else s.unread != []
    ensures Delivered(Offer(s))
  {
    hide Joined;
  }

  lemma OfferTerminator(s: State)
    requires Delivered(s) && !s.terminated && s.rest == [] && (s.unread == [] || s.completed)
    ensures Delivered(Offer(s))
  {
    assert s.unread == [] ==> s.taken + s.unread == s.taken;
  }

  /**
   What every action keeps; a new part, or the terminator, is only put into an empty stream or after the parsing has
   completed.
   */
  lemma StepKeeps<R>(turn: Client<R>, parts: seq<bytes>, s: State, a: Action)
    requires Invariant(turn, parts, s) && Disciplined(turn, Joined(parts)) && Step(turn, s, a).Some?
    ensures Invariant(turn, parts, Step(turn, s, a).value)
    ensures var t := Step(turn, s, a).value;
      t.accepted != s.accepted || t.terminated != s.terminated ==> s.unread == [] || s.completed
  {
    hide Disciplined, Alone, Joined;
    match a {
      case CallStream => StreamKeeps(turn, parts, s);
      case ResumeParser => StreamKeeps(turn, parts, s);
      case CallParsePart => OfferKeeps(parts, s);
      case ResumeProducer => OfferKeeps(parts, s);
      case Complete =>
      case Join =>
      case SpuriousParser =>
      case SpuriousProducer =>
    }
  }

  lemma {:induction false} ExecuteKeeps<R>(turn: Client<R>, parts: seq<bytes>, s: State, actions: seq<Action>)
    requires Invariant(turn, parts, s) && Disciplined(turn, Joined(parts)) && Execute(turn, s, actions).Some?
    ensures Invariant(turn, parts, Execute(turn, s, actions).value)
    decreases |actions|
  {
    hide Disciplined, Invariant, Step;
    if actions != [] {
      StepKeeps(turn, parts, s, actions[0]);
      ExecuteKeeps(turn, parts, Step(turn, s, actions[0]).value, actions[1..]);
    }
  }

  lemma Start<R>(turn: Client<R>, parts: seq<bytes>)
    ensures Invariant(turn, parts, Init(parts))
  {
  }

  // ---------- Every interleaving ----------

  /**
   In every interleaving the reader has had exactly the answers that it would have had alone with the joined parts, and
   what Take has returned is a prefix of the accepted parts, in order.
   */
  lemma TakenInOrder<R>(turn: Client<R>, parts: seq<bytes>, actions: seq<Action>)
    requires Disciplined(turn, Joined(parts)) && Execute(turn, Init(parts), actions).Some?
    ensures var s := Execute(turn, Init(parts), actions).value;
      && Alone(turn, Joined(parts), |s.heard|) == Progress(|s.taken|, s.heard)
      && s.accepted <= parts && s.taken <= Joined(s.accepted)
      && (!s.completed && !s.terminated ==> s.taken + s.unread == Joined(s.accepted))
      && (!s.completed && s.terminated ==> s.taken == Joined(parts))
  {
    hide Execute, Joined, Disciplined, Alone;
    Start(turn, parts);
    ExecuteKeeps(turn, parts, Init(parts), actions);
    assert parts[..|parts|] == parts;
  }

  predicate ProducerBlocked(s: State) { s.producer == Waiting || (s.producer == Joining && s.parser != Done) }

  lemma NotBoth(parts: seq<bytes>, s: State)
    requires Hand(parts, s)
    ensures !(s.parser == Asleep && ProducerBlocked(s))
  {
    hide Delivered;
  }

  /** The two threads never wait for each other. */
  lemma NeverBothBlocked<R>(turn: Client<R>, parts: seq<bytes>, actions: seq<Action>)
    requires Disciplined(turn, Joined(parts)) && Execute(turn, Init(parts), actions).Some?
    ensures var s := Execute(turn, Init(parts), actions).value; !(s.parser == Asleep && ProducerBlocked(s))
  {
    hide Execute, Hand, ProducerBlocked, Disciplined, InStep;
    Start(turn, parts);
    ExecuteKeeps(turn, parts, Init(parts), actions);
    NotBoth(parts, Execute(turn, Init(parts), actions).value);
  }

  /** A thread that can go on by itself: no wait, no spurious wake-up. */
  function Next<R>(turn: Client<R>, s: State): Option<Action> {
    if s.producer == Ready then Some(CallParsePart)
    else if s.producer == Resuming then Some(ResumeProducer)
    else if s.producer == Joining && s.parser == Done then Some(Join)
    else if s.parser == Woken then Some(ResumeParser)
    else if s.parser == Running then Some(if turn(s.heard).Ask? then CallStream else Complete)
    else None
  }

  lemma NextIsEnabled<R>(turn: Client<R>, parts: seq<bytes>, s: State)
    requires Invariant(turn, parts, s)
    ensures match Next(turn, s)
            case Some(a) => Step(turn, s, a).Some?
            case None => s.producer == Finished && s.parser == Done
  {
    hide Delivered, Stream, Offer, Alone, Joined;
  }

  /** Until the destructor has returned, some thread can go on, whatever has happened before. */
  lemma SomeThreadCanGoOn<R>(turn: Client<R>, parts: seq<bytes>, actions: seq<Action>)
    requires Disciplined(turn, Joined(parts)) && Execute(turn, Init(parts), actions).Some?
    ensures var s := Execute(turn, Init(parts), actions).value;
      match Next(turn, s)
      case Some(a) => Step(turn, s, a).Some?
      case None => s.producer == Finished && s.parser == Done
  {
    hide Execute, Invariant, Next, Step, Disciplined;
    Start(turn, parts);
    ExecuteKeeps(turn, parts, Init(parts), actions);
    NextIsEnabled(turn, parts, Execute(turn, Init(parts), actions).value);
  }

  // ---------- Every interleaving ends ----------

  /** What is left to do: answers to hear, parts to offer, and where the threads stand. */
  function Left(n: nat, s: State): int {
    3 * (n - |s.heard|) + 3 * |s.rest|
    + (match s.parser case Running => 3 case Woken => 2 case Asleep => 1 case Done => 0)
    + (match s.producer case Ready => 4 case Resuming => 3 case Waiting => 2 case Joining => 1 case Finished => 0)
  }

  predicate IsSpurious(a: Action) { a == SpuriousParser || a == SpuriousProducer }

  function Spurious(actions: seq<Action>): nat {
    if actions == [] then 0 else (if IsSpurious(actions[0]) then 1 else 0) + Spurious(actions[1..])
  }

  /** Every action but a spurious wake-up leaves less to do, and that adds one. */
  lemma StepLeft<R>(turn: Client<R>, n: nat, s: State, a: Action)
    requires Step(turn, s, a).Some?
    ensures var left := Left(n, Step(turn, s, a).value);
      if IsSpurious(a) then left == Left(n, s) + 1 else left < Left(n, s)
  {
  }

  /** A reader that ends alone by its n-th turn hears no more than n answers. */
  lemma HeardBound<R>(turn: Client<R>, parts: seq<bytes>, s: State, n: nat)
    requires Invariant(turn, parts, s) && EndsBy(turn, Joined(parts), n)
    ensures |s.heard| <= n && Left(n, s) >= 0
  {
    hide Hand, Joined;
    AloneLength(turn, Joined(parts), n);
    if |s.heard| > n { AloneEnded(turn, Joined(parts), n, |s.heard|); }
  }

  lemma {:induction false} ExecuteLeft<R>(
    turn: Client<R>, parts: seq<bytes>, s: State, actions: seq<Action>, n: nat)
    requires Invariant(turn, parts, s) && Disciplined(turn, Joined(parts)) && Execute(turn, s, actions).Some?
    requires EndsBy(turn, Joined(parts), n)
    ensures |actions| <= Left(n, s) + 2 * Spurious(actions)
    decreases |actions|
  {
    hide Disciplined, Invariant, Step, Left, EndsBy, IsSpurious;
    HeardBound(turn, parts, s, n);
    if actions != [] {
      var t := Step(turn, s, actions[0]).value;
      StepKeeps(turn, parts, s, actions[0]);
      StepLeft(turn, n, s, actions[0]);
      ExecuteLeft(turn, parts, t, actions[1..], n);
    }
  }

  /**
   If the reader ends alone with the joined parts, then no interleaving goes on for ever: its length is bounded, two
   more for every spurious wake-up.
   */
  lemma EveryRunEnds<R>(turn: Client<R>, parts: seq<bytes>, actions: seq<Action>, n: nat)
    requires Disciplined(turn, Joined(parts)) && Execute(turn, Init(parts), actions).Some?
    requires EndsBy(turn, Joined(parts), n)
    ensures |actions| <= 3 * n + 3 * |parts| + 7 + 2 * Spurious(actions)
  {
    hide Execute, Invariant, Disciplined, EndsBy;
    Start(turn, parts);
    ExecuteLeft(turn, parts, Init(parts), actions, n);
  }

  lemma DoneStopped<R>(turn: Client<R>, parts: seq<bytes>, actions: seq<Action>)
    requires Disciplined(turn, Joined(parts)) && Execute(turn, Init(parts), actions).Some?
    ensures var s := Execute(turn, Init(parts), actions).value; s.parser == Done ==> turn(s.heard).Stop?
  {
    hide Execute, Hand, Disciplined;
    Start(turn, parts);
    ExecuteKeeps(turn, parts, Init(parts), actions);
  }

  /**
   Reading by parts: whatever a reader comes to alone with the joined parts, it comes to in every interleaving; and an
   interleaving that cannot go on has brought it there.
   */
  lemma EndsAsAlone<R>(turn: Client<R>, parts: seq<bytes>, actions: seq<Action>, n: nat)
    requires Disciplined(turn, Joined(parts)) && Execute(turn, Init(parts), actions).Some?
    requires EndsBy(turn, Joined(parts), n)
    ensures var s := Execute(turn, Init(parts), actions).value;
      && (s.parser == Done ==> turn(s.heard) == turn(Alone(turn, Joined(parts), n).heard))
      && (Next(turn, s) == None ==> s.parser == Done && s.producer == Finished)
  {
    hide Execute, Joined, Disciplined, Alone, Next, Step;
    var s := Execute(turn, Init(parts), actions).value;
    TakenInOrder(turn, parts, actions);
    SomeThreadCanGoOn(turn, parts, actions);
    DoneStopped(turn, parts, actions);
    if s.parser == Done {
      if n <= |s.heard| {
        AloneEnded(turn, Joined(parts), n, |s.heard|);
      } else {
        AloneEnded(turn, Joined(parts), |s.heard|, n);
      }
    }
  }
}
