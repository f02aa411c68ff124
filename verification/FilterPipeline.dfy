/** The filterkey program: reader, filter and writer one behind the other. */
module FilterPipeline {
  import opened Accepted
  import opened Bytes
  import opened Dom
  import opened FilterKey
  import opened Sax
  import opened Wrappers
  import G = Grammar
  import R = RoundTrip
  import W = Writer

  /** A filter whose output handler never stops it. */
  function Willing(key: bytes): Setting { Setting(key, (log: Log) => true) }

  const NEW: State := State(0, [], [], true)

  function PlainedOut(s: State): State { s.(out := Plained(s.out)) }

  /** The filter forwards the sign of a zero without looking at it. */
  lemma StepPlained(key: bytes, s: State, e: Event)
    ensures Step(Willing(key), PlainedOut(s), Plain(e)) == PlainedOut(Step(Willing(key), s, e))
  {
    hide Plained;
    SendPlained(key, s, e);
    if e.EndObject? && s.counts != [] { SendPlained(key, s, EndObject(s.counts[|s.counts| - 1])); }
  }

  lemma SendPlained(key: bytes, s: State, e: Event)
    ensures forall counts :: Send(Willing(key), PlainedOut(s).(counts := counts), Plain(e))
                          == PlainedOut(Send(Willing(key), s.(counts := counts), e))
  {
    SendsOne(s.out, e);
  }

  lemma {:induction false} FilterPlained(key: bytes, s: State, log: Log)
    ensures Run(Willing(key), PlainedOut(s), Plained(log)) == PlainedOut(Run(Willing(key), s, log))
    decreases |log|
  {
    hide Step, PlainedOut, Willing;
    if log != [] {
      assert Plained(log)[1..] == Plained(log[1..]);
      StepPlained(key, s, log[0]);
      FilterPlained(key, Step(Willing(key), s, log[0]), log[1..]);
    }
  }

  /** The writer does not print the sign of a zero. */
  lemma {:induction false} WriterPlained(style: W.Style, target: W.Target, st: W.State, log: Log)
    ensures W.Run(style, target, st, Plained(log)) == W.Run(style, target, st, log)
    decreases |log|
  {
    hide W.Placed, W.Popped, W.Decimal, W.Writable;
    if log != [] {
      assert Plained(log)[1..] == Plained(log[1..]);
      if W.Accepts(st, log[0]) && !W.Refuses(target, log[0]) {
        WriterPlained(style, target, W.Step(style, target, st, log[0]), log[1..]);
      }
    }
  }

  lemma {:induction false} FilteredRanged(v: Value, key: bytes)
    requires Ranged(v)
    ensures Ranged(Filtered(v, key))
    decreases v
  {
    match v {
      case ArrayValue(vs) => FilteredElementsRanged(vs, key);
      case ObjectValue(ms) => FilteredMembersRanged(ms, key);
      case _ =>
    }
  }

  lemma {:induction false} FilteredElementsRanged(vs: seq<Value>, key: bytes)
    requires forall k :: 0 <= k < |vs| ==> Ranged(vs[k])
    ensures forall k :: 0 <= k < |vs| ==> Ranged(FilteredElements(vs, key)[k])
    decreases vs
  {
    if vs != [] {
      FilteredRanged(vs[0], key);
      FilteredElementsRanged(vs[1..], key);
    }
  }

  lemma {:induction false} FilteredMembersRanged(ms: seq<Member>, key: bytes)
    requires forall k :: 0 <= k < |ms| ==> Ranged(ms[k].value)
    ensures forall k :: 0 <= k < |FilteredMembers(ms, key)| ==> Ranged(FilteredMembers(ms, key)[k].value)
    decreases ms
  {
    if ms != [] {
      FilteredRanged(ms[0].value, key);
      FilteredMembersRanged(ms[1..], key);
    }
  }

  /**
   Text in, text out, for every text that the reader accepts: the filter sends the events of the filtered tree, up to
   the sign of a zero; if no double is left in it, the writer prints it, and that reads back as it.
   */
  lemma FilterPipeline(c: G.Config, s: bytes, key: bytes, again: G.Config) returns (v: Value)
    requires G.PDocument(c, s).Ok? && R.Willing(again)
    ensures DocumentRun([], G.PDocument(c, s).log) == Some([v])
    ensures var filtered := Run(Willing(key), NEW, G.PDocument(c, s).log);
      && filtered.ok && Plained(filtered.out) == Events(Filtered(v, key), FromText)
      && (W.NoDoubles(Filtered(v, key)) ==>
            var text := W.Print(W.Compact, W.Utf8, 0, Filtered(v, key));
            && W.Run(W.Compact, W.Utf8, W.State([], [], false), filtered.out) == W.Done(W.State(text, [], true))
            && G.PDocument(again, text) == G.Ok(|text|, Events(Filtered(v, key), FromText)))
  {
    hide W.Print, Events, W.Run, G.PDocument, Run, Filtered, Plained, DocumentRun, Ranged, R.Exact, R.Willing;
    v := AcceptedSendsTree(c, s);
    var log, f := G.PDocument(c, s).log, Filtered(v, key);
    FilterPlained(key, NEW, log);
    NothingPlained();
    FilterDocument(Willing(key), v, FromText);
    var filtered := Run(Willing(key), NEW, log);
    if W.NoDoubles(f) {
      FilteredRanged(v, key);
      RangedExact(f);
      R.ExactWritable(W.Utf8, f);
      WriterPlained(W.Compact, W.Utf8, W.State([], [], false), filtered.out);
      W.WriterPrints(W.Compact, W.Utf8, W.State([], [], false), f, FromText);
      assert [] + W.Print(W.Compact, W.Utf8, 0, f) == W.Print(W.Compact, W.Utf8, 0, f);
      R.DocumentRead(W.Compact, W.Utf8, f, again);
    }
  }

  lemma NothingPlained()
    ensures PlainedOut(NEW) == NEW
  {
  }
}
