/** The events that a parser sends to a Handler, and the log of those already sent. */
module Sax {
  import opened Bytes

  datatype Event =
    | Null
    | Bool(b: bool)
    | Int(n: int)
    | Uint(n: int)
    | Int64(n: int)
    | Uint64(n: int)
    | Double(lexeme: bytes)
    | String(text: bytes)
    | Key(text: bytes)
    | StartObject
    | EndObject(count: nat)
    | StartArray
    | EndArray(count: nat)

  type Log = seq<Event>

  /** An event without the sign of a zero: for "-0" the reader sends Int(0), for "0" Uint(0). */
  function Plain(e: Event): Event { if e == Int(0) then Uint(0) else e }

  function Plained(log: Log): Log { seq(|log|, i requires 0 <= i < |log| => Plain(log[i])) }

  /** From one log to another, these are the events that were sent, up to the sign of a zero. */
  predicate Sends(before: Log, after: Log, events: Log) { Plained(after) == Plained(before) + events }

  lemma SendsOne(log: Log, e: Event)
    ensures Sends(log, log + [e], [Plain(e)])
  {
  }

  lemma SendsBoth(a: Log, b: Log, c: Log, x: Log, y: Log)
    requires Sends(a, b, x) && Sends(b, c, y)
    ensures Sends(a, c, x + y)
  {
    hide Plained;
    assert Plained(a) + x + y == Plained(a) + (x + y);
  }
}
