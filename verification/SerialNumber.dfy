/** Serial number arithmetic of sna.h, after RFC 1982. */
module SerialNumber {
  import opened Bytes
  import opened Wrappers

  /** serialnumber: `number` has been reduced modulo the divisor. */
  datatype Serial = Serial(bits: nat, number: nat) {
    function Divisor(): nat { Power2(bits) }

    function Half(): nat
      requires bits > 0
    {
      Power2(bits - 1)
    }

    /** Up to 63 bits the divisor fits uint64_t. */
    predicate Valid() { 0 < bits <= 63 && number < Divisor() }
  }

  /** How often a value goes round the circle, and where it ends. */
  function Rounds(value: nat, d: nat): nat
    requires d > 0
  {
    value / d
  }

  function Reduced(value: nat, d: nat): (r: nat)
    requires d > 0
    ensures r < d
  {
    value % d
  }

  function Times(d: nat, count: nat): nat { d * count }

  function Make(value: nat, bits: nat): (s: Serial)
    requires 0 < bits <= 63
    ensures s.Valid()
  {
    Serial(bits, Reduced(value, Power2(bits)))
  }

  predicate Eq(a: Serial, b: Serial) { a.number == b.number }

  predicate Lt(a: Serial, b: Serial)
    requires a.Valid()
  {
    || (a.number < b.number && b.number - a.number < a.Half())
    || (a.number > b.number && a.number - b.number > a.Half())
  }

  predicate Gt(a: Serial, b: Serial)
    requires a.Valid()
  {
    || (a.number < b.number && b.number - a.number > a.Half())
    || (a.number > b.number && a.number - b.number < a.Half())
  }

  /** How far one must go up from `a` to come to `b`, around the circle. */
  function Distance(a: Serial, b: Serial): nat
    requires a.Valid() && b.Valid() && a.bits == b.bits
  {
    if b.number >= a.number then b.number - a.number else b.number + a.Divisor() - a.number
  }

  /** Section 3.2 of RFC 1982: less means less than half the circle ahead; halfway round neither holds. */
  lemma Compared(a: Serial, b: Serial)
    requires a.Valid() && b.Valid() && a.bits == b.bits
    ensures Lt(a, b) <==> 0 < Distance(a, b) < a.Half()
    ensures Gt(a, b) <==> a.Half() < Distance(a, b)
    ensures Lt(a, b) <==> Gt(b, a)
    ensures !(Eq(a, b) && Lt(a, b)) && !(Eq(a, b) && Gt(a, b)) && !(Lt(a, b) && Gt(a, b))
    ensures Eq(a, b) || Lt(a, b) || Gt(a, b) <==> Distance(a, b) != a.Half()
  {
  }

  predicate IsRolledOver(pre: Serial, next: Serial)
    requires next.Valid()
  {
    pre.bits == next.bits && next.number < pre.number && Gt(next, pre)
  }

  const COUNT_LIMIT: nat := 0x1_0000_0000
  const VALUE_LIMIT: nat := 0x1_0000_0000_0000_0000

  /** unroll with a count: the sum in uint64_t. */
  function Unroll(s: Serial, count: nat): nat { (Times(s.Divisor(), count) + s.number) % VALUE_LIMIT }

  /** unroll with the previous number: the value, and the count in uint32_t; None where the source throws. */
  function UnrollNext(s: Serial, pre: Serial, count: nat): Option<(nat, nat)>
    requires s.Valid()
  {
    if pre.bits != s.bits then None
    else
      var c := if IsRolledOver(pre, s) then (count + 1) % COUNT_LIMIT else count;
      Some((Unroll(s, c), c))
  }

  lemma Quotient(t: nat, d: nat)
    requires d > 0
    ensures t == Times(d, Rounds(t, d)) + Reduced(t, d)
  {
  }

  lemma QuotientIs(t: nat, d: nat, q: nat, r: nat)
    requires d > 0 && t == Times(d, q) + r && r < d
    ensures Rounds(t, d) == q && Reduced(t, d) == r
  {
    Quotient(t, d);
    assert d * (t / d - q) == r - t % d by { assert d * (t / d - q) == d * (t / d) - d * q; }
    Scaled(t / d - q, d);
  }

  lemma Scaled(k: int, d: nat)
    requires d > 0
    ensures k >= 1 ==> d * k >= d
    ensures k <= -1 ==> d * k <= 0 - d
  {
  }

  lemma OneMore(d: nat, q: nat)
    ensures Times(d, q + 1) == Times(d, q) + d && Times(d, 0) == 0 && Times(d, 1) == d
  {
  }

  lemma TimesSum(d: nat, p: nat, q: nat)
    ensures Times(d, p + q) == Times(d, p) + Times(d, q)
  {
  }

  /** One step on the circle: the remainder drops, and by more than half, exactly when the step passes zero. */
  lemma Round(t: nat, u: nat, d: nat, h: nat)
    requires d > 0 && d == 2 * h && t <= u < t + h
    ensures Reduced(u, d) < Reduced(t, d) && Reduced(t, d) - Reduced(u, d) > h <==> Rounds(u, d) == Rounds(t, d) + 1
    ensures !(Reduced(u, d) < Reduced(t, d) && Reduced(t, d) - Reduced(u, d) > h) <==> Rounds(u, d) == Rounds(t, d)
  {
    hide Rounds, Reduced, Times;
    Quotient(t, d);
    var q, n := Rounds(t, d), Reduced(t, d);
    var r := n + (u - t);
    if r < d {
      QuotientIs(u, d, q, r);
    } else {
      OneMore(d, q);
      QuotientIs(u, d, q + 1, r - d);
    }
  }

  /** A step of less than half the circle passes zero exactly when the numbers tell so. */
  lemma RolledOver(t: nat, u: nat, bits: nat)
    requires 0 < bits <= 63 && t <= u < t + Power2(bits - 1)
    ensures var pre, next, d := Make(t, bits), Make(u, bits), Power2(bits);
      && (IsRolledOver(pre, next) <==> Rounds(u, d) == Rounds(t, d) + 1)
      && (!IsRolledOver(pre, next) <==> Rounds(u, d) == Rounds(t, d))
  {
    var d, h := Power2(bits), Power2(bits - 1);
    assert d == 2 * h;
    hide Power2, Rounds, Reduced;
    Round(t, u, d, h);
  }

  /** With the right count, unroll gives the value back. */
  lemma UnrollExact(t: nat, bits: nat)
    requires 0 < bits <= 63 && t < VALUE_LIMIT
    ensures Unroll(Make(t, bits), Rounds(t, Power2(bits))) == t
  {
    hide Power2, Rounds, Reduced, Times;
    Quotient(t, Power2(bits));
  }

  /** Folding unroll over the serial numbers of a sequence, each with the one before. */
  function UnrollAll(pre: Serial, count: nat, ss: seq<Serial>): seq<nat>
    requires forall k :: 0 <= k < |ss| ==> ss[k].Valid()
    decreases |ss|
  {
    if ss == [] then []
    else
      match UnrollNext(ss[0], pre, count)
      case None => []
      case Some(r) => [r.0] + UnrollAll(ss[0], r.1, ss[1..])
  }

  function Serials(ts: seq<nat>, bits: nat): (r: seq<Serial>)
    requires 0 < bits <= 63
    ensures |r| == |ts| && forall k :: 0 <= k < |ts| ==> r[k] == Make(ts[k], bits)
  {
    seq(|ts|, k requires 0 <= k < |ts| => Make(ts[k], bits))
  }

  /** True values in order, with steps of less than half the range, that a 32-bit count can follow. */
  predicate Followable(t: nat, ts: seq<nat>, bits: nat)
    requires bits > 0
    decreases |ts|
  {
    ts != [] ==>
      && t <= ts[0] < t + Power2(bits - 1)
      && ts[0] < VALUE_LIMIT && Rounds(ts[0], Power2(bits)) < COUNT_LIMIT
      && Followable(ts[0], ts[1..], bits)
  }

  /** One timestamp after another, the count being right for the one before. */
  lemma UnrollStep(t: nat, u: nat, bits: nat)
    requires 0 < bits <= 63 && t <= u < t + Power2(bits - 1)
    requires u < VALUE_LIMIT && Rounds(u, Power2(bits)) < COUNT_LIMIT
    ensures UnrollNext(Make(u, bits), Make(t, bits), Rounds(t, Power2(bits))) == Some((u, Rounds(u, Power2(bits))))
  {
    hide IsRolledOver, Unroll, Rounds, Reduced;
    RolledOver(t, u, bits);
    UnrollExact(u, bits);
  }

  /** From a value whose count is right, unroll reconstructs every later true value. */
  lemma {:induction false} UnrollReconstructs(t: nat, ts: seq<nat>, bits: nat)
    requires 0 < bits <= 63 && Followable(t, ts, bits)
    ensures UnrollAll(Make(t, bits), Rounds(t, Power2(bits)), Serials(ts, bits)) == ts
    decreases |ts|
  {
    hide Power2, UnrollNext, Rounds, Reduced, Make;
    if ts != [] {
      UnrollStep(t, ts[0], bits);
      UnrollReconstructs(ts[0], ts[1..], bits);
      assert Serials(ts, bits)[1..] == Serials(ts[1..], bits);
    }
  }

  lemma Power32()
    ensures Power2(32) == COUNT_LIMIT && Power2(31) == 0x8000_0000
  {
    assert Power2(8) == 256;
    assert Power2(16) == 65536;
    assert Power2(24) == 16777216;
    assert Power2(31) == 0x8000_0000;
  }

  /** In order, and by less than half the range of 32 bits. */
  predicate Near(t: nat, u: nat) { t <= u <= t + 0x7FFF_FFFF }

  /**
   For 32-bit timestamps below 2^64 that start in the first round and never step back or by 2^31, the count of zero is
   right.
   */
  lemma TimestampsReconstructed(ts: seq<nat>)
    requires ts != [] && ts[0] < 0x1_0000_0000
    requires forall k :: 0 <= k < |ts| ==> ts[k] < VALUE_LIMIT
    requires forall k :: 0 < k < |ts| ==> Near(ts[k - 1], ts[k])
    ensures UnrollAll(Make(ts[0], 32), 0, Serials(ts[1..], 32)) == ts[1..] && Unroll(Make(ts[0], 32), 0) == ts[0]
  {
    Power32();
    hide Power2, Unroll, Make;
    var rest := ts[1..];
    forall k | 0 < k < |rest| ensures Near(rest[k - 1], rest[k]) {
      assert rest[k] == ts[k + 1] && rest[k - 1] == ts[k] == ts[(k + 1) - 1];
    }
    if rest != [] { assert Near(ts[1 - 1], ts[1]); }
    Followed(ts[0], rest);
    UnrollReconstructs(ts[0], ts[1..], 32);
    UnrollExact(ts[0], 32);
  }

  lemma InRange(t: nat)
    requires t < VALUE_LIMIT
    ensures Rounds(t, COUNT_LIMIT) < COUNT_LIMIT
  {
  }

  lemma {:induction false} Followed(t: nat, ts: seq<nat>)
    requires forall k :: 0 <= k < |ts| ==> ts[k] < VALUE_LIMIT
    requires ts != [] ==> Near(t, ts[0])
    requires forall k :: 0 < k < |ts| ==> Near(ts[k - 1], ts[k])
    ensures Followable(t, ts, 32)
    decreases |ts|
  {
    Power32();
    hide Power2;
    if ts != [] {
      InRange(ts[0]);
      var rest := ts[1..];
      forall k | 0 < k < |rest| ensures Near(rest[k - 1], rest[k]) {
        assert rest[k] == ts[k + 1] && rest[k - 1] == ts[k] == ts[(k + 1) - 1];
      }
      if rest != [] { assert Near(ts[1 - 1], ts[1]); }
      Followed(ts[0], rest);
    }
  }

  /** The free add: the new number and the count; None where the source throws. */
  function Add(s: Serial, delta: nat, count: nat): Option<(Serial, nat)>
    requires s.Valid()
  {
    if delta > s.Half() - 1 then None
    else
      var t := Make(s.number + delta, s.bits);
      Some((t, if IsRolledOver(s, t) then (count + 1) % COUNT_LIMIT else count))
  }

  /** Less than half the range may be added; to a number and its count it adds to the value that they unroll to. */
  lemma AddUnrolls(value: nat, delta: nat, bits: nat)
    requires 0 < bits <= 63
    requires value + delta < VALUE_LIMIT && Rounds(value + delta, Power2(bits)) < COUNT_LIMIT
    ensures var r := Add(Make(value, bits), delta, Rounds(value, Power2(bits)));
      && (r.Some? <==> delta < Power2(bits - 1))
      && (r.Some? ==> r.value.0 == Make(value + delta, bits) && Unroll(r.value.0, r.value.1) == value + delta)
  {
    hide IsRolledOver, Unroll, Rounds, Reduced;
    if delta < Power2(bits - 1) {
      RolledOver(value, value + delta, bits);
      UnrollExact(value + delta, bits);
      ModularSum(value, delta, Power2(bits));
    }
  }

  lemma ModularSum(value: nat, delta: nat, d: nat)
    requires d > 0
    ensures Reduced(Reduced(value, d) + delta, d) == Reduced(value + delta, d)
  {
    hide Rounds, Reduced, Times;
    var r := Reduced(value, d) + delta;
    Quotient(value, d);
    Quotient(r, d);
    TimesSum(d, Rounds(value, d), Rounds(r, d));
    QuotientIs(value + delta, d, Rounds(value, d) + Rounds(r, d), Reduced(r, d));
  }

  /** Section 3.1 of RFC 1982: a sum with less than half the range, not zero, is greater. */
  lemma SumIsGreater(s: Serial, delta: nat)
    requires s.Valid() && 0 < delta < s.Half()
    ensures Add(s, delta, 0).Some? && Lt(s, Add(s, delta, 0).value.0)
  {
    var d := s.Divisor();
    var r := s.number + delta;
    hide Rounds, Reduced, Times;
    OneMore(d, 0);
    if r < d { QuotientIs(r, d, 0, r); } else { QuotientIs(r, d, 1, r - d); }
  }

  /** The object whose member add changes its number. */
  class SerialObject {
    const bits: nat
    var number: nat

    constructor (value: nat, bits: nat)
      requires 0 < bits <= 63
      ensures Now() == Make(value, bits) && Now().Valid()
    {
      this.bits := bits;
      number := Reduced(value, Power2(bits));
    }

    function Now(): Serial
      reads this
    {
      Serial(bits, number)
    }

    /** add: refuses another width and more than half the range. */
    method Add(o: Serial) returns (r: Option<nat>)
      requires Now().Valid() && o.Valid()
      modifies this`number
      ensures Now().Valid()
      ensures r.Some? <==> o.bits == bits && o.number < old(Now()).Half()
      ensures r.Some? ==> r.value == number && Distance(old(Now()), Now()) == o.number
      ensures r.None? ==> number == old(number)
    {
      if bits != o.bits { return None; }
      if o.number > Power2(bits - 1) - 1 { return None; }
      Wrapped(number + o.number, Power2(bits));
      number := Reduced(number + o.number, Power2(bits));
      return Some(number);
    }
  }

  lemma Wrapped(r: nat, d: nat)
    requires d > 0 && r < 2 * d
    ensures Reduced(r, d) == if r < d then r else r - d
  {
    hide Rounds, Reduced, Times;
    OneMore(d, 0);
    if r < d { QuotientIs(r, d, 0, r); } else { QuotientIs(r, d, 1, r - d); }
  }
}
