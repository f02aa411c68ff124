/** What Create, Set and Erase make of a tree, said by its elements and members. */
module PointerEdits {
  import opened Bytes
  import opened Dom
  import opened Pointer
  import opened PointerTree
  import opened Wrappers

  // ---------- Create and Set ----------

  /** The first member of a name. */
  predicate IsFirstNamed(ms: seq<Member>, name: bytes, k: nat) {
    k < |ms| && ms[k].name == name && forall j :: 0 <= j < k ==> ms[j].name != name
  }

  /** The array becomes one with `c` at an index and, behind its own elements, null in front of that. */
  predicate IsFilledUp(vs: seq<Value>, index: nat, c: Value, rs: seq<Value>) {
    && |rs| == index + 1 > |vs|
    && (forall j :: 0 <= j < |vs| ==> rs[j] == vs[j])
    && (forall j :: |vs| <= j < index ==> rs[j] == NullValue)
    && rs[index] == c
  }

  /**
   One token: the place that it gets in `v` held `w` and holds `c` in `r`.  '-' appends to an array; an index leads to
   an element, or fills the array up to it; a name leads to its first member, or appends one.  A value that cannot hold
   the place is replaced: an array by an object where the token is no index, and one that is neither by an array where
   it is an index and by an object where it is not.
   */
  ghost predicate Puts(v: Value, t: Token, w: Value, c: Value, r: Value) {
    match v
    case ArrayValue(vs) =>
      if t.name == [0x2D] then w == NullValue && r == ArrayValue(vs + [c])
      else if t.index == 0xFFFF_FFFF then w == NullValue && r == ObjectValue([Member(t.name, c)])
      else if t.index < |vs| then w == vs[t.index] && r == ArrayValue(vs[t.index := c])
      else w == NullValue && r.ArrayValue? && IsFilledUp(vs, t.index, c, r.elements)
    case ObjectValue(ms) =>
      && r.ObjectValue?
      && (if exists k :: 0 <= k < |ms| && ms[k].name == t.name
          then exists k ::
                 && 0 <= k < |ms| && IsFirstNamed(ms, t.name, k)
                 && w == ms[k].value && r.members == ms[k := Member(t.name, c)]
          else w == NullValue && r.members == ms + [Member(t.name, c)])
    case _ =>
      if t.index == 0xFFFF_FFFF then w == NullValue && r == ObjectValue([Member(t.name, c)])
      else w == NullValue && r.ArrayValue? && IsFilledUp([], t.index, c, r.elements)
  }

  /** All tokens: the last place holds the new value, or, for Create, what it held. */
  ghost predicate Makes(v: Value, ts: seq<Token>, leaf: Option<Value>, r: Value)
    decreases |ts|
  {
    if ts == [] then r == if leaf.Some? then leaf.value else v
    else exists w, c :: Puts(v, ts[0], w, c, r) && Makes(w, ts[1..], leaf, c)
  }

  lemma FirstNamed(ms: seq<Member>, name: bytes, k: nat)
    ensures IsFirstNamed(ms, name, k) <==> k == FindMember(ms, name) < |ms|
  {
    hide FindMember;
    var n := FindMember(ms, name);
  }

  lemma FilledUp(vs: seq<Value>, index: nat, c: Value)
    requires |vs| <= index
    ensures IsFilledUp(vs, index, c, (vs + Nulls(index + 1 - |vs|))[index := c])
  {
  }

  lemma SlotOfArray(vs: seq<Value>, t: Token, c: Value)
    ensures var s := SlotOf(ArrayValue(vs), t);
      Puts(ArrayValue(vs), t, Child(s.container, s.k), c, WithChild(s.container, s.k, c))
  {
    hide IsFilledUp;
    if !IsDash(t) && t.index != INVALID_INDEX && t.index >= |vs| { FilledUp(vs, t.index, c); }
  }

  lemma SlotOfObject(ms: seq<Member>, t: Token, c: Value)
    ensures var s := SlotOf(ObjectValue(ms), t);
      Puts(ObjectValue(ms), t, Child(s.container, s.k), c, WithChild(s.container, s.k, c))
  {
    hide FindMember, IsFirstNamed;
    var k := FindMember(ms, t.name);
    FirstNamed(ms, t.name, k);
    assert k < |ms| ==> ms[k].name == t.name;
  }

  lemma SlotOfOther(v: Value, t: Token, c: Value)
    requires !v.ArrayValue? && !v.ObjectValue?
    ensures var s := SlotOf(v, t);
      Puts(v, t, Child(s.container, s.k), c, WithChild(s.container, s.k, c))
  {
    hide IsFilledUp;
    assert [] + Nulls(t.index + 1) == Nulls(t.index + 1);
    FilledUp([], t.index, c);
  }

  lemma SlotPuts(v: Value, t: Token, c: Value)
    ensures var s := SlotOf(v, t);
      Puts(v, t, Child(s.container, s.k), c, WithChild(s.container, s.k, c))
  {
    hide SlotOf, Puts, WithChild, Child;
    match v {
      case ArrayValue(vs) => SlotOfArray(vs, t, c);
      case ObjectValue(ms) => SlotOfObject(ms, t, c);
      case _ => SlotOfOther(v, t, c);
    }
  }

  lemma FilledOne(vs: seq<Value>, index: nat, c: Value, rs: seq<Value>, rs': seq<Value>)
    requires IsFilledUp(vs, index, c, rs) && IsFilledUp(vs, index, c, rs')
    ensures rs == rs'
  {
  }

  lemma PutsInObject(ms: seq<Member>, t: Token, w: Value, c: Value, r: Value)
    requires Puts(ObjectValue(ms), t, w, c, r)
    ensures var k := FindMember(ms, t.name);
      if k < |ms| then w == ms[k].value && r == ObjectValue(ms[k := Member(t.name, c)])
      else w == NullValue && r == ObjectValue(ms + [Member(t.name, c)])
  {
    hide FindMember, IsFirstNamed;
    var n := FindMember(ms, t.name);
    forall k: nat ensures IsFirstNamed(ms, t.name, k) <==> k == n < |ms| { FirstNamed(ms, t.name, k); }
    assert n == |ms| ==> forall k :: 0 <= k < |ms| ==> ms[k].name != t.name;
    assert n < |ms| ==> ms[n].name == t.name;
  }

  /** There is one old and one new value. */
  lemma PutsOne(v: Value, t: Token, w: Value, w': Value, c: Value, r: Value, r': Value)
    requires Puts(v, t, w, c, r) && Puts(v, t, w', c, r')
    ensures w == w' && r == r'
  {
    if v.ObjectValue? {
      hide *;
      PutsInObject(v.members, t, w, c, r);
      PutsInObject(v.members, t, w', c, r');
    } else {
      hide IsFilledUp;
      var vs := if v.ArrayValue? then v.elements else [];
      if r.ArrayValue? && r'.ArrayValue? && IsFilledUp(vs, t.index, c, r.elements)
        && IsFilledUp(vs, t.index, c, r'.elements)
      {
        FilledOne(vs, t.index, c, r.elements, r'.elements);
      }
    }
  }

  lemma PutsOld(v: Value, t: Token, w: Value, w': Value, c: Value, c': Value, r: Value, r': Value)
    requires Puts(v, t, w, c, r) && Puts(v, t, w', c', r')
    ensures w == w'
  {
    if v.ObjectValue? {
      hide *;
      PutsInObject(v.members, t, w, c, r);
      PutsInObject(v.members, t, w', c', r');
    } else {
      hide IsFilledUp;
    }
  }

  /** Create and Set make exactly the tree that the tokens call for. */
  lemma {:induction false} PlaceMakes(v: Value, ts: seq<Token>, leaf: Option<Value>, r: Value)
    ensures Makes(v, ts, leaf, r) <==> r == Place(v, ts, leaf).root
    decreases |ts|
  {
    hide Puts, SlotOf, WithChild, Child;
    if ts != [] {
      var s := SlotOf(v, ts[0]);
      var w, c := Child(s.container, s.k), Place(Child(s.container, s.k), ts[1..], leaf).root;
      SlotPuts(v, ts[0], c);
      PlaceMakes(w, ts[1..], leaf, c);
      if Makes(v, ts, leaf, r) {
        var w', c' :| Puts(v, ts[0], w', c', r) && Makes(w', ts[1..], leaf, c');
        PutsOld(v, ts[0], w, w', c, c', WithChild(s.container, s.k, c), r);
        PlaceMakes(w, ts[1..], leaf, c');
        PutsOne(v, ts[0], w, w', c, WithChild(s.container, s.k, c), r);
      }
    }
  }

  // ---------- Erase ----------

  /** Where a token leads: to the first member of its name, or to the element at its index. */
  predicate Leads(v: Value, t: Token, k: nat) {
    match v
    case ArrayValue(vs) => t.index == k < |vs| && t.index != 0xFFFF_FFFF
    case ObjectValue(ms) => IsFirstNamed(ms, t.name, k)
    case _ => false
  }

  lemma FindLeads(v: Value, t: Token, k: nat)
    ensures Leads(v, t, k) <==> k == Find(v, t) < Size(v)
  {
    hide FindMember;
    if v.ObjectValue? { FirstNamed(v.members, t.name, k); }
  }

  /** One entry less; those in front of it stay, and those behind it move up. */
  predicate IsWithoutOne<T(==)>(xs: seq<T>, k: nat, rs: seq<T>) {
    && k < |xs| == |rs| + 1
    && (forall j :: 0 <= j < k ==> rs[j] == xs[j])
    && (forall j :: k <= j < |rs| ==> rs[j] == xs[j + 1])
  }

  /** One entry changed. */
  predicate IsWithOne<T(==)>(xs: seq<T>, k: nat, x: T, rs: seq<T>) {
    && k < |xs| == |rs| && rs[k] == x
    && (forall j :: 0 <= j < |xs| && j != k ==> rs[j] == xs[j])
  }

  predicate Drops(v: Value, k: nat, r: Value) {
    match v
    case ArrayValue(vs) => r.ArrayValue? && IsWithoutOne(vs, k, r.elements)
    case ObjectValue(ms) => r.ObjectValue? && IsWithoutOne(ms, k, r.members)
    case _ => false
  }

  predicate Changes(v: Value, k: nat, w: Value, c: Value, r: Value) {
    match v
    case ArrayValue(vs) => k < |vs| && w == vs[k] && r.ArrayValue? && IsWithOne(vs, k, c, r.elements)
    case ObjectValue(ms) =>
      k < |ms| && w == ms[k].value && r.ObjectValue? && IsWithOne(ms, k, Member(ms[k].name, c), r.members)
    case _ => false
  }

  /** Every token leads somewhere, and what the last one leads to is dropped. */
  ghost predicate Erases(v: Value, ts: seq<Token>, r: Value)
    decreases |ts|
  {
    && ts != []
    && exists k :: Leads(v, ts[0], k)
         && if |ts| == 1 then Drops(v, k, r)
            else exists w, c :: Changes(v, k, w, c, r) && Erases(w, ts[1..], c)
  }

  lemma WithoutDrops(v: Value, k: nat, r: Value)
    requires k < Size(v)
    ensures Drops(v, k, r) <==> r == WithoutChild(v, k)
  {
    match v {
      case ArrayValue(vs) =>
        if Drops(v, k, r) { assert r.elements == vs[..k] + vs[k + 1..]; }
      case ObjectValue(ms) =>
        if Drops(v, k, r) { assert r.members == ms[..k] + ms[k + 1..]; }
    }
  }

  lemma WithChanges(v: Value, k: nat, w: Value, c: Value, r: Value)
    requires k < Size(v)
    ensures Changes(v, k, w, c, r) <==> w == Child(v, k) && r == WithChild(v, k, c)
  {
    match v {
      case ArrayValue(vs) =>
        if Changes(v, k, w, c, r) { assert r.elements == vs[k := c]; }
      case ObjectValue(ms) =>
        if Changes(v, k, w, c, r) { assert r.members == ms[k := Member(ms[k].name, c)]; }
    }
  }

  /** Erase takes out exactly what the pointer leads to. */
  lemma {:induction false} EraseErases(v: Value, ts: seq<Token>, r: Value)
    ensures Erases(v, ts, r) <==> Erase(v, ts) == Some(r)
    decreases |ts|
  {
    hide Leads, Find, Drops, Changes, WithoutChild, WithChild, Child;
    if ts != [] {
      forall k ensures Leads(v, ts[0], k) <==> k == Find(v, ts[0]) < Size(v) { FindLeads(v, ts[0], k); }
      var k := Find(v, ts[0]);
      if k < Size(v) {
        WithoutDrops(v, k, r);
        forall w, c
          ensures Changes(v, k, w, c, r) <==> w == Child(v, k) && r == WithChild(v, k, c)
        {
          WithChanges(v, k, w, c, r);
        }
        forall c ensures Erases(Child(v, k), ts[1..], c) <==> Erase(Child(v, k), ts[1..]) == Some(c) {
          EraseErases(Child(v, k), ts[1..], c);
        }
      }
    }
  }

  /** The pointers part, and at an array the other one does not go behind the element that is erased. */
  predicate Spared(v: Value, ts: seq<Token>, us: seq<Token>)
    decreases |ts|
  {
    && ts != [] && us != [] && Find(v, ts[0]) < Size(v)
    && if |ts| == 1 then
         if v.ArrayValue? then us[0].index < ts[0].index || us[0].index == INVALID_INDEX
         else us[0].name != ts[0].name
       else
         Find(v, us[0]) == Find(v, ts[0]) ==> Spared(Child(v, Find(v, ts[0])), ts[1..], us[1..])
  }

  lemma DroppedMember(ms: seq<Member>, k: nat, name: bytes)
    requires k < |ms| && ms[k].name != name
    ensures var rs := ms[..k] + ms[k + 1..]; var n := FindMember(ms, name);
      if n == |ms| then FindMember(rs, name) == |rs|
      else FindMember(rs, name) < |rs| && rs[FindMember(rs, name)] == ms[n]
  {
    hide FindMember;
    var rs, n := ms[..k] + ms[k + 1..], FindMember(ms, name);
    FindMemberIs(rs, name, if n < k then n else n - 1);
  }

  lemma SparedOne(v: Value, t: Token, u: Token)
    requires Find(v, t) < Size(v)
    requires if v.ArrayValue? then u.index < t.index || u.index == INVALID_INDEX else u.name != t.name
    ensures var r := WithoutChild(v, Find(v, t));
      if Find(v, u) >= Size(v) then Find(r, u) >= Size(r)
      else Find(r, u) < Size(r) && Child(r, Find(r, u)) == Child(v, Find(v, u))
  {
    hide FindMember;
    if v.ObjectValue? { DroppedMember(v.members, Find(v, t), u.name); }
  }

  /** A pointer that parts from the erased one, and goes to no later element there, resolves as before. */
  lemma {:induction false} EraseElsewhere(v: Value, ts: seq<Token>, us: seq<Token>)
    requires Spared(v, ts, us) && Erase(v, ts).Some?
    ensures Get(Erase(v, ts).value, us) == Get(v, us)
    decreases |ts|
  {
    hide Find, WithoutChild, Child, WithChild;
    var k := Find(v, ts[0]);
    if |ts| == 1 {
      SparedOne(v, ts[0], us[0]);
    } else {
      var c := Erase(Child(v, k), ts[1..]).value;
      FindStays(v, k, c, us[0]);
      if Find(v, us[0]) == k { EraseElsewhere(Child(v, k), ts[1..], us[1..]); }
    }
  }
}
