/** Create, Get, Set and Erase of GenericPointer, on trees as values. */
module PointerTree {
  import opened Bytes
  import opened Characters
  import opened Dom
  import opened Pointer
  import opened Wrappers
  import Unicode

  predicate IsDash(t: Token) { t.name == [MINUS] }

  /** '-' is no index, as in every token that Parse makes. */
  predicate Proper(ts: seq<Token>) { forall k :: 0 <= k < |ts| && IsDash(ts[k]) ==> ts[k].index == INVALID_INDEX }

  /** One pass stores a digit, or something that is none. */
  lemma StepDigits(s: bytes, i: nat, fragment: bool)
    requires i < |s| && TokenStep(s, i, fragment).Stored?
    ensures TokenStep(s, i, fragment).digit <==> AllDigits(TokenStep(s, i, fragment).units)
  {
    hide Triplets;
    var u, t := TokenStep(s, i, fragment).units, Triplets(s, i);
    assert AllDigits(u) ==> IsDigit(u[0]);
    if fragment && s[i] == PERCENT && Unicode.Decode(t, 0).next > 1 {
      assert u[0] == At(t, 0) >= 0x80;
    }
  }

  lemma DigitsConcat(a: bytes, b: bytes)
    ensures AllDigits(a + b) <==> AllDigits(a) && AllDigits(b)
  {
    DigitsSplit(a + b, |a|);
    assert (a + b)[..|a|] == a && (a + b)[|a|..] == b;
  }

  lemma {:induction false} NameDigits(s: bytes, i: nat, fragment: bool)
    requires i <= |s| && Name(s, i, fragment).Segment?
    ensures Name(s, i, fragment).digits <==> AllDigits(Name(s, i, fragment).name)
    decreases |s| - i
  {
    hide TokenStep, AllDigits;
    if i < |s| && s[i] != SLASH {
      var next := TokenStep(s, i, fragment).next;
      StepDigits(s, i, fragment);
      NameDigits(s, next, fragment);
      DigitsConcat(TokenStep(s, i, fragment).units, Name(s, next, fragment).name);
    } else {
      NoDigits();
    }
  }

  lemma NoDigits()
    ensures AllDigits([])
  {
  }

  /** Every token's index is the one that its name stands for. */
  predicate Indexed(ts: seq<Token>) {
    forall k :: 0 <= k < |ts| ==> ts[k].index == IndexOf(ts[k].name, AllDigits(ts[k].name))
  }

  lemma {:induction false} TokensIndexed(s: bytes, i: nat, fragment: bool)
    requires i <= |s| && (i == |s| || s[i] == SLASH) && Tokens(s, i, fragment).Ok?
    ensures Indexed(Tokens(s, i, fragment).tokens)
    decreases |s| - i
  {
    hide Name, IndexOf, AllDigits;
    if i < |s| {
      NameDigits(s, i + 1, fragment);
      TokensIndexed(s, Name(s, i + 1, fragment).next, fragment);
    }
  }

  /** Tokens of the same name have the same index. */
  predicate SameIndices(ts: seq<Token>, us: seq<Token>) {
    forall i, j :: 0 <= i < |ts| && 0 <= j < |us| && ts[i].name == us[j].name ==> ts[i].index == us[j].index
  }

  /** In parsed pointers '-' is never an index, and tokens of the same name have the same index. */
  lemma ParsedProper(s: bytes, t: bytes)
    requires Parse(s).Ok? && Parse(t).Ok?
    ensures Proper(Parse(s).tokens) && SameIndices(Parse(s).tokens, Parse(t).tokens)
  {
    hide Tokens, IndexOf;
    TokensIndexed(s, if At(s, 0) == HASH then 1 else 0, At(s, 0) == HASH);
    TokensIndexed(t, if At(t, 0) == HASH then 1 else 0, At(t, 0) == HASH);
    DashIndex();
  }

  lemma DashIndex()
    ensures IndexOf([MINUS], AllDigits([MINUS])) == INVALID_INDEX
  {
    assert !IsDigit([MINUS][0]);
  }

  /** FindMember: the first member of that name, or the number of members. */
  function FindMember(ms: seq<Member>, name: bytes): (k: nat)
    ensures k <= |ms|
    ensures forall j :: 0 <= j < k ==> ms[j].name != name
    ensures k < |ms| ==> ms[k].name == name
  {
    if ms == [] || ms[0].name == name then 0 else 1 + FindMember(ms[1..], name)
  }

  lemma {:induction false} FindMemberIs(ms: seq<Member>, name: bytes, k: nat)
    requires k <= |ms| && forall j :: 0 <= j < k ==> ms[j].name != name
    requires k < |ms| ==> ms[k].name == name
    ensures FindMember(ms, name) == k
  {
    if k > 0 { FindMemberIs(ms[1..], name, k - 1); }
  }

  function Size(v: Value): nat {
    match v
    case ArrayValue(vs) => |vs|
    case ObjectValue(ms) => |ms|
    case _ => 0
  }

  function Child(v: Value, k: nat): (c: Value)
    requires k < Size(v)
    ensures c < v
  {
    match v
    case ArrayValue(vs) => vs[k]
    case ObjectValue(ms) => ms[k].value
  }

  function WithChild(v: Value, k: nat, c: Value): (r: Value)
    requires k < Size(v)
    ensures Size(r) == Size(v) && Child(r, k) == c
    ensures forall j :: 0 <= j < Size(v) && j != k ==> Child(r, j) == Child(v, j)
    ensures r.ArrayValue? == v.ArrayValue? && r.ObjectValue? == v.ObjectValue?
    ensures v.ObjectValue? ==> forall j :: 0 <= j < Size(v) ==> r.members[j].name == v.members[j].name
  {
    match v
    case ArrayValue(vs) => ArrayValue(vs[k := c])
    case ObjectValue(ms) => ObjectValue(ms[k := Member(ms[k].name, c)])
  }

  /** Where a token leads from a value, as Get follows it: a child of the value, or nowhere (Size or more). */
  function Find(v: Value, t: Token): nat {
    match v
    case ObjectValue(ms) => FindMember(ms, t.name)
    case ArrayValue(vs) => if t.index == INVALID_INDEX then |vs| else t.index
    case _ => 0
  }

  function Get(v: Value, ts: seq<Token>): Option<Value> {
    if ts == [] then Some(v)
    else if Find(v, ts[0]) >= Size(v) then None
    else Get(Child(v, Find(v, ts[0])), ts[1..])
  }

  // ---------- Create and Set ----------

  function Nulls(n: nat): (vs: seq<Value>)
    ensures |vs| == n && forall k :: 0 <= k < n ==> vs[k] == NullValue
  {
    if n == 0 then [] else [NullValue] + Nulls(n - 1)
  }

  /** The value changed so that it has a child for the token, that child, and whether it was there before. */
  datatype Slot = Slot(container: Value, k: nat, exist: bool)

  /** SetObject or SetArray when the value cannot hold the token. */
  function Coerced(v: Value, t: Token): Value {
    if t.index == INVALID_INDEX then if v.ObjectValue? then v else ObjectValue([])
    else if v.ArrayValue? || v.ObjectValue? then v
    else ArrayValue([])
  }

  function SlotOf(v: Value, t: Token): (s: Slot)
    ensures s.k < Size(s.container)
  {
    if v.ArrayValue? && IsDash(t) then Slot(ArrayValue(v.elements + [NullValue]), |v.elements|, false)
    else
      var c := Coerced(v, t);
      match c
      case ArrayValue(vs) =>
        if t.index >= |vs| then Slot(ArrayValue(vs + Nulls(t.index + 1 - |vs|)), t.index, false)
        else Slot(c, t.index, true)
      case ObjectValue(ms) =>
        var k := FindMember(ms, t.name);
        if k == |ms| then Slot(ObjectValue(ms + [Member(t.name, NullValue)]), |ms|, false) else Slot(c, k, true)
  }

  /** The new root, and alreadyExist. */
  datatype Created = Created(root: Value, exist: bool)

  /** Create, and then, for Set, the assignment through the reference it returns. */
  function Place(v: Value, ts: seq<Token>, leaf: Option<Value>): Created
    decreases |ts|
  {
    if ts == [] then Created(if leaf.Some? then leaf.value else v, true)
    else
      var s := SlotOf(v, ts[0]);
      var inner := Place(Child(s.container, s.k), ts[1..], leaf);
      Created(WithChild(s.container, s.k, inner.root), s.exist && inner.exist)
  }

  function Create(v: Value, ts: seq<Token>): Created { Place(v, ts, None) }

  function Set(v: Value, ts: seq<Token>, x: Value): Value { Place(v, ts, Some(x)).root }

  /** Create comes to an array with a '-' token, and appends. */
  predicate Appends(v: Value, ts: seq<Token>)
    decreases |ts|
  {
    if ts == [] then false
    else if v.ArrayValue? && IsDash(ts[0]) then true
    else
      var s := SlotOf(v, ts[0]);
      Appends(Child(s.container, s.k), ts[1..])
  }

  lemma WithSame(v: Value, k: nat)
    requires k < Size(v)
    ensures WithChild(v, k, Child(v, k)) == v
  {
  }

  lemma WithTwice(v: Value, k: nat, c: Value, d: Value)
    requires k < Size(v)
    ensures WithChild(WithChild(v, k, c), k, d) == WithChild(v, k, d)
  {
  }

  /** A slot was there before exactly when Get finds it, and then nothing is changed. */
  lemma SlotExists(v: Value, t: Token)
    requires IsDash(t) ==> t.index == INVALID_INDEX
    ensures SlotOf(v, t).exist <==> Find(v, t) < Size(v)
    ensures SlotOf(v, t).exist ==> SlotOf(v, t) == Slot(v, Find(v, t), true)
  {
  }

  /** alreadyExist tells exactly whether Get resolved before; then Create leaves the tree as it was. */
  lemma {:induction false} CreateExists(v: Value, ts: seq<Token>)
    requires Proper(ts)
    ensures Create(v, ts).exist <==> Get(v, ts).Some?
    ensures Create(v, ts).exist ==> Create(v, ts).root == v
    decreases |ts|
  {
    if ts != [] {
      var s := SlotOf(v, ts[0]);
      SlotExists(v, ts[0]);
      CreateExists(Child(s.container, s.k), ts[1..]);
      if s.exist { WithSame(v, s.k); }
    }
  }

  /** The slot that a token gets is the one that Get then follows it to, unless '-' appended it to an array. */
  lemma SlotFound(v: Value, t: Token, c: Value)
    requires IsDash(t) ==> t.index == INVALID_INDEX
    ensures var s := SlotOf(v, t);
      var r := WithChild(s.container, s.k, c);
      && (v.ArrayValue? && IsDash(t) ==> Find(r, t) >= Size(r))
      && (!(v.ArrayValue? && IsDash(t)) ==> Find(r, t) == s.k)
  {
    var s := SlotOf(v, t);
    var r := WithChild(s.container, s.k, c);
    if s.container.ObjectValue? {
      assert s.container.members[s.k].name == t.name;
      FindMemberIs(r.members, t.name, s.k);
    }
  }

  /** After Set the pointer resolves to the value that was set, except when a '-' appended to an array on the way. */
  lemma {:induction false} GetAfterSet(v: Value, ts: seq<Token>, x: Value)
    requires Proper(ts)
    ensures Get(Set(v, ts, x), ts) == if Appends(v, ts) then None else Some(x)
    decreases |ts|
  {
    if ts != [] {
      var s := SlotOf(v, ts[0]);
      var c := Child(s.container, s.k);
      SlotFound(v, ts[0], Set(c, ts[1..], x));
      GetAfterSet(c, ts[1..], x);
    }
  }

  /** A slot that was not there before starts as null, and so does everything below it. */
  lemma NewSlotIsNull(v: Value, t: Token)
    ensures !SlotOf(v, t).exist ==> Child(SlotOf(v, t).container, SlotOf(v, t).k) == NullValue
  {
  }

  lemma {:induction false} NewBelowNull(ts: seq<Token>)
    ensures Place(NullValue, ts, None) == Place(NullValue, ts, Some(NullValue))
  {
    if ts != [] {
      NewSlotIsNull(NullValue, ts[0]);
      NewBelowNull(ts[1..]);
    }
  }

  /** Create of a pointer that did not resolve is Set to null. */
  lemma {:induction false} CreateIsSetNull(v: Value, ts: seq<Token>)
    requires Proper(ts) && Get(v, ts).None?
    ensures Create(v, ts).root == Set(v, ts, NullValue)
    decreases |ts|
  {
    if ts != [] {
      var s := SlotOf(v, ts[0]);
      SlotExists(v, ts[0]);
      if s.exist {
        CreateIsSetNull(Child(s.container, s.k), ts[1..]);
      } else {
        NewSlotIsNull(v, ts[0]);
        NewBelowNull(ts[1..]);
      }
    }
  }

  /** After Create the pointer resolves: to what was there, or else to the new null. */
  lemma GetAfterCreate(v: Value, ts: seq<Token>)
    requires Proper(ts)
    ensures Get(Create(v, ts).root, ts)
         == if Get(v, ts).Some? then Get(v, ts) else if Appends(v, ts) then None else Some(NullValue)
  {
    CreateExists(v, ts);
    if Get(v, ts).None? {
      CreateIsSetNull(v, ts);
      GetAfterSet(v, ts, NullValue);
    }
  }

  /** Setting what is there already changes nothing. */
  lemma {:induction false} SetSame(v: Value, ts: seq<Token>)
    requires Proper(ts) && Get(v, ts).Some?
    ensures Set(v, ts, Get(v, ts).value) == v
    decreases |ts|
  {
    if ts != [] {
      var s := SlotOf(v, ts[0]);
      SlotExists(v, ts[0]);
      SetSame(Child(s.container, s.k), ts[1..]);
      WithSame(v, s.k);
    }
  }

  /** The last of two Sets to the same pointer wins, except when a '-' appends to an array, which it then does twice. */
  lemma {:induction false} SetTwice(v: Value, ts: seq<Token>, x: Value, y: Value)
    requires Proper(ts)
    ensures Set(Set(v, ts, x), ts, y) == Set(v, ts, y) <==> !Appends(v, ts)
    decreases |ts|
  {
    if ts != [] {
      var s := SlotOf(v, ts[0]);
      var c := Child(s.container, s.k);
      var r := Set(v, ts, x);
      SlotFound(v, ts[0], Set(c, ts[1..], x));
      SlotExists(r, ts[0]);
      if v.ArrayValue? && IsDash(ts[0]) {
        assert Size(Set(r, ts, y)) == Size(v) + 2;
      } else {
        SetTwice(c, ts[1..], x, y);
        WithTwice(s.container, s.k, Set(c, ts[1..], x), Set(Set(c, ts[1..], x), ts[1..], y));
        assert Child(Set(r, ts, y), s.k) == Set(Set(c, ts[1..], x), ts[1..], y);
        assert Child(Set(v, ts, y), s.k) == Set(c, ts[1..], y);
      }
    }
  }

  /** A Set of one pointer and the walk of another part at some value on the way: they go to different places in it. */
  predicate Part(v: Value, ts: seq<Token>, us: seq<Token>)
    decreases |ts|
  {
    && ts != [] && us != []
    && var s := SlotOf(v, ts[0]);
       Find(s.container, us[0]) == s.k ==> Part(Child(s.container, s.k), ts[1..], us[1..])
  }

  /** They part at an array that the Set turns into an object, because it comes to it with a name. */
  predicate Wiped(v: Value, ts: seq<Token>, us: seq<Token>)
    decreases |ts|
  {
    && ts != [] && us != []
    && var s := SlotOf(v, ts[0]);
       if Find(s.container, us[0]) == s.k then Wiped(Child(s.container, s.k), ts[1..], us[1..])
       else v.ArrayValue? && s.container.ObjectValue?
  }

  /** They part at an array that the Set fills with nulls up to its index, and the other pointer names one of these. */
  predicate Filled(v: Value, ts: seq<Token>, us: seq<Token>)
    decreases |ts|
  {
    && ts != [] && us != []
    && var s := SlotOf(v, ts[0]);
       if Find(s.container, us[0]) == s.k then Filled(Child(s.container, s.k), ts[1..], us[1..])
       else
         && |us| == 1 && s.container.ArrayValue? && us[0].index != INVALID_INDEX
         && (if v.ArrayValue? then Size(v) else 0) <= us[0].index < s.k
  }

  lemma FindStays(v: Value, k: nat, c: Value, t: Token)
    requires k < Size(v)
    ensures Find(WithChild(v, k, c), t) == Find(v, t)
  {
    if v.ObjectValue? {
      FindMemberIs(WithChild(v, k, c).members, t.name, FindMember(v.members, t.name));
    }
  }

  /** What a token that goes elsewhere finds in the value with the new slot. */
  lemma ElsewhereInSlot(v: Value, t: Token, u: Token)
    requires (IsDash(t) ==> t.index == INVALID_INDEX) && (t.name == u.name ==> t.index == u.index)
    ensures var s := SlotOf(v, t); var k := Find(s.container, u);
      if k == s.k then
        if s.exist then s.container == v else Find(v, u) >= Size(v)
      else if k >= Size(s.container) then
        Find(v, u) >= Size(v) || (v.ArrayValue? && s.container.ObjectValue?)
      else if s.container.ArrayValue? && (if v.ArrayValue? then Size(v) else 0) <= u.index then
        u.index == k < s.k && Child(s.container, k) == NullValue && Find(v, u) >= Size(v)
      else
        && k < Size(v) && Find(v, u) == k && Child(s.container, k) == Child(v, k)
        && v.ArrayValue? == s.container.ArrayValue?
  {
    var s := SlotOf(v, t);
    if s.container.ObjectValue? && v.ObjectValue? && !s.exist {
      var ms := v.members;
      var n := FindMember(ms, u.name);
      var grown := s.container.members;
      assert forall j :: 0 <= j < |ms| ==> grown[j] == ms[j];
      if n < |ms| {
        FindMemberIs(grown, u.name, n);
      } else {
        FindMemberIs(grown, u.name, if u.name == t.name then |ms| else |ms| + 1);
      }
    }
  }

  lemma NothingInNull(ts: seq<Token>)
    ensures Get(NullValue, ts) == if ts == [] then Some(NullValue) else None
  {
  }

  /**
   Any pointer that parts from the one that is set resolves as before, whether the Set replaces a value or creates one,
   with two exceptions: into an array that was turned into an object it resolves no more, and to an element that an
   array was filled up with it resolves to that null.
   */
  lemma {:induction false} SetElsewhere(v: Value, ts: seq<Token>, us: seq<Token>, x: Value)
    requires Proper(ts) && SameIndices(ts, us) && Part(v, ts, us)
    ensures Get(Set(v, ts, x), us)
         == if Wiped(v, ts, us) then None else if Filled(v, ts, us) then Some(NullValue) else Get(v, us)
    decreases |ts|
  {
    hide SlotOf, FindMember;
    var s := SlotOf(v, ts[0]);
    var c := Child(s.container, s.k);
    FindStays(s.container, s.k, Set(c, ts[1..], x), us[0]);
    ElsewhereInSlot(v, ts[0], us[0]);
    NothingInNull(us[1..]);
    if Find(s.container, us[0]) == s.k {
      SetElsewhere(c, ts[1..], us[1..], x);
      NewSlotIsNull(v, ts[0]);
    }
  }

  /** Where the Set replaces a value that is there, neither exception can happen. */
  lemma {:induction false} SetElsewhereExisting(v: Value, ts: seq<Token>, us: seq<Token>)
    requires Proper(ts) && Get(v, ts).Some?
    ensures !Wiped(v, ts, us) && !Filled(v, ts, us)
    decreases |ts|
  {
    if ts != [] && us != [] {
      SlotExists(v, ts[0]);
      SetElsewhereExisting(Child(v, SlotOf(v, ts[0]).k), ts[1..], us[1..]);
    }
  }

  // ---------- Erase ----------

  function WithoutChild(v: Value, k: nat): Value
    requires k < Size(v)
  {
    match v
    case ArrayValue(vs) => ArrayValue(vs[..k] + vs[k + 1..])
    case ObjectValue(ms) => ObjectValue(ms[..k] + ms[k + 1..])
  }

  /** The new root, or None where Erase returns false. */
  function Erase(v: Value, ts: seq<Token>): Option<Value> {
    if ts == [] || Find(v, ts[0]) >= Size(v) then None
    else
      var k := Find(v, ts[0]);
      if |ts| == 1 then Some(WithoutChild(v, k))
      else
        match Erase(Child(v, k), ts[1..])
        case None => None
        case Some(c) => Some(WithChild(v, k, c))
  }

  lemma {:induction false} EraseSucceeds(v: Value, ts: seq<Token>)
    ensures Erase(v, ts).Some? <==> ts != [] && Get(v, ts).Some?
  {
    if |ts| > 1 && Find(v, ts[0]) < Size(v) {
      EraseSucceeds(Child(v, Find(v, ts[0])), ts[1..]);
    }
  }

  /** Create with this pointer adds just its last token: a new member, or the element after the last. */
  predicate AddsLast(v: Value, ts: seq<Token>) {
    && ts != []
    && if |ts| == 1 then
         || (v.ObjectValue? && FindMember(v.members, ts[0].name) == |v.members|)
         || (v.ArrayValue? && ts[0].index == |v.elements| && ts[0].index != INVALID_INDEX)
       else Find(v, ts[0]) < Size(v) && AddsLast(Child(v, Find(v, ts[0])), ts[1..])
  }

  /** Erase undoes such a Create. */
  lemma {:induction false} EraseUndoesCreate(v: Value, ts: seq<Token>)
    requires Proper(ts) && AddsLast(v, ts)
    ensures Erase(Create(v, ts).root, ts) == Some(v)
    decreases |ts|
  {
    var s := SlotOf(v, ts[0]);
    if |ts| == 1 {
      assert Place(Child(s.container, s.k), ts[1..], None).root == NullValue;
      SlotFound(v, ts[0], NullValue);
      WithSame(s.container, s.k);
      match v {
        case ArrayValue(vs) =>
          assert Nulls(1) == [NullValue];
          assert (vs + [NullValue])[..|vs|] + (vs + [NullValue])[|vs| + 1..] == vs;
        case ObjectValue(ms) =>
          var added := ms + [Member(ts[0].name, NullValue)];
          assert added[..|ms|] + added[|ms| + 1..] == ms;
        case _ => assert false;
      }
    } else {
      SlotExists(v, ts[0]);
      var c := Create(Child(v, s.k), ts[1..]).root;
      EraseUndoesCreate(Child(v, s.k), ts[1..]);
      FindStays(v, s.k, c, ts[0]);
      WithTwice(v, s.k, c, Child(v, s.k));
      WithSame(v, s.k);
    }
  }

  /** Nothing takes the place of what a token leads to: no other member of that name, no later element. */
  predicate Gone(v: Value, t: Token)
    requires Find(v, t) < Size(v)
  {
    match v
    case ObjectValue(ms) => forall j :: 0 <= j < |ms| && j != FindMember(ms, t.name) ==> ms[j].name != t.name
    case ArrayValue(vs) => t.index == |vs| - 1
  }

  predicate NoneNamed(ms: seq<Member>, name: bytes) { forall j :: 0 <= j < |ms| ==> ms[j].name != name }

  lemma NoneFound(ms: seq<Member>, name: bytes)
    ensures FindMember(ms, name) == |ms| <==> NoneNamed(ms, name)
  {
  }

  lemma OthersNamed(ms: seq<Member>, name: bytes, k: nat)
    requires k < |ms|
    ensures NoneNamed(ms[..k] + ms[k + 1..], name)
       <==> forall j :: 0 <= j < |ms| && j != k ==> ms[j].name != name
  {
    var r := ms[..k] + ms[k + 1..];
    if NoneNamed(r, name) {
      forall j | 0 <= j < |ms| && j != k ensures ms[j].name != name {
        assert ms[j] == r[if j < k then j else j - 1];
      }
    }
  }

  lemma EraseOne(v: Value, t: Token)
    requires Find(v, t) < Size(v)
    ensures var r := WithoutChild(v, Find(v, t)); Find(r, t) >= Size(r) <==> Gone(v, t)
  {
    hide FindMember, NoneNamed;
    if v.ObjectValue? {
      var k, ms := Find(v, t), v.members;
      OthersNamed(ms, t.name, k);
      NoneFound(ms[..k] + ms[k + 1..], t.name);
    }
  }

  /** The value above an erased one is there, and the last token leads from it to the erased one. */
  lemma {:induction false} EraseParent(v: Value, ts: seq<Token>)
    requires Erase(v, ts).Some?
    ensures ts != [] && Get(v, ts[..|ts| - 1]).Some?
    ensures var w, t := Get(v, ts[..|ts| - 1]).value, ts[|ts| - 1]; Find(w, t) < Size(w)
  {
    if |ts| == 1 {
      assert ts[..0] == [];
    } else {
      assert ts[..|ts| - 1][0] == ts[0] && ts[..|ts| - 1][1..] == ts[1..][..|ts[1..]| - 1];
      EraseParent(Child(v, Find(v, ts[0])), ts[1..]);
    }
  }

  /**
   After Erase the pointer no longer resolves exactly when nothing takes the place of the erased value: in an object no
   other member has its name, and in an array it was the last element.
   */
  lemma {:induction false} GetAfterErase(v: Value, ts: seq<Token>)
    requires Erase(v, ts).Some?
    ensures ts != [] && Get(v, ts[..|ts| - 1]).Some?
    ensures var w, t := Get(v, ts[..|ts| - 1]).value, ts[|ts| - 1];
      Find(w, t) < Size(w) && (Get(Erase(v, ts).value, ts) == None <==> Gone(w, t))
  {
    EraseParent(v, ts);
    var k := Find(v, ts[0]);
    if |ts| == 1 {
      assert ts[..0] == [];
      EraseOne(v, ts[0]);
    } else {
      var c := Child(v, k);
      assert ts[..|ts| - 1][0] == ts[0] && ts[..|ts| - 1][1..] == ts[1..][..|ts[1..]| - 1];
      GetAfterErase(c, ts[1..]);
      FindStays(v, k, Erase(c, ts[1..]).value, ts[0]);
    }
  }

  /** Two members of one name: the second one is found once the first is erased. */
  lemma RepeatedNameStays()
    ensures var v := ObjectValue([Member([0x61], NumberValue(1)), Member([0x61], NumberValue(2))]);
      var ts := [Token([0x61], INVALID_INDEX)];
      Erase(v, ts).Some? && Get(Erase(v, ts).value, ts) == Some(NumberValue(2))
  {
    var ms := [Member([0x61], NumberValue(1)), Member([0x61], NumberValue(2))];
    assert ms[..0] + ms[1..] == [Member([0x61], NumberValue(2))];
  }

  /** An element before the last: the next one moves up. */
  lemma LaterElementMovesUp()
    ensures var v := ArrayValue([NumberValue(1), NumberValue(2)]);
      var ts := [Token([ZERO], 0)];
      Erase(v, ts).Some? && Get(Erase(v, ts).value, ts) == Some(NumberValue(2))
  {
    var vs := [NumberValue(1), NumberValue(2)];
    assert vs[..0] + vs[1..] == [NumberValue(2)];
  }

  // ---------- Get as the walk over the tokens ----------

  lemma {:induction false} GetSplit(v: Value, ts: seq<Token>, n: nat)
    requires n <= |ts|
    ensures Get(v, ts) == match Get(v, ts[..n]) case None => None case Some(w) => Get(w, ts[n..])
  {
    if n == 0 {
      assert ts[..0] == [] && ts[0..] == ts;
    } else {
      assert ts[..n][0] == ts[0] && ts[..n][1..] == ts[1..][..n - 1] && ts[n..] == ts[1..][n - 1..];
      if Find(v, ts[0]) < Size(v) { GetSplit(Child(v, Find(v, ts[0])), ts[1..], n - 1); }
    }
  }

  lemma GetOne(v: Value, t: Token)
    ensures Get(v, [t]) == if Find(v, t) < Size(v) then Some(Child(v, Find(v, t))) else None
  {
    assert [t][1..] == [];
  }

  method FindMemberLoop(ms: seq<Member>, name: bytes) returns (k: nat)
    ensures k == FindMember(ms, name)
  {
    k := 0;
    while k < |ms| && ms[k].name != name
      invariant 0 <= k <= |ms|
      invariant forall j :: 0 <= j < k ==> ms[j].name != name
    {
      k := k + 1;
    }
  }

  /** The value that the pointer resolves to, or the index of the first token that leads nowhere. */
  method Resolve(root: Value, ts: seq<Token>) returns (r: Option<Value>, unresolved: nat)
    ensures r == Get(root, ts)
    ensures r.None? ==> unresolved < |ts| && Get(root, ts[..unresolved]).Some? && Get(root, ts[..unresolved + 1]).None?
  {
    hide Get, Find;
    var v := root;
    var k := 0;
    GetNothing(root, ts);
    while k < |ts|
      invariant 0 <= k <= |ts|
      invariant Get(root, ts[..k]) == Some(v)
    {
      var t := ts[k];
      var next := 0;
      match v {
        case ObjectValue(ms) => next := FindMemberLoop(ms, t.name);
        case ArrayValue(vs) => next := if t.index == INVALID_INDEX then |vs| else t.index;
        case _ =>
      }
      FindMeaning(v, t);
      GetSplit(root, ts[..k + 1], k);
      assert ts[..k + 1][..k] == ts[..k] && ts[..k + 1][k..] == [t];
      GetOne(v, t);
      if next >= Size(v) {
        GetSplit(root, ts, k + 1);
        return None, k;
      }
      v := Child(v, next);
      k := k + 1;
    }
    assert ts[..k] == ts;
    return Some(v), k;
  }

  lemma GetNothing(v: Value, ts: seq<Token>)
    ensures Get(v, ts[..0]) == Some(v)
  {
  }

  lemma FindMeaning(v: Value, t: Token)
    ensures Find(v, t) == match v
                          case ObjectValue(ms) => FindMember(ms, t.name)
                          case ArrayValue(vs) => if t.index == INVALID_INDEX then |vs| else t.index
                          case _ => 0
  {
  }
}
