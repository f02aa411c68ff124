/**
 In-situ string parsing: GenericInsituStringStream reads and writes one buffer, and ParseString
 decodes each string over its own source text.
 */
module Insitu {
  import opened Bytes
  import opened Characters
  import G = Grammar

  /** The two texts agree from a position on, whatever has become of what is before it. */
  predicate SameFrom(s: bytes, t: bytes, i: nat) {
    |s| == |t| && forall k :: i <= k < |s| ==> s[k] == t[k]
  }

  lemma SameAt(s: bytes, t: bytes, i: nat, k: nat)
    requires SameFrom(s, t, i) && i <= k
    ensures At(s, k) == At(t, k)
  {
  }

  lemma HexLocal(s: bytes, t: bytes, i: nat, k: nat)
    requires SameFrom(s, t, i) && i <= k
    ensures G.Hex4(s, k) == G.Hex4(t, k)
  {
    SameAt(s, t, i, k);
    SameAt(s, t, i, k + 1);
    SameAt(s, t, i, k + 2);
    SameAt(s, t, i, k + 3);
  }

  /** A piece of a string body depends on unread text only. */
  lemma PieceLocal(s: bytes, t: bytes, i: nat)
    requires SameFrom(s, t, i)
    ensures G.StringPiece(s, i) == G.StringPiece(t, i)
  {
    hide G.Hex4;
    SameAt(s, t, i, i);
    SameAt(s, t, i, i + 1);
    SameAt(s, t, i, i + 6);
    SameAt(s, t, i, i + 7);
    HexLocal(s, t, i, i + 2);
    HexLocal(s, t, i, i + 8);
  }

  /** A string handed to the handler: its text stands at `head`, with a terminator after it. */
  datatype Handed = Handed(head: nat, text: bytes)

  predicate Intact(buffer: bytes, h: Handed, limit: nat) {
    && h.head + |h.text| < limit <= |buffer|
    && buffer[h.head..h.head + |h.text|] == h.text
    && buffer[h.head + |h.text|] == NUL
  }

  /** Writing at or after `limit` leaves a handed string intact. */
  lemma IntactKept(before: bytes, after: bytes, h: Handed, limit: nat, limit': nat)
    requires Intact(before, h, limit) && limit <= limit' <= |after|
    requires forall k :: 0 <= k < limit ==> after[k] == before[k]
    ensures Intact(after, h, limit')
  {
    assert after[h.head..h.head + |h.text|] == before[h.head..h.head + |h.text|];
  }

  class InsituStream {
    /** The text and its terminator. */
    const buffer: array<byte>
    /** The text as it was given. */
    ghost const text: bytes
    var src: nat
    var dst: nat
    ghost var strings: seq<Handed>

    /** The whole source is there to read from `src` on, and every string handed out so far is where it was put. */
    ghost predicate Valid()
      reads this, buffer
    {
      && buffer.Length == |text| + 1 && src <= |text| && buffer[|text|] == NUL
      && SameFrom(buffer[..|text|], text, src)
      && forall k :: 0 <= k < |strings| ==> Intact(buffer[..], strings[k], src)
    }

    /** Between PutBegin and PutEnd: the write cursor is at or behind the read cursor. */
    ghost predicate Writing(head: nat)
      reads this, buffer
    {
      && buffer.Length == |text| + 1 && head <= dst <= src <= |text| && buffer[|text|] == NUL
      && SameFrom(buffer[..|text|], text, src)
      && forall k :: 0 <= k < |strings| ==> Intact(buffer[..], strings[k], head)
    }

    constructor (a: array<byte>)
      requires a.Length > 0 && a[a.Length - 1] == NUL
      ensures buffer == a && text == a[..a.Length - 1] && Valid() && src == 0 && strings == []
    {
      buffer := a;
      text := a[..a.Length - 1];
      src, dst := 0, 0;
      strings := [];
    }

    function Peek(): byte
      requires src < buffer.Length
      reads this, buffer
    {
      buffer[src]
    }

    /** Everything outside strings only reads. */
    method Take() returns (b: byte)
      requires Valid() && Peek() != NUL
      modifies this`src
      ensures Valid() && src == old(src) + 1 && b == At(text, old(src))
    {
      b := buffer[src];
      src := src + 1;
      forall k | 0 <= k < |strings| ensures Intact(buffer[..], strings[k], src) {
        IntactKept(buffer[..], buffer[..], strings[k], src - 1, src);
      }
    }

    /** Several Takes in a row. */
    method Advance(to: nat)
      requires Valid() && src <= to <= |text|
      modifies this`src
      ensures Valid() && src == to
    {
      forall k | 0 <= k < |strings| ensures Intact(buffer[..], strings[k], to) {
        IntactKept(buffer[..], buffer[..], strings[k], src, to);
      }
      src := to;
    }

    method PutBegin() returns (head: nat)
      requires Valid()
      modifies this`dst
      ensures head == dst == src && Writing(head)
    {
      dst := src;
      head := dst;
    }

    /** Put: overwrites a byte that has been read. */
    method Put(b: byte, ghost head: nat)
      requires Writing(head) && dst < src
      modifies this`dst, buffer
      ensures Writing(head) && dst == old(dst) + 1
      ensures buffer[head..dst] == old(buffer[head..dst]) + [b]
      ensures forall k :: 0 <= k < buffer.Length && k != old(dst) ==> buffer[k] == old(buffer[k])
    {
      ghost var before := buffer[..];
      buffer[dst] := b;
      dst := dst + 1;
      forall k | 0 <= k < |strings| ensures Intact(buffer[..], strings[k], head) {
        IntactKept(before, buffer[..], strings[k], head, head);
      }
    }

    /** One round of ParseStringToStream: reads a piece, then puts what it stands for. */
    method ParsePiece(ghost head: nat) returns (ok: bool)
      requires Writing(head) && Peek() != QUOTE
      modifies this`src, this`dst, buffer
      ensures ok == G.StringPiece(text, old(src)).Piece?
      ensures forall k :: 0 <= k < head || src <= k < buffer.Length ==> buffer[k] == old(buffer[k])
      ensures Writing(head) && old(src) <= src
      ensures ok ==>
                var p := G.StringPiece(text, old(src));
                src == p.next && buffer[head..dst] == old(buffer[head..dst]) + p.decoded
    {
      hide G.StringPiece;
      PieceLocal(buffer[..buffer.Length - 1], text, src);
      match G.StringPiece(buffer[..buffer.Length - 1], src) {
        case Bad =>
          return false;
        case Piece(next, decoded) =>
          src := next;
          var k := 0;
          assert decoded[..0] == [];
          while k < |decoded|
            invariant 0 <= k <= |decoded| && Writing(head) && src == next
            invariant dst == old(dst) + k
            invariant buffer[head..dst] == old(buffer[head..dst]) + decoded[..k]
            invariant forall j :: 0 <= j < head || src <= j < buffer.Length ==> buffer[j] == old(buffer[j])
          {
            Put(decoded[k], head);
            k := k + 1;
            assert decoded[..k] == decoded[..k - 1] + [decoded[k - 1]];
          }
          assert decoded[..k] == decoded;
          return true;
      }
    }

    /**
     ParseString with kParseInsituFlag, at the opening quotation mark: it accepts what the copying path accepts, and
     hands out the same text, in place.
     */
    method ParseString() returns (ok: bool, h: Handed)
      requires Valid() && Peek() == QUOTE
      modifies this, buffer
      ensures Valid() && old(src) < src
      ensures forall k :: 0 <= k <= old(src) || src <= k < buffer.Length ==> buffer[k] == old(buffer[k])
      ensures match G.StringBody(text, old(src) + 1, [])
              case Malformed => !ok && strings == old(strings)
              case Text(next, t) => ok && src == next && h == Handed(old(src) + 1, t) && strings == old(strings) + [h]
    {
      hide G.StringPiece;
      var _ := Take();
      var head := PutBegin();
      ghost var want := G.StringBody(text, src, []);
      assert buffer[head..dst] == [];
      while Peek() != QUOTE
        invariant Writing(head) && head == old(src) + 1 && strings == old(strings)
        invariant G.StringBody(text, src, buffer[head..dst]) == want
        invariant forall k :: 0 <= k < head || src <= k < buffer.Length ==> buffer[k] == old(buffer[k])
        decreases |text| - src
      {
        var more := ParsePiece(head);
        if !more {
          EndWriting(head);
          return false, Handed(0, []);
        }
      }
      h := PutEnd(head);
      ok := true;
    }

    /** Takes the closing quotation mark, terminates the string and hands it out. */
    method PutEnd(head: nat) returns (h: Handed)
      requires Writing(head) && Peek() == QUOTE && src < |text|
      modifies this, buffer
      ensures Valid() && src == old(src) + 1
      ensures h == Handed(head, old(buffer[head..dst])) && strings == old(strings) + [h]
      ensures forall k :: 0 <= k < head || src <= k < buffer.Length ==> buffer[k] == old(buffer[k])
    {
      ghost var t := buffer[head..dst];
      src := src + 1;
      var length := dst - head;
      Put(NUL, head);
      h := Handed(head, buffer[head..head + length]);
      assert h.text == t;
      strings := strings + [h];
      assert Intact(buffer[..], h, src);
      forall k | 0 <= k < |strings| - 1 ensures Intact(buffer[..], strings[k], src) {
        IntactKept(buffer[..], buffer[..], strings[k], head, src);
      }
    }

    lemma EndWriting(head: nat)
      requires Writing(head)
      ensures Valid()
    {
      forall k | 0 <= k < |strings| ensures Intact(buffer[..], strings[k], src) {
        IntactKept(buffer[..], buffer[..], strings[k], head, src);
      }
    }
  }
}
