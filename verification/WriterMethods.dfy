/** Writer and PrettyWriter as they run: level_stack_ and the output stream updated event by event. */
module WriterMethods {
  import opened Bytes
  import opened Characters
  import opened Sax
  import opened Writer
  import Unicode

  class TextWriter {
    const style: Style
    const target: Target
    var os: bytes
    var levels: seq<Level>
    var hasRoot: bool

    constructor (style: Style, target: Target)
      ensures this.style == style && this.target == target && Now() == State([], [], false)
    {
      this.style, this.target := style, target;
      os, levels, hasRoot := [], [], false;
    }

    function Now(): State
      reads this
    {
      State(os, levels, hasRoot)
    }

    method Put(b: byte)
      modifies this`os
      ensures os == old(os) + [b]
    {
      os := os + [b];
    }

    /** PutN of the indentation character. */
    method WriteIndent()
      requires style.Pretty?
      modifies this`os
      ensures os == old(os) + Indent(style, |levels|)
    {
      var count := |levels| * style.indentCharCount;
      for i := 0 to count
        invariant os == old(os) + seq(i, _ => style.indentChar)
      {
        assert seq(i + 1, _ => style.indentChar) == seq(i, _ => style.indentChar) + [style.indentChar];
        Put(style.indentChar);
      }
    }

    method Prefix()
      requires style.Compact?
      modifies this
      ensures Now() == Placed(style, old(Now()))
    {
      if levels != [] {
        var level := levels[|levels| - 1];
        if level.valueCount > 0 {
          if level.inArray {
            Put(COMMA);
          } else {
            Put(if level.valueCount % 2 == 0 then COMMA else COLON);
          }
        }
        levels := levels[|levels| - 1 := level.(valueCount := level.valueCount + 1)];
      } else {
        hasRoot := true;
      }
    }

    method PrettyPrefix()
      requires style.Pretty?
      modifies this
      ensures Now() == Placed(style, old(Now()))
    {
      hide Indent;
      if levels != [] {
        var level := levels[|levels| - 1];
        ghost var start := os;
        if level.inArray {
          if level.valueCount > 0 {
            Put(COMMA);
            if style.singleLineArrays {
              Put(SPACE);
            }
          }
          if !style.singleLineArrays {
            Put(NEWLINE);
            WriteIndent();
          }
        } else {
          if level.valueCount > 0 {
            if level.valueCount % 2 == 0 {
              Put(COMMA);
              Put(NEWLINE);
            } else {
              Put(COLON);
              Put(SPACE);
            }
          } else {
            Put(NEWLINE);
          }
          if level.valueCount % 2 == 0 {
            WriteIndent();
          }
        }
        assert os == start + PlaceText(style, |levels|, level);
        levels := levels[|levels| - 1 := level.(valueCount := level.valueCount + 1)];
      } else {
        hasRoot := true;
      }
    }

    method Place()
      modifies this
      ensures Now() == Placed(style, old(Now()))
    {
      if style.Compact? {
        Prefix();
      } else {
        PrettyPrefix();
      }
    }

    method PutAll(text: bytes)
      modifies this`os
      ensures os == old(os) + text
    {
      for i := 0 to |text|
        invariant os == old(os) + text[..i]
      {
        Put(text[i]);
      }
    }

    /** The four hexadecimal digits of a `\u` escape, after its opening. */
    method PutHex4(unit: nat)
      requires unit <= 0xFFFF
      modifies this`os
      ensures os == old(os) + (UNICODE_ESCAPE + HexText(unit))
    {
      Put(BACKSLASH);
      Put(0x75);
      Put(HexDigit(unit / 4096));
      Put(HexDigit(unit / 256 % 16));
      Put(HexDigit(unit / 16 % 16));
      Put(HexDigit(unit % 16));
    }

    method PutCodePoint(cp: nat)
      requires Unicode.Scalar(cp)
      modifies this`os
      ensures os == old(os) + CodePointText(cp)
    {
      hide HexText;
      if cp <= 0xD7FF || 0xE000 <= cp <= 0xFFFF {
        PutHex4(cp);
      } else {
        var s := cp - 0x1_0000;
        PutHex4(s / 0x400 + 0xD800);
        PutHex4(s % 0x400 + 0xDC00);
      }
    }

    /** WriteString: fails, without the closing quotation mark, at the first character that ASCII cannot escape. */
    method WriteString(text: bytes) returns (ok: bool)
      modifies this`os
      ensures ok == Writable(target, text)
      ensures os == old(os) + if ok then Quoted(target, text) else [QUOTE] + StringText(target, text, 0)
    {
      hide CodePointText, EscapeText, EscapeOf, Unicode.Decode, Unicode.CharLength, Unicode.Encode;
      Put(QUOTE);
      var i := 0;
      while i < |text|
        invariant i <= |text|
        invariant os + StringText(target, text, i) == old(os) + [QUOTE] + StringText(target, text, 0)
        invariant target.Utf8? || Unicode.WellFormedFrom(text, i) == Unicode.WellFormed(text)
        decreases |text| - i
      {
        var c := text[i];
        ghost var before := os;
        ghost var rest := StringText(target, text, i);
        if target.Ascii? && c >= 0x80 {
          var d := Unicode.Decode(text, i);
          Unicode.DecodeIsRfc3629(text, i);
          if !d.ok {
            assert os + [] == os;
            return false;
          }
          PutCodePoint(d.cp);
          Regroup(before, CodePointText(d.cp), StringText(target, text, d.next));
          i := d.next;
        } else if EscapeOf(c) != 0 {
          PutEscape(c);
          Regroup(before, EscapeText(c), StringText(target, text, i + 1));
          AsciiStep(text, i);
          i := i + 1;
        } else {
          Put(c);
          Regroup(before, [c], StringText(target, text, i + 1));
          AsciiStep(text, i);
          i := i + 1;
        }
      }
      assert os + [] == os;
      ghost var body := os;
      Put(QUOTE);
      Regroup(old(os), [QUOTE] + StringText(target, text, 0), [QUOTE]);
      ok := true;
    }

    method PutEscape(c: byte)
      requires EscapeOf(c) != 0
      modifies this`os
      ensures os == old(os) + EscapeText(c)
    {
      Put(BACKSLASH);
      Put(EscapeOf(c));
      if EscapeOf(c) == 0x75 {
        Put(0x30);
        Put(0x30);
        Put(HexDigit(c / 16));
        Put(HexDigit(c % 16));
      }
    }

    /** Null and Bool. */
    method Literal(e: Event)
      requires e in {Event.Null, Event.Bool(true), Event.Bool(false)} && Accepts(Now(), e)
      modifies this
      ensures Now() == Step(style, target, old(Now()), e)
    {
      Place();
      PutAll(if e.Null? then NULL_TEXT else if e.b then TRUE_TEXT else FALSE_TEXT);
    }

    /** Int, Uint, Int64 and Uint64. */
    method Integer(e: Event)
      requires (e.Int? || e.Uint? || e.Int64? || e.Uint64?) && Accepts(Now(), e)
      modifies this
      ensures Now() == Step(style, target, old(Now()), e)
    {
      hide Decimal, Placed;
      Place();
      PutAll(Decimal(e.n));
    }

    /** String and Key. */
    method Text(e: Event) returns (ok: bool)
      requires (e.String? || e.Key?) && Accepts(Now(), e)
      modifies this
      ensures ok == !Refuses(target, e)
      ensures if ok then Now() == Step(style, target, old(Now()), e)
              else os == Broken(style, target, old(Now()), e.text)
    {
      hide Quoted, Placed, StringText;
      Place();
      ok := WriteString(e.text);
    }

    method StartObject()
      requires Accepts(Now(), Event.StartObject)
      modifies this
      ensures Now() == Step(style, target, old(Now()), Event.StartObject)
    {
      Place();
      levels := levels + [Level(0, false)];
      Put(0x7B);
    }

    method StartArray()
      requires Accepts(Now(), Event.StartArray)
      modifies this
      ensures Now() == Step(style, target, old(Now()), Event.StartArray)
    {
      Place();
      levels := levels + [Level(0, true)];
      Put(0x5B);
    }

    method EndObject(memberCount: nat)
      requires Accepts(Now(), Event.EndObject(memberCount))
      modifies this
      ensures Now() == Step(style, target, old(Now()), Event.EndObject(memberCount))
    {
      var empty := levels[|levels| - 1].valueCount == 0;
      levels := levels[..|levels| - 1];
      Close(style.Pretty? && !empty, 0x7D);
    }

    method EndArray(elementCount: nat)
      requires Accepts(Now(), Event.EndArray(elementCount))
      modifies this
      ensures Now() == Step(style, target, old(Now()), Event.EndArray(elementCount))
    {
      var empty := levels[|levels| - 1].valueCount == 0;
      levels := levels[..|levels| - 1];
      Close(style.Pretty? && !empty && !style.singleLineArrays, 0x5D);
    }

    /** The line break and indent in front of a closing bracket, and the bracket. */
    method Close(gap: bool, bracket: byte)
      requires gap ==> style.Pretty?
      modifies this`os
      ensures os == old(os) + (if gap then [NEWLINE] + Indent(style, |levels|) else []) + [bracket]
    {
      if gap {
        Put(NEWLINE);
        WriteIndent();
        Regroup(old(os), [NEWLINE], Indent(style, |levels|));
      }
      Put(bracket);
    }
  }

  lemma Regroup(a: bytes, b: bytes, c: bytes)
    ensures a + b + c == a + (b + c)
  {
  }

  /** A byte below 0x80 is a character by itself. */
  lemma AsciiStep(text: bytes, i: nat)
    requires i < |text|
    ensures text[i] < 0x80 ==> Unicode.WellFormedFrom(text, i) == Unicode.WellFormedFrom(text, i + 1)
  {
  }
}
