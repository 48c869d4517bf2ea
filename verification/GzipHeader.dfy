/** The header of a gzip member (section 2.3 of RFC 1952) and the routine that finds its end. */
module GzipHeader {
  import opened ByteString
  import opened Wrappers

  const Z_DEFLATED: Byte := 8

  /** Bit k of a flag byte. */
  predicate Bit(flags: Byte, k: nat) {
    match k
    case 1 => flags / 2 % 2 == 1
    case 2 => flags / 4 % 2 == 1
    case 3 => flags / 8 % 2 == 1
    case 4 => flags / 16 % 2 == 1
    case _ => flags % 2 == 1
  }

  predicate HeadCrc(flags: Byte) { Bit(flags, 1) }
  predicate ExtraField(flags: Byte) { Bit(flags, 2) }
  predicate OrigName(flags: Byte) { Bit(flags, 3) }
  predicate Comment(flags: Byte) { Bit(flags, 4) }
  predicate Reserved(flags: Byte) { flags >= 32 }

  datatype Check = Complete(length: nat) | Bad | Underflow

  // ---- What the routine computes

  /** Magic number, method and flags are acceptable. */
  predicate GoodStart(d: seq<Byte>)
    requires |d| >= 10
  {
    d[0] == 0x1f && d[1] == 0x8b && d[2] == Z_DEFLATED && !Reserved(d[3])
  }

  function Word(low: Byte, high: Byte): nat {
    var h: int := high;
    h * 256 + low
  }

  /** Where the extra field that starts at p ends, if the data reaches that far. */
  function AfterExtra(d: seq<Byte>, p: nat): (end: Option<nat>)
    ensures end.Some? ==> p < end.value <= |d|
  {
    if |d| < p + 2 || |d| < p + 2 + Word(d[p], d[p + 1]) then None
    else Some(p + 2 + Word(d[p], d[p + 1]))
  }

  /** Where the zero-terminated text that starts at p ends. */
  function AfterText(d: seq<Byte>, p: nat): (end: Option<nat>)
    ensures end.Some? ==> p < end.value <= |d| && d[end.value - 1] == 0 && 0 !in d[p..end.value - 1]
    decreases |d| - p
  {
    if p >= |d| then None
    else if d[p] == 0 then Some(p + 1)
    else
      var end := AfterText(d, p + 1);
      assert end.Some? ==> d[p..end.value - 1] == [d[p]] + d[p + 1..end.value - 1];
      end
  }

  function AfterCrc(d: seq<Byte>, p: nat): (end: Option<nat>)
    ensures end.Some? ==> p < end.value <= |d|
  {
    if |d| < p + 2 then None else Some(p + 2)
  }

  function HeaderEnd(d: seq<Byte>, flags: Byte): (end: Option<nat>)
    requires |d| >= 10
    ensures end.Some? ==> 10 <= end.value <= |d|
  {
    var extra := if ExtraField(flags) then AfterExtra(d, 10) else Some(10);
    if extra.None? then None
    else
      var name := if OrigName(flags) then AfterText(d, extra.value) else extra;
      if name.None? then None
      else
        var comment := if Comment(flags) then AfterText(d, name.value) else name;
        if comment.None? then None
        else if HeadCrc(flags) then AfterCrc(d, comment.value) else comment
  }

  function CheckHeader(d: seq<Byte>): (r: Check)
    ensures r.Complete? ==> 10 <= r.length <= |d|
  {
    if |d| < 10 then Underflow
    else if !GoodStart(d) then Bad
    else
      var end := HeaderEnd(d, d[3]);
      if end.None? then Underflow else Complete(end.value)
  }

  /** Skips a zero-terminated text; fails when the data ends first. */
  method SkipText(d: seq<Byte>, p: nat) returns (end: Option<nat>)
    requires p <= |d|
    ensures end == AfterText(d, p)
  {
    var q := p;
    while q < |d| && d[q] != 0
      invariant p <= q <= |d|
      invariant AfterText(d, q) == AfterText(d, p)
    {
      q := q + 1;
    }
    return if q == |d| then None else Some(q + 1);
  }

  method CheckGzipHeader(d: seq<Byte>) returns (r: Check)
    ensures r == CheckHeader(d)
  {
    hide Bit, AfterText;
    if |d| < 10 { return Underflow; }
    if d[0] != 0x1f || d[1] != 0x8b { return Bad; }
    var flags := d[3];
    if d[2] != Z_DEFLATED || Reserved(flags) { return Bad; }
    var p := 10;
    if ExtraField(flags) {
      if |d| - p < 2 { return Underflow; }
      var extraLen := Word(d[p], d[p + 1]);
      if |d| - p < extraLen + 2 { return Underflow; }
      p := p + extraLen + 2;
    }
    if OrigName(flags) {
      var end := SkipText(d, p);
      if end.None? { return Underflow; }
      p := end.value;
    }
    if Comment(flags) {
      var end := SkipText(d, p);
      if end.None? { return Underflow; }
      p := end.value;
    }
    if HeadCrc(flags) {
      if |d| - p < 2 { return Underflow; }
      p := p + 2;
    }
    r := Complete(p);
  }

  // ---- The header as RFC 1952 describes it

  /** Its sections; those with an option may be missing. */
  datatype Header = Header(
    isText: bool,
    timeAndSystem: seq<Byte>,
    extra: Option<seq<Byte>>,
    name: Option<seq<Byte>>,
    comment: Option<seq<Byte>>,
    crc: Option<seq<Byte>>)

  predicate WellFormed(h: Header) {
    && |h.timeAndSystem| == 6
    && (h.extra.Some? ==> |h.extra.value| < 0x1_0000)
    && (h.name.Some? ==> 0 !in h.name.value)
    && (h.comment.Some? ==> 0 !in h.comment.value)
    && (h.crc.Some? ==> |h.crc.value| == 2)
  }

  /** The flag byte, with one bit for each section that is there. */
  function Flags(h: Header): Byte {
    (if h.isText then 1 else 0) + (if h.crc.Some? then 2 else 0) + (if h.extra.Some? then 4 else 0)
    + (if h.name.Some? then 8 else 0) + (if h.comment.Some? then 16 else 0)
  }

  function ExtraBytes(h: Header): seq<Byte>
    requires WellFormed(h)
  {
    if h.extra.Some? then [|h.extra.value| % 256, |h.extra.value| / 256] + h.extra.value else []
  }

  function TextBytes(text: Option<seq<Byte>>): seq<Byte> {
    if text.Some? then text.value + [0] else []
  }

  function CrcBytes(h: Header): seq<Byte> {
    if h.crc.Some? then h.crc.value else []
  }

  /** Two bytes of magic, the method 8, the flags, six bytes more, and then the sections in this order. */
  function Bytes(h: Header): seq<Byte>
    requires WellFormed(h)
  {
    [0x1f, 0x8b, 8, Flags(h)] + h.timeAndSystem + ExtraBytes(h)
    + TextBytes(h.name) + TextBytes(h.comment) + CrcBytes(h)
  }

  /** The bits the routine tests are those of the sections. */
  lemma FlagsMean(h: Header)
    ensures var flags := Flags(h);
            && !Reserved(flags) && (ExtraField(flags) <==> h.extra.Some?) && (OrigName(flags) <==> h.name.Some?)
            && (Comment(flags) <==> h.comment.Some?) && (HeadCrc(flags) <==> h.crc.Some?)
  {
  }

  /** Every flag byte without reserved bits stands for some sections. */
  lemma FlagsOf(flags: Byte, h: Header)
    requires !Reserved(flags) && (h.isText <==> flags % 2 == 1)
    requires (ExtraField(flags) <==> h.extra.Some?) && (OrigName(flags) <==> h.name.Some?)
    requires (Comment(flags) <==> h.comment.Some?) && (HeadCrc(flags) <==> h.crc.Some?)
    ensures Flags(h) == flags
  {
  }

  lemma {:induction false} AfterTextAt(d: seq<Byte>, p: nat, text: seq<Byte>)
    requires p + |text| < |d| && d[p..p + |text|] == text && 0 !in text && d[p + |text|] == 0
    ensures AfterText(d, p) == Some(p + |text| + 1)
    decreases |text|
  {
    if text != [] {
      assert d[p] == text[0] && text[0] in text;
      assert d[p + 1..p + |text|] == text[1..];
      AfterTextAt(d, p + 1, text[1..]);
    }
  }

  /** The data holds the sections of the header one after the other, ending at these places. */
  ghost predicate Layout(d: seq<Byte>, h: Header, p1: nat, p2: nat, p3: nat, p4: nat)
    requires WellFormed(h)
  {
    && 10 <= p1 <= p2 <= p3 <= p4 <= |d|
    && d[..10] == [0x1f, 0x8b, 8, Flags(h)] + h.timeAndSystem
    && d[10..p1] == ExtraBytes(h)
    && d[p1..p2] == TextBytes(h.name)
    && d[p2..p3] == TextBytes(h.comment)
    && d[p3..p4] == CrcBytes(h)
  }

  lemma LayoutOfBytes(h: Header, rest: seq<Byte>) returns (p1: nat, p2: nat, p3: nat)
    requires WellFormed(h)
    ensures Layout(Bytes(h) + rest, h, p1, p2, p3, |Bytes(h)|)
  {
    hide Flags, ExtraBytes, TextBytes, CrcBytes;
    p1 := 10 + |ExtraBytes(h)|;
    p2 := p1 + |TextBytes(h.name)|;
    p3 := p2 + |TextBytes(h.comment)|;
  }

  lemma BytesOfLayout(d: seq<Byte>, h: Header, p1: nat, p2: nat, p3: nat, p4: nat)
    requires WellFormed(h) && Layout(d, h, p1, p2, p3, p4)
    ensures d[..p4] == Bytes(h)
  {
    hide Flags, ExtraBytes, TextBytes, CrcBytes;
    assert d[..p4] == d[..10] + d[10..p1] + d[p1..p2] + d[p2..p3] + d[p3..p4];
  }

  lemma ExtraAt(d: seq<Byte>, h: Header, p1: nat)
    requires WellFormed(h) && h.extra.Some? && 10 <= p1 <= |d| && d[10..p1] == ExtraBytes(h)
    ensures AfterExtra(d, 10) == Some(p1)
  {
    assert d[10..p1][0] == d[10] && d[10..p1][1] == d[11];
  }

  lemma TextAt(d: seq<Byte>, text: seq<Byte>, p: nat, q: nat)
    requires p <= q <= |d| && d[p..q] == text + [0] && 0 !in text
    ensures AfterText(d, p) == Some(q)
  {
    assert d[p..q - 1] == d[p..q][..|text|] == text;
    assert d[q - 1] == d[p..q][|text|];
    AfterTextAt(d, p, text);
  }

  lemma LayoutIsRecognised(d: seq<Byte>, h: Header, p1: nat, p2: nat, p3: nat, p4: nat)
    requires WellFormed(h) && Layout(d, h, p1, p2, p3, p4)
    ensures CheckHeader(d) == Complete(p4)
  {
    hide Flags, Bit, Reserved, AfterExtra, AfterText, ExtraBytes;
    FlagsMean(h);
    assert d[3] == d[..10][3] && d[0] == d[..10][0] && d[1] == d[..10][1] && d[2] == d[..10][2];
    if h.extra.Some? { ExtraAt(d, h, p1); } else { assert p1 == 10 by { NoExtra(h); } }
    if h.name.Some? { TextAt(d, h.name.value, p1, p2); }
    if h.comment.Some? { TextAt(d, h.comment.value, p2, p3); }
  }

  lemma NoExtra(h: Header)
    requires WellFormed(h) && h.extra.None?
    ensures ExtraBytes(h) == []
  {
  }

  /** Every header of the standard is recognised, whatever follows it. */
  lemma HeaderRecognised(h: Header, rest: seq<Byte>)
    requires WellFormed(h)
    ensures CheckHeader(Bytes(h) + rest) == Complete(|Bytes(h)|)
  {
    hide CheckHeader, Bytes, Layout;
    var p1, p2, p3 := LayoutOfBytes(h, rest);
    LayoutIsRecognised(Bytes(h) + rest, h, p1, p2, p3, |Bytes(h)|);
  }

  /** A file name and nothing else, as most tools write it. */
  lemma NamedFileIsRecognised(six: seq<Byte>, name: seq<Byte>, rest: seq<Byte>)
    requires |six| == 6 && 0 !in name
    ensures CheckHeader([0x1f, 0x8b, 8, 8] + six + name + [0] + rest) == Complete(11 + |name|)
  {
    hide CheckHeader;
    var h := Header(false, six, None, Some(name), None, None);
    HeaderRecognised(h, rest);
    assert Bytes(h) + rest == [0x1f, 0x8b, 8, 8] + six + name + [0] + rest;
  }

  lemma ExtraOf(d: seq<Byte>, present: bool) returns (extra: Option<seq<Byte>>)
    requires |d| >= 10 && (present ==> AfterExtra(d, 10).Some?)
    ensures (extra.Some? <==> present) && (present ==> |extra.value| < 0x1_0000)
    ensures d[10..if present then AfterExtra(d, 10).value else 10]
         == if present then [|extra.value| % 256, |extra.value| / 256] + extra.value else []
  {
    extra := if present then Some(d[12..AfterExtra(d, 10).value]) else None;
    if present { assert |extra.value| == Word(d[10], d[11]); }
  }

  lemma TextOf(d: seq<Byte>, present: bool, p: nat) returns (text: Option<seq<Byte>>)
    requires p <= |d| && (present ==> AfterText(d, p).Some?)
    ensures (text.Some? <==> present) && (present ==> 0 !in text.value)
    ensures d[p..if present then AfterText(d, p).value else p] == TextBytes(text)
  {
    hide AfterText;
    text := if present then Some(d[p..AfterText(d, p).value - 1]) else None;
  }

  lemma CrcOf(d: seq<Byte>, present: bool, p: nat) returns (crc: Option<seq<Byte>>)
    requires p <= |d| && (present ==> AfterCrc(d, p).Some?)
    ensures (crc.Some? <==> present) && (present ==> |crc.value| == 2)
    ensures d[p..if present then AfterCrc(d, p).value else p] == if present then crc.value else []
  {
    crc := if present then Some(d[p..p + 2]) else None;
  }

  /** What is recognised is a header of the standard. */
  lemma RecognisedIsHeader(d: seq<Byte>) returns (h: Header)
    requires CheckHeader(d).Complete?
    ensures WellFormed(h) && CheckHeader(d).length <= |d| && Bytes(h) == d[..CheckHeader(d).length]
  {
    hide Bit, Reserved, Flags, AfterText, Bytes, AfterExtra, AfterCrc, TextBytes;
    var flags := d[3];
    var p1 := if ExtraField(flags) then AfterExtra(d, 10).value else 10;
    var p2 := if OrigName(flags) then AfterText(d, p1).value else p1;
    var p3 := if Comment(flags) then AfterText(d, p2).value else p2;
    var p4 := if HeadCrc(flags) then AfterCrc(d, p3).value else p3;
    var extra := ExtraOf(d, ExtraField(flags));
    var name := TextOf(d, OrigName(flags), p1);
    var comment := TextOf(d, Comment(flags), p2);
    var crc := CrcOf(d, HeadCrc(flags), p3);
    h := Header(flags % 2 == 1, d[4..10], extra, name, comment, crc);
    FlagsOf(flags, h);
    assert d[..10] == [d[0], d[1], d[2], d[3]] + d[4..10];
    BytesOfLayout(d, h, p1, p2, p3, p4);
  }

  /** A verdict does not change when more data arrives. */
  lemma VerdictIsStable(d: seq<Byte>, e: seq<Byte>)
    requires !CheckHeader(d).Underflow?
    ensures CheckHeader(d + e) == CheckHeader(d)
  {
    hide HeaderEnd, Bit;
    if CheckHeader(d).Complete? {
      var h := RecognisedIsHeader(d);
      var n := CheckHeader(d).length;
      HeaderRecognised(h, d[n..] + e);
      assert d + e == d[..n] + (d[n..] + e);
    }
  }

  /** When data completes a header that was short, the header ends in the new part. */
  lemma EndIsInNewPart(d: seq<Byte>, e: seq<Byte>)
    requires CheckHeader(d).Underflow? && CheckHeader(d + e).Complete?
    ensures CheckHeader(d + e).length > |d|
  {
    hide CheckHeader;
    var n := CheckHeader(d + e).length;
    var h := RecognisedIsHeader(d + e);
    if n <= |d| {
      assert (d + e)[..n] == d[..n] && d == d[..n] + d[n..];
      HeaderRecognised(h, d[n..]);
    }
  }

  /** Ten bytes are bad exactly when no header of the standard begins with them. */
  lemma BadExactly(d: seq<Byte>)
    requires |d| >= 10
    ensures CheckHeader(d).Bad? <==> forall h :: WellFormed(h) ==> !(d[..10] <= Bytes(h))
  {
    hide HeaderEnd, Bit, Reserved, Flags;
    if GoodStart(d) {
      var flags := d[3];
      var h := Header(flags % 2 == 1, d[4..10], if ExtraField(flags) then Some([]) else None,
        if OrigName(flags) then Some([]) else None, if Comment(flags) then Some([]) else None,
        if HeadCrc(flags) then Some([0, 0]) else None);
      FlagsOf(flags, h);
      assert d[..10] == [d[0], d[1], d[2], d[3]] + d[4..10] <= Bytes(h);
    }
    forall h | WellFormed(h) && d[..10] <= Bytes(h) ensures GoodStart(d) {
      FlagsMean(h);
      assert Bytes(h)[..10] == d[..10];
      assert forall i :: 0 <= i < 4 ==> d[i] == d[..10][i] == Bytes(h)[i];
    }
  }

  /** Once the first ten bytes are not bad, the answer is "more" exactly while no header of the standard is complete. */
  lemma UnderflowIsShort(d: seq<Byte>)
    requires |d| >= 10 && !CheckHeader(d).Bad?
    ensures CheckHeader(d).Underflow? <==> forall h :: WellFormed(h) ==> !(Bytes(h) <= d)
  {
    hide HeaderEnd, Bit, Bytes;
    if CheckHeader(d).Complete? {
      var h := RecognisedIsHeader(d);
      assert Bytes(h) <= d;
    }
    forall h | WellFormed(h) && Bytes(h) <= d ensures CheckHeader(d).Complete? {
      HeaderRecognised(h, d[|Bytes(h)|..]);
      assert d == Bytes(h) + d[|Bytes(h)|..];
    }
  }
}
