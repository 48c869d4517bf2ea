/** The encoding and decoding loops over their output buffers. */
module Base64Codec {
  import opened Base64
  import opened ByteString

  /** Takes up to three bytes off the input; the missing ones count as zero. */
  method Take(data: seq<Byte>, start: nat, ibuf: array<Byte>) returns (parts: nat)
    requires start < |data| && ibuf.Length == 3
    modifies ibuf
    ensures parts == if |data| - start < 3 then |data| - start else 3
    ensures forall k :: 0 <= k < 3 ==> ibuf[k] == if start + k < |data| then data[start + k] else 0
  {
    parts := 0;
    for i := 0 to 3
      invariant parts == if i <= |data| - start then i else |data| - start
      invariant forall k :: 0 <= k < i ==> ibuf[k] == if start + k < |data| then data[start + k] else 0
    {
      if start + parts < |data| {
        ibuf[i] := data[start + parts];
        parts := parts + 1;
      } else {
        ibuf[i] := 0;
      }
    }
  }

  /** Writes four characters and a terminator. */
  method Put(out: array<char>, o: nat, q: string)
    requires |q| == 4 && o + 4 < out.Length
    modifies out
    ensures out[..o + 4] == old(out[..o]) + q && out[o + 4] == NUL
  {
    out[o], out[o + 1], out[o + 2], out[o + 3] := q[0], q[1], q[2], q[3];
    out[o + 4] := NUL;
  }

  /** One round: up to three bytes become four characters. */
  method EncodeGroup(table: string, data: seq<Byte>, at: nat, ibuf: array<Byte>, out: array<char>, o: nat)
      returns (parts: nat)
    requires |table| == 64 && at < |data| && ibuf.Length == 3 && o + 4 < out.Length
    modifies ibuf, out
    ensures 0 < parts <= |data| - at && out[o + 4] == NUL
    ensures |Encoded(table, data[at..])| == 4 + |Encoded(table, data[at + parts..])|
    ensures out[..o + 4] + Encoded(table, data[at + parts..]) == old(out[..o]) + Encoded(table, data[at..])
  {
    hide Encoded, Sextet0, Sextet1, Sextet2, Sextet3;
    parts := Take(data, at, ibuf);
    ghost var before, rest := out[..o], Encoded(table, data[at + parts..]);
    GroupOf(table, data[at..], ibuf[..], parts);
    assert data[at..][parts..] == data[at + parts..];
    var c0, c1 := table[Sextet0(ibuf[0])], table[Sextet1(ibuf[0], ibuf[1])];
    var c2, c3 := table[Sextet2(ibuf[1], ibuf[2])], table[Sextet3(ibuf[2])];
    var q := match parts case 1 => [c0, c1, '=', '='] case 2 => [c0, c1, c2, '='] case _ => [c0, c1, c2, c3];
    Put(out, o, q);
    assert before + (q + rest) == (before + q) + rest;
  }

  method Encode(table: string, data: seq<Byte>) returns (out: array<char>, outlen: nat)
    requires |table| == 64 && NUL !in table
    ensures fresh(out) && outlen < out.Length == |data| * 4 / 3 + 4
    ensures out[..outlen] == Encoded(table, data) && out[outlen] == NUL
  {
    hide Encoded;
    out := new char[|data| * 4 / 3 + 4];
    var ibuf := new Byte[3];
    var at, o := 0, 0;
    EncodedLength(table, data);
    assert data[0..] == data;
    while at < |data|
      invariant at <= |data|
      invariant o + |Encoded(table, data[at..])| < out.Length
      invariant out[..o] + Encoded(table, data[at..]) == Encoded(table, data)
    {
      GroupNeedsFour(table, data[at..]);
      var parts := EncodeGroup(table, data, at, ibuf, out, o);
      at, o := at + parts, o + 4;
    }
    assert data[at..] == [];
    NothingEncoded(table);
    out[o] := NUL;
    outlen := o;
  }

  lemma GroupNeedsFour(table: string, rest: seq<Byte>)
    requires |table| == 64 && rest != []
    ensures |Encoded(table, rest)| >= 4
  {
  }

  lemma NothingEncoded(table: string)
    requires |table| == 64
    ensures Encoded(table, []) == ""
  {
  }

  /** One round takes a group off the input. */
  lemma GroupOf(table: string, rest: seq<Byte>, ibuf: seq<Byte>, parts: nat)
    requires |table| == 64 && rest != [] && |ibuf| == 3 && parts == if |rest| < 3 then |rest| else 3
    requires forall k :: 0 <= k < 3 ==> ibuf[k] == if k < |rest| then rest[k] else 0
    ensures Encoded(table, rest) ==
              [table[Sextet0(ibuf[0])], table[Sextet1(ibuf[0], ibuf[1])],
               if parts < 2 then '=' else table[Sextet2(ibuf[1], ibuf[2])],
               if parts < 3 then '=' else table[Sextet3(ibuf[2])]] + Encoded(table, rest[parts..])
  {
    hide Sextet0, Sextet1, Sextet2, Sextet3;
    if |rest| <= 3 { assert rest[parts..] == []; }
  }

  lemma NotListed(c: char)
    requires forall k :: 0 <= k < 64 ==> Table()[k] != c
    ensures !InAlphabet(c)
  {
    hide Table, Bits, InAlphabet;
    if InAlphabet(c) { TableOfBits(c); }
  }

  /** The digit's place in the table, or the table's length. */
  method Find(c: char) returns (v: nat)
    ensures v <= 64 && (v < 64 <==> InAlphabet(c))
    ensures v < 64 ==> v == Bits(c)
  {
    hide Table, Bits, InAlphabet;
    var p := Table();
    v := 0;
    while v < |p| && p[v] != c
      invariant v <= 64 && forall k :: 0 <= k < v ==> p[k] != c
    {
      v := v + 1;
    }
    if v < 64 { TableDigit(v); } else { NotListed(c); }
  }

  const SIZE_MAX := 0xFFFF_FFFF_FFFF_FFFF

  /** How many of the first characters are '='. */
  function Equals(src: string, n: nat): (e: nat)
    requires n <= |src|
    ensures e <= n
  {
    if n == 0 then 0 else Equals(src, n - 1) + if src[n - 1] == '=' then 1 else 0
  }

  /** Digits and '=', anywhere. */
  predicate Legible(src: string) { forall k :: 0 <= k < |src| ==> src[k] == '=' || InAlphabet(src[k]) }

  /** Collects four characters as a number; fails on one that is no digit. */
  method Collect(src: string) returns (ok: bool, x: nat, padding: nat)
    requires |src| == 4
    ensures ok <==> Legible(src)
    ensures ok ==> padding == Equals(src, 4) && x == Folded(src, 4)
  {
    hide InAlphabet, Value;
    x, padding := 0, 0;
    for i := 0 to 4
      invariant forall k :: 0 <= k < i ==> src[k] == '=' || InAlphabet(src[k])
      invariant padding == Equals(src, i) && x == Folded(src, i)
    {
      if src[i] == '=' {
        x, padding := x * 64, padding + 1;
        PadIsZero();
      } else {
        var v := Find(src[i]);
        if v == 64 { return false, 0, 0; }
        x := x * 64 + v;
      }
    }
    ok := true;
  }

  lemma PadIsZero()
    ensures Bits('=') == 0
  {
  }

  /** The three bytes that four characters stand for, '=' for zero bits. */
  function Three(src: string): (bs: seq<Byte>)
    requires |src| == 4
    ensures |bs| == 3
  {
    [Byte0(Bits(src[0]), Bits(src[1])), Byte1(Bits(src[1]), Bits(src[2])), Byte2(Bits(src[2]), Bits(src[3]))]
  }

  /** How many of them are written: one for every '=' is not, but the first always is. */
  function Written(src: string): (n: nat)
    requires |src| == 4
    ensures 1 <= n <= 3
  {
    if Equals(src, 4) >= 2 then 1 else 3 - Equals(src, 4)
  }

  /** Decodes four characters to the buffer; 0 tells that one of them is no digit, or that three are '='. With four '='
      the difference wraps around. */
  method DecodeQuantum(dest: array<Byte>, pos: nat, src: string) returns (n: nat)
    requires |src| == 4 && (Legible(src) ==> pos + Written(src) <= dest.Length)
    modifies dest
    ensures n == if !Legible(src) then 0 else if Equals(src, 4) == 4 then SIZE_MAX else 3 - Equals(src, 4)
    ensures !Legible(src) ==> dest[..] == old(dest[..])
    ensures Legible(src) ==>
              && dest[..pos + Written(src)] == old(dest[..pos]) + Three(src)[..Written(src)]
              && dest[pos + Written(src)..] == old(dest[pos + Written(src)..])
  {
    hide Legible, Equals, Bits, Byte0, Byte1, Byte2, Folded, Number;
    var ok, x, padding := Collect(src);
    if !ok { return 0; }
    FoldedIsNumber(src);
    BytesOfNumber(Bits(src[0]), Bits(src[1]), Bits(src[2]), Bits(src[3]));
    if padding < 1 { dest[pos + 2] := x % 256; }
    if padding < 2 { dest[pos + 1] := x / 256 % 256; }
    dest[pos] := x / 256 / 256 % 256;
    n := (3 - padding) % (SIZE_MAX + 1);
    assert dest[..pos + Written(src)] == old(dest[..pos]) + Three(src)[..Written(src)];
  }

  /** With '=' at the end only, they are the padding. */
  lemma PlacedEquals(q: string)
    requires |q| == 4 && q[0] != '=' && q[1] != '=' && (q[2] == '=' ==> q[3] == '=')
    ensures Equals(q, 4) == Padding(q) && (Legible(q) <==> Acceptable(q))
    ensures Written(q) == 3 - Padding(q) && Three(q)[..Written(q)] == QuantumBytes(q)
  {
    hide InAlphabet, Bits, Byte0, Byte1, Byte2;
    assert Equals(q, 2) == 0;
    assert Equals(q, 4) == Equals(q, 3) + if q[3] == '=' then 1 else 0;
    PadIsNoDigit();
  }

  lemma PadIsNoDigit()
    ensures !InAlphabet('=')
  {
  }

  /** The first characters as a number in base 64. */
  function Folded(src: string, n: nat): nat
    requires |src| == 4 && n <= 4
  {
    if n == 0 then 0 else Folded(src, n - 1) * 64 + Bits(src[n - 1])
  }

  lemma FoldedIsNumber(src: string)
    requires |src| == 4
    ensures Folded(src, 4) == Number(Bits(src[0]), Bits(src[1]), Bits(src[2]), Bits(src[3]))
  {
    hide Bits;
    assert Folded(src, 1) == Bits(src[0]);
    assert Folded(src, 2) == Bits(src[0]) * 64 + Bits(src[1]);
    assert Folded(src, 3) == (Bits(src[0]) * 64 + Bits(src[1])) * 64 + Bits(src[2]);
  }

  /** The '=' are where they may be exactly when the first of them is at the start of the padding. */
  lemma PaddingCheck(src: string, length: nat, padding: nat)
    requires |src| > 0 && length <= |src| && '=' !in src[..length] && (length < |src| ==> src[length] == '=')
    requires padding == if length == |src| then 0 else if length + 1 < |src| && src[length + 1] == '=' then 2 else 1
    ensures length + padding == |src| ==> padding == Padding(src) && '=' !in src[..|src| - padding]
    ensures length + padding != |src| ==> !Acceptable(src)
  {
    assert forall i :: 0 <= i < length ==> src[i] == src[..length][i];
    if length + padding != |src| { assert length < |src| - Padding(src) && !InAlphabet(src[length]); }
  }

  /** What one round makes of the rest of the text. */
  lemma RoundOf(src: string, at: nat)
    requires |src| % 4 == 0 && at % 4 == 0 && at < |src| && '=' !in src[..|src| - Padding(src)]
    ensures var q, t, rest := src[at..at + 4], src[at..], src[at + 4..];
            && q[0] != '=' && q[1] != '=' && (q[2] == '=' ==> q[3] == '=')
            && Padding(q) == (if rest == "" then Padding(src) else 0)
            && (Acceptable(t) <==> Acceptable(q) && (rest == "" || Acceptable(rest)))
            && Decoded(t) == QuantumBytes(q) + Decoded(rest)
  {
    hide QuantumBytes, InAlphabet;
    var q, t := src[at..at + 4], src[at..];
    assert t[..4] == q && t[4..] == src[at + 4..];
    assert forall i :: 0 <= i < |src| - Padding(src) ==> src[i] == src[..|src| - Padding(src)][i];
    assert forall i :: 0 <= i < |t| ==> t[i] == src[at + i];
    assert forall i :: 0 <= i < 4 ==> q[i] == t[i];
    if |t| > 4 {
      AcceptableTail(t);
    } else {
      assert t == q;
    }
  }

  /** How many '=' end the text; fails when one is elsewhere. */
  method CountPadding(src: string) returns (ok: bool, padding: nat)
    requires |src| > 0
    ensures !ok ==> !Acceptable(src)
    ensures ok ==> padding == Padding(src) && '=' !in src[..|src| - padding]
  {
    hide Acceptable;
    var length := 0;
    padding := 0;
    while length < |src| && src[length] != '='
      invariant length <= |src| && '=' !in src[..length]
    {
      length := length + 1;
    }
    if length < |src| {
      padding := padding + 1;
      if length + 1 < |src| && src[length + 1] == '=' { padding := padding + 1; }
    }
    PaddingCheck(src, length, padding);
    ok := length + padding == |src|;
  }

  /** One group of the text; 0 tells that it is not acceptable. */
  method DecodeNext(src: string, at: nat, newstr: array<Byte>, pos: nat) returns (n: nat)
    requires |src| % 4 == 0 && at % 4 == 0 && at < |src| && '=' !in src[..|src| - Padding(src)]
    requires pos + 3 - (if at + 4 == |src| then Padding(src) else 0) <= newstr.Length
    modifies newstr
    ensures n == 0 ==> !Acceptable(src[at..])
    ensures n != 0 ==> n == 3 - (if at + 4 == |src| then Padding(src) else 0)
    ensures n != 0 ==> (Acceptable(src[at..]) <==> at + 4 == |src| || Acceptable(src[at + 4..]))
    ensures n != 0 ==> newstr[..pos + n] + Decoded(src[at + 4..]) == old(newstr[..pos]) + Decoded(src[at..])
  {
    hide Decoded, QuantumBytes, Acceptable, Padding;
    RoundOf(src, at);
    ghost var done, rest := newstr[..pos], Decoded(src[at + 4..]);
    var q := src[at..at + 4];
    PlacedEquals(q);
    n := DecodeQuantum(newstr, pos, q);
    assert (done + QuantumBytes(q)) + rest == done + (QuantumBytes(q) + rest);
  }

  /** The loop over the groups. */
  method DecodeQuantums(src: string, newstr: array<Byte>) returns (ok: bool, pos: nat)
    requires |src| > 0 && |src| % 4 == 0 && '=' !in src[..|src| - Padding(src)]
    requires newstr.Length == |src| / 4 * 3 - Padding(src) + 1
    modifies newstr
    ensures ok <==> Acceptable(src)
    ensures ok ==> pos == newstr.Length - 1 && newstr[..pos] == Decoded(src)
  {
    hide Decoded, QuantumBytes, Acceptable, Padding;
    pos := 0;
    var at: nat := 0;
    assert src[0..] == src;
    while at < |src|
      invariant at <= |src| && at % 4 == 0 && pos == if at < |src| then at / 4 * 3 else newstr.Length - 1
      invariant if at < |src| then Acceptable(src[at..]) <==> Acceptable(src) else Acceptable(src)
      invariant newstr[..pos] + Decoded(src[at..]) == Decoded(src)
    {
      var n := DecodeNext(src, at, newstr, pos);
      if n == 0 { return false, pos; }
      pos, at := pos + n, at + 4;
    }
    assert src[at..] == "";
    NothingDecoded();
    ok := true;
  }

  /** Decodes a text; what is not acceptable is refused. */
  method Decode(src: string) returns (ok: bool, newstr: array<Byte>, outlen: nat)
    requires NUL !in src
    ensures ok <==> Acceptable(src)
    ensures ok ==> newstr.Length == outlen + 1 && newstr[..outlen] == Decoded(src) && newstr[outlen] == 0
  {
    hide Decoded, Acceptable;
    newstr, outlen := new Byte[0], 0;
    BadLength(src);
    if |src| == 0 || |src| % 4 != 0 { return false, newstr, 0; }
    var placed, padding := CountPadding(src);
    if !placed { return false, newstr, 0; }
    var rawlen := |src| / 4 * 3 - padding;
    newstr := new Byte[rawlen + 1];
    var all, pos := DecodeQuantums(src, newstr);
    if !all { return false, newstr, 0; }
    newstr[pos] := 0;
    return true, newstr, rawlen;
  }

  lemma BadLength(src: string)
    ensures |src| == 0 || |src| % 4 != 0 ==> !Acceptable(src)
  {
  }

  lemma NothingDecoded()
    ensures Decoded("") == []
  {
  }
}
