/** Base64, encoding and decoding through output buffers. */
module Base64 {
  import opened ByteString

  type Sextet = x: int | 0 <= x < 64

  function Letters(): (t: string)
    ensures |t| == 52
  {
    "ABCDEFGHIJKLMNOPQRSTUVWXYZ" + "abcdefghijklmnopqrstuvwxyz"
  }

  function Table(): (t: string)
    ensures |t| == 64
  {
    Letters() + "0123456789" + "+/"
  }

  function UrlTable(): (t: string)
    ensures |t| == 64
  {
    Letters() + "0123456789" + "-_"
  }

  function Digit(v: Sextet): char {
    if v < 26 then ('A' as int + v) as char
    else if v < 52 then ('a' as int + v - 26) as char
    else if v < 62 then ('0' as int + v - 52) as char
    else if v == 62 then '+' else '/'
  }

  predicate InAlphabet(c: char) {
    'A' <= c <= 'Z' || 'a' <= c <= 'z' || '0' <= c <= '9' || c == '+' || c == '/'
  }

  function Value(c: char): (v: Sextet)
    requires InAlphabet(c)
    ensures Digit(v) == c
  {
    if 'A' <= c <= 'Z' then c as int - 'A' as int
    else if 'a' <= c <= 'z' then c as int - 'a' as int + 26
    else if '0' <= c <= '9' then c as int - '0' as int + 52
    else if c == '+' then 62 else 63
  }

  lemma ValueOfDigit(v: Sextet)
    ensures InAlphabet(Digit(v)) && Value(Digit(v)) == v && Digit(v) != '='
  {
  }

  lemma UpperInOrder()
    ensures forall v: Sextet :: v < 26 ==> "ABCDEFGHIJKLMNOPQRSTUVWXYZ"[v] == Digit(v)
  {
  }

  lemma LowerInOrder()
    ensures forall v: nat :: v < 26 ==> "abcdefghijklmnopqrstuvwxyz"[v] == Digit(v + 26)
  {
  }

  lemma TableIsDigits()
    ensures forall v: Sextet :: Table()[v] == Digit(v)
    ensures forall v: Sextet :: UrlTable()[v] == if v < 62 then Digit(v) else if v == 62 then '-' else '_'
  {
    UpperInOrder();
    LowerInOrder();
    assert forall v: nat :: v < 10 ==> "0123456789"[v] == Digit(v + 52);
    forall v: Sextet
      ensures Table()[v] == Digit(v)
      ensures v < 62 ==> UrlTable()[v] == Digit(v)
    {
      if v < 26 {
        assert Letters()[v] == "ABCDEFGHIJKLMNOPQRSTUVWXYZ"[v];
      } else if v < 52 {
        assert Letters()[v] == "abcdefghijklmnopqrstuvwxyz"[v - 26] == Digit(v - 26 + 26);
      } else if v < 62 {
        assert Table()[v] == "0123456789"[v - 52] == Digit(v - 52 + 52);
      }
    }
  }

  // ---- What the encoding of a byte string is (section 4 of RFC 4648)

  function Sextet0(a: Byte): Sextet { a / 4 }
  function Sextet1(a: Byte, b: Byte): Sextet { (a % 4) * 16 + b / 16 }
  function Sextet2(b: Byte, c: Byte): Sextet { (b % 16) * 4 + c / 64 }
  function Sextet3(c: Byte): Sextet { c % 64 }

  function Number(d0: Sextet, d1: Sextet, d2: Sextet, d3: Sextet): nat { ((d0 * 64 + d1) * 64 + d2) * 64 + d3 }

  function Byte0(d0: Sextet, d1: Sextet): Byte { d0 * 4 + d1 / 16 }
  function Byte1(d1: Sextet, d2: Sextet): Byte { (d1 % 16) * 16 + d2 / 4 }
  function Byte2(d2: Sextet, d3: Sextet): Byte { (d2 % 4) * 64 + d3 }

  /** Up to three bytes make four characters, the last ones '=' when bytes are missing. */
  function Group(table: string, bs: seq<Byte>): (q: string)
    requires |table| == 64 && 1 <= |bs| <= 3
    ensures |q| == 4
  {
    match |bs|
    case 1 => [table[Sextet0(bs[0])], table[Sextet1(bs[0], 0)], '=', '=']
    case 2 => [table[Sextet0(bs[0])], table[Sextet1(bs[0], bs[1])], table[Sextet2(bs[1], 0)], '=']
    case _ => [table[Sextet0(bs[0])], table[Sextet1(bs[0], bs[1])], table[Sextet2(bs[1], bs[2])], table[Sextet3(bs[2])]]
  }

  function Encoded(table: string, bs: seq<Byte>): (s: string)
    requires |table| == 64
  {
    if bs == [] then "" else if |bs| <= 3 then Group(table, bs) else Group(table, bs[..3]) + Encoded(table, bs[3..])
  }

  /** The number of '=' at the end, of which at most two count. */
  function Padding(s: string): (n: nat)
    ensures n <= 2 && n <= |s|
  {
    if |s| < 1 || s[|s| - 1] != '=' then 0 else if |s| < 2 || s[|s| - 2] != '=' then 1 else 2
  }

  ghost predicate Acceptable(s: string) {
    |s| > 0 && |s| % 4 == 0 && forall i :: 0 <= i < |s| - Padding(s) ==> InAlphabet(s[i])
  }

  /** The value of a digit; '=' stands for zero bits. */
  function Bits(c: char): Sextet { if InAlphabet(c) then Value(c) else 0 }

  function QuantumBytes(q: string): seq<Byte>
    requires |q| == 4
  {
    [Byte0(Bits(q[0]), Bits(q[1])), Byte1(Bits(q[1]), Bits(q[2])), Byte2(Bits(q[2]), Bits(q[3]))][..3 - Padding(q)]
  }

  function Decoded(s: string): (bs: seq<Byte>)
    requires |s| % 4 == 0
  {
    if s == "" then [] else QuantumBytes(s[..4]) + Decoded(s[4..])
  }

  /** The bits below the last whole byte are zero. */
  predicate Canonical(s: string) {
    match Padding(s)
    case 1 => |s| >= 2 && Bits(s[|s| - 2]) % 4 == 0
    case 2 => |s| >= 3 && Bits(s[|s| - 3]) % 16 == 0
    case _ => true
  }

  // ---- Arithmetic of one group

  /** Three bytes and four sextets are one 24-bit number cut in two ways. */
  lemma Regroup(a: Byte, b: Byte, c: Byte)
    ensures (a * 256 + b) * 256 + c == Number(Sextet0(a), Sextet1(a, b), Sextet2(b, c), Sextet3(c))
  {
  }

  lemma BytesOfSextets(a: Byte, b: Byte, c: Byte)
    ensures Byte0(Sextet0(a), Sextet1(a, b)) == a
    ensures Byte1(Sextet1(a, b), Sextet2(b, c)) == b
    ensures Byte2(Sextet2(b, c), Sextet3(c)) == c
  {
  }

  lemma SextetsOfBytes(d0: Sextet, d1: Sextet, d2: Sextet, d3: Sextet)
    ensures Sextet0(Byte0(d0, d1)) == d0
    ensures Sextet1(Byte0(d0, d1), Byte1(d1, d2)) == d1
    ensures Sextet2(Byte1(d1, d2), Byte2(d2, d3)) == d2
    ensures Sextet3(Byte2(d2, d3)) == d3
    ensures Sextet1(Byte0(d0, d1), 0) == d1 <==> d1 % 16 == 0
    ensures Sextet2(Byte1(d1, d2), 0) == d2 <==> d2 % 4 == 0
  {
  }

  lemma BytesOfNumber(d0: Sextet, d1: Sextet, d2: Sextet, d3: Sextet)
    ensures var x := Number(d0, d1, d2, d3);
            x % 256 == Byte2(d2, d3) && x / 256 % 256 == Byte1(d1, d2) && x / 256 / 256 % 256 == Byte0(d0, d1)
  {
    hide Byte0, Byte1, Byte2, Number;
    NumberOfBytes(d0, d1, d2, d3);
    LastByte(Byte0(d0, d1) * 256 + Byte1(d1, d2), Byte2(d2, d3));
    LastByte(Byte0(d0, d1), Byte1(d1, d2));
    LastByte(0, Byte0(d0, d1));
  }

  lemma NumberOfBytes(d0: Sextet, d1: Sextet, d2: Sextet, d3: Sextet)
    ensures Number(d0, d1, d2, d3) == (Byte0(d0, d1) * 256 + Byte1(d1, d2)) * 256 + Byte2(d2, d3)
  {
  }

  lemma LastByte(n: nat, b: Byte)
    ensures (n * 256 + b) % 256 == b && (n * 256 + b) / 256 == n
  {
  }

  // ---- Encoding and decoding undo each other

  lemma AcceptableTail(s: string)
    requires |s| > 4 && |s| % 4 == 0
    ensures Padding(s[4..]) == Padding(s) && (Canonical(s[4..]) <==> Canonical(s))
    ensures Acceptable(s) <==> Acceptable(s[4..]) && forall i :: 0 <= i < 4 ==> InAlphabet(s[i])
  {
    var t := s[4..];
    assert forall i :: 4 <= i < |s| ==> s[i] == t[i - 4];
    if Acceptable(t) && forall i :: 0 <= i < 4 ==> InAlphabet(s[i]) {
      forall i | 0 <= i < |s| - Padding(s) ensures InAlphabet(s[i]) {
        if i >= 4 { assert InAlphabet(t[i - 4]); }
      }
    }
    if Acceptable(s) {
      forall i | 0 <= i < |t| - Padding(t) ensures InAlphabet(t[i]) { assert InAlphabet(s[i + 4]); }
    }
  }

  /** A group in front of a longer text is decoded to three bytes. */
  lemma FullQuantum(q: string)
    requires |q| == 4 && forall i :: 0 <= i < 4 ==> InAlphabet(q[i])
    ensures Padding(q) == 0
  {
    assert InAlphabet(q[3]);
  }

  lemma TableDigit(v: Sextet)
    ensures var c := Table()[v]; c == Digit(v) && InAlphabet(c) && Bits(c) == v && c != '='
  {
    hide Table;
    TableIsDigits();
    ValueOfDigit(v);
  }

  lemma GroupRoundTrip(bs: seq<Byte>)
    requires 1 <= |bs| <= 3
    ensures var q := Group(Table(), bs); Acceptable(q) && Padding(q) == 3 - |bs| && QuantumBytes(q) == bs
  {
    hide Table, Bits, InAlphabet, Sextet0, Sextet1, Sextet2, Sextet3, Byte0, Byte1, Byte2;
    var a, b, c := bs[0], if |bs| > 1 then bs[1] else 0, if |bs| > 2 then bs[2] else 0;
    BytesOfSextets(a, b, c);
    TableDigit(Sextet0(a));
    TableDigit(Sextet1(a, b));
    TableDigit(Sextet2(b, c));
    TableDigit(Sextet3(c));
  }

  /** Decoding the encoding gives the bytes back. */
  lemma {:induction false} RoundTrip(bs: seq<Byte>)
    requires bs != []
    ensures var s := Encoded(Table(), bs); Acceptable(s) && Decoded(s) == bs
    decreases |bs|
  {
    hide Table, InAlphabet, QuantumBytes, Group, Padding;
    var s := Encoded(Table(), bs);
    if |bs| > 3 {
      GroupRoundTrip(bs[..3]);
      RoundTrip(bs[3..]);
      assert s[..4] == Group(Table(), bs[..3]) && s[4..] == Encoded(Table(), bs[3..]);
      AcceptableTail(s);
      assert forall i :: 0 <= i < 4 ==> s[i] == s[..4][i];
    } else {
      GroupRoundTrip(bs);
      assert s[4..] == "" && s[..4] == s;
    }
  }

  lemma GroupReencode(q: string)
    requires |q| == 4 && Acceptable(q)
    ensures Group(Table(), QuantumBytes(q)) == q <==> Canonical(q)
    ensures Padding(q) == 0 ==> Group(Table(), QuantumBytes(q)) == q
  {
    hide Table, Bits, InAlphabet, Sextet0, Sextet1, Sextet2, Sextet3, Byte0, Byte1, Byte2;
    var d0, d1, d2, d3 := Bits(q[0]), Bits(q[1]), Bits(q[2]), Bits(q[3]);
    SextetsOfBytes(d0, d1, d2, d3);
    assert InAlphabet(q[0]) && InAlphabet(q[1]);
    TableOfBits(q[0]);
    TableOfBits(q[1]);
    if Padding(q) < 2 { TableOfBits(q[2]); }
    if Padding(q) < 1 { TableOfBits(q[3]); }
    TableDigit(Sextet1(Byte0(d0, d1), 0));
    TableDigit(Sextet2(Byte1(d1, d2), 0));
  }

  lemma TableOfBits(c: char)
    requires InAlphabet(c)
    ensures Table()[Bits(c)] == c
  {
    hide Table;
    TableIsDigits();
  }

  /** Encoding what was decoded gives the text back exactly when its unused bits are zero. */
  lemma {:induction false} ReencodeExactly(s: string)
    requires Acceptable(s)
    ensures Encoded(Table(), Decoded(s)) == s <==> Canonical(s)
    decreases |s|
  {
    hide Table, InAlphabet, QuantumBytes, Group, Padding, Canonical;
    if |s| > 4 {
      var q, t := s[..4], s[4..];
      AcceptableTail(s);
      FullQuantum(q);
      QuantumLength(q);
      OneQuantum(q);
      GroupReencode(q);
      ReencodeExactly(t);
      var bs := Decoded(s);
      assert bs[..3] == QuantumBytes(q) && bs[3..] == Decoded(t);
      DecodedLength(t);
      assert s == q + t;
    } else {
      assert s[4..] == "" && s[..4] == s;
      assert Decoded(s) == QuantumBytes(s);
      QuantumLength(s);
      assert 1 <= |Decoded(s)| <= 3;
      GroupReencode(s);
    }
  }

  lemma QuantumLength(q: string)
    requires |q| == 4
    ensures |QuantumBytes(q)| == 3 - Padding(q)
  {
  }

  lemma OneQuantum(q: string)
    requires |q| == 4 && forall i :: 0 <= i < 4 ==> InAlphabet(q[i])
    ensures Acceptable(q)
  {
  }

  /** Four characters for every three bytes begun; with the terminator they fit the buffer that is allocated. */
  lemma {:induction false} EncodedLength(table: string, bs: seq<Byte>)
    requires |table| == 64
    ensures |Encoded(table, bs)| == 4 * ((|bs| + 2) / 3)
    ensures |Encoded(table, bs)| + 1 <= |bs| * 4 / 3 + 4
    decreases |bs|
  {
    hide Group;
    if |bs| > 3 {
      EncodedLength(table, bs[3..]);
      assert (|bs| + 2) / 3 == (|bs| - 3 + 2) / 3 + 1;
    }
  }

  lemma {:induction false} DecodedLength(s: string)
    requires Acceptable(s)
    ensures |Decoded(s)| == |s| / 4 * 3 - Padding(s)
    decreases |s|
  {
    if |s| > 4 {
      AcceptableTail(s);
      FullQuantum(s[..4]);
      DecodedLength(s[4..]);
    } else {
      assert s[4..] == "" && s[..4] == s;
    }
  }
}
