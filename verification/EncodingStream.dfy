/** Bodies that pass the stack of writers in pieces, cut anew by every stage. */
module EncodingStream {
  import opened ByteString
  import opened EncodingStack
  import opened GzipHeader
  import opened GzipWriter
  import opened Lists

  /** All that was received decodes to all that was delivered: more input only adds output, none gives none, and a
      whole coded body gives the body. */
  ghost predicate Streaming<T(!new)>(e: ContentEncoding<T>) {
    && e.decode([]) == []
    && (forall p, q :: e.decode(p) <= e.decode(p + q))
    && forall b :: e.decode(e.encode(b)) == b
  }

  lemma StreamingIsInvertible<T(!new)>(e: ContentEncoding<T>)
    requires Streaming(e)
    ensures Invertible(e)
  {
    forall b | e.encode(b) == [] ensures b == [] {
      assert e.decode(e.encode(b)) == b;
    }
  }

  /** The client at the bottom, codings of the table above it. */
  predicate Stacked<T>(table: seq<ContentEncoding<T>>, stack: seq<Handler>) {
    && stack != [] && stack[|stack| - 1] == Client
    && forall i :: 0 <= i < |stack| - 1 ==> stack[i].Coding? && stack[i].index < |table|
  }

  /** How a stage cuts an output into the pieces it writes on: it may depend on the stage and on what came before. */
  type Cut<!T> = (nat, seq<T>, seq<T>) -> seq<seq<T>>

  ghost predicate Faithful<T(!new)>(cut: Cut<T>) {
    forall depth, before, output :: Flat(cut(depth, before, output)) == output
  }

  // ---- Writing pieces

  /** One write into the top of the stack: what each stage has received afterwards. */
  function Write<T(!new)>(table: seq<ContentEncoding<T>>, cut: Cut<T>, stack: seq<Handler>, got: seq<seq<T>>,
                              piece: seq<T>): (r: seq<seq<T>>)
    requires Stacked(table, stack) && |got| == |stack|
    ensures |r| == |got| && r[0] == got[0] + piece
    decreases |stack|, 0
  {
    if piece == [] then assert got[0] + piece == got[0]; got
    else if |stack| == 1 then [got[0] + piece]
    else
      var e := table[stack[0].index];
      var done, all := e.decode(got[0]), e.decode(got[0] + piece);
      var output := if |done| <= |all| then all[|done|..] else [];
      var pieces := cut(|stack|, got[0], output);
      [got[0] + piece] + WriteAll(table, cut, stack[1..], got[1..], pieces)
  }

  function WriteAll<T(!new)>(table: seq<ContentEncoding<T>>, cut: Cut<T>, stack: seq<Handler>, got: seq<seq<T>>,
                                 pieces: seq<seq<T>>): (r: seq<seq<T>>)
    requires Stacked(table, stack) && |got| == |stack|
    ensures |r| == |got| && r[0] == got[0] + Flat(pieces)
    decreases |stack|, 1 + |pieces|
  {
    if pieces == [] then assert got[0] + Flat(pieces) == got[0]; got
    else
      var n := |pieces| - 1;
      var r := Write(table, cut, stack, WriteAll(table, cut, stack, got, pieces[..n]), pieces[n]);
      assert got[0] + Flat(pieces[..n]) + pieces[n] == got[0] + Flat(pieces);
      r
  }

  /** Every stage has been handed all that the one above it has decoded. */
  ghost predicate Aligned<T>(table: seq<ContentEncoding<T>>, stack: seq<Handler>, got: seq<seq<T>>)
    requires Stacked(table, stack) && |got| == |stack|
  {
    forall i :: 0 <= i < |stack| - 1 ==> got[i + 1] == table[stack[i].index].decode(got[i])
  }

  lemma AlignedStep<T(!new)>(table: seq<ContentEncoding<T>>, stack: seq<Handler>, got: seq<seq<T>>)
    requires Stacked(table, stack) && |got| == |stack| > 1
    ensures Stacked(table, stack[1..])
    ensures Aligned(table, stack, got) <==>
              got[1] == table[stack[0].index].decode(got[0]) && Aligned(table, stack[1..], got[1..])
  {
    var s, g := stack[1..], got[1..];
    assert forall i :: 0 <= i < |s| ==> s[i] == stack[i + 1] && g[i] == got[i + 1];
    if got[1] == table[stack[0].index].decode(got[0]) && Aligned(table, s, g) {
      forall i | 0 <= i < |stack| - 1 ensures got[i + 1] == table[stack[i].index].decode(got[i]) {
        if i > 0 { assert g[i - 1 + 1] == table[s[i - 1].index].decode(g[i - 1]); }
      }
    }
  }

  lemma {:induction false} WriteAligns<T(!new)>(table: seq<ContentEncoding<T>>, cut: Cut<T>, stack: seq<Handler>,
                                                got: seq<seq<T>>, piece: seq<T>)
    requires (forall e :: e in table ==> Streaming(e)) && Faithful(cut)
    requires Stacked(table, stack) && |got| == |stack| && Aligned(table, stack, got)
    ensures Aligned(table, stack, Write(table, cut, stack, got, piece))
    decreases |stack|, 0
  {
    hide Flat, Aligned;
    if piece == [] {
    } else if |stack| == 1 {
      OnlyClient(table, stack, Write(table, cut, stack, got, piece));
    } else {
      var e := table[stack[0].index];
      assert e in table && Streaming(e) && e.decode(got[0]) <= e.decode(got[0] + piece);
      AlignedStep(table, stack, got);
      var done, all := e.decode(got[0]), e.decode(got[0] + piece);
      var pieces := cut(|stack|, got[0], all[|done|..]);
      assert Flat(pieces) == all[|done|..];
      WriteAllAligns(table, cut, stack[1..], got[1..], pieces);
      var below := WriteAll(table, cut, stack[1..], got[1..], pieces);
      var r := [got[0] + piece] + below;
      assert below[0] == done + all[|done|..] == all && r[1..] == below;
      AlignedStep(table, stack, r);
    }
  }

  lemma OnlyClient<T(!new)>(table: seq<ContentEncoding<T>>, stack: seq<Handler>, got: seq<seq<T>>)
    requires Stacked(table, stack) && |got| == |stack| == 1
    ensures Aligned(table, stack, got)
  {
  }

  lemma {:induction false} WriteAllAligns<T(!new)>(table: seq<ContentEncoding<T>>, cut: Cut<T>, stack: seq<Handler>,
                                                   got: seq<seq<T>>, pieces: seq<seq<T>>)
    requires (forall e :: e in table ==> Streaming(e)) && Faithful(cut)
    requires Stacked(table, stack) && |got| == |stack| && Aligned(table, stack, got)
    ensures Aligned(table, stack, WriteAll(table, cut, stack, got, pieces))
    decreases |stack|, 1 + |pieces|
  {
    hide Flat, Aligned, Write;
    if pieces != [] {
      var n := |pieces| - 1;
      WriteAllAligns(table, cut, stack, got, pieces[..n]);
      WriteAligns(table, cut, stack, WriteAll(table, cut, stack, got, pieces[..n]), pieces[n]);
    }
  }

  /** What the client has is what one write of all that the top has received would have delivered. */
  lemma {:induction false} AlignedIsWritten<T(!new)>(table: seq<ContentEncoding<T>>, stack: seq<Handler>,
      got: seq<seq<T>>)
    requires (forall e :: e in table ==> Streaming(e)) && Stacked(table, stack) && |got| == |stack|
        && Aligned(table, stack, got)
    ensures Written(table, stack, got[0]) == Delivered(got[|got| - 1])
    decreases |stack|
  {
    hide Aligned;
    if |stack| > 1 {
      AlignedStep(table, stack, got);
      AlignedIsWritten(table, stack[1..], got[1..]);
      assert table[stack[0].index] in table;
      if got[0] == [] { assert got[1] == []; EmptyWrite(table, stack[1..]); }
    }
  }

  lemma EmptyWrite<T(!new)>(table: seq<ContentEncoding<T>>, stack: seq<Handler>)
    ensures Written(table, stack, []) == Delivered([])
  {
  }

  function Nothing<T>(n: nat): (r: seq<seq<T>>)
    ensures |r| == n && forall i :: 0 <= i < n ==> r[i] == []
  {
    seq(n, _ => [])
  }

  lemma NothingIsAligned<T(!new)>(table: seq<ContentEncoding<T>>, stack: seq<Handler>)
    requires (forall e :: e in table ==> Streaming(e)) && Stacked(table, stack)
    ensures Aligned(table, stack, Nothing(|stack|))
  {
    forall i | 0 <= i < |stack| - 1 ensures table[stack[i].index].decode([]) == [] {
      assert table[stack[i].index] in table;
    }
  }

  lemma StackIsStacked<T(!new)>(table: seq<ContentEncoding<T>>, names: seq<string>)
    requires names != [] && forall h :: h in HandlersOf(table, names) ==> h.Coding? && h.index < |table|
    ensures Stacked(table, Pushed(table, [], names))
  {
    hide FindFrom, Pushed, Reversed, HandlersOf;
    StackIsReversed(table, [], names);
    var hs := HandlersOf(table, names);
    ReversedMultiset(hs);
    forall h | h in Reversed(hs) ensures h in hs { assert h in multiset(Reversed(hs)); }
    assert forall i :: 0 <= i < |hs| ==> Reversed(hs)[i] in Reversed(hs);
  }

  /** A body coded as its header says, cut into any pieces and cut anew by every stage, reaches the client as it was. */
  lemma ClientGetsThePieces<T(!new)>(table: seq<ContentEncoding<T>>, enclist: string, maybechunked: bool, body: seq<T>,
                                     cut: Cut<T>, pieces: seq<seq<T>>)
    requires (forall e :: e in table ==> Streaming(e)) && Faithful(cut)
    requires var names := Staged(Names(enclist), maybechunked);
             names != [] && forall n :: n in names ==> FindFrom(table, n, 0).Coding?
    ensures var names := Staged(Names(enclist), maybechunked);
            var stack := Pushed(table, [], names);
            && Stacked(table, stack) && (forall h :: h in HandlersOf(table, names) ==> h.Coding? && h.index < |table|)
            && (Flat(pieces) == Encoded(table, HandlersOf(table, names), body) ==>
                  var got := WriteAll(table, cut, stack, Nothing(|stack|), pieces); got[|got| - 1] == body)
  {
    hide Names, Staged, FindFrom, Pushed, Encoded, Flat, Streaming, WriteAll, HandlersOf, Written, Aligned;
    var names := Staged(Names(enclist), maybechunked);
    var stack := Pushed(table, [], names);
    forall e | e in table ensures Invertible(e) { StreamingIsInvertible(e); }
    ClientGetsTheBody(table, enclist, maybechunked, body);
    StackIsStacked(table, names);
    NothingIsAligned(table, stack);
    WriteAllAligns(table, cut, stack, Nothing(|stack|), pieces);
    var got := WriteAll(table, cut, stack, Nothing(|stack|), pieces);
    assert got[0] == [] + Flat(pieces) == Flat(pieces);
    AlignedIsWritten(table, stack, got);
  }

  // ---- Gzip is such a coding

  /** A raw deflate stream that ends where it should and inflates to the body. */
  ghost predicate Deflates(c: Codec, deflate: seq<Byte> -> seq<Byte>) {
    forall b :: Deflated(c, b, deflate(b))
  }

  ghost predicate Deflated(c: Codec, body: seq<Byte>, stream: seq<Byte>) {
    && c.verdict(stream) == End && c.output(stream) == body
    && forall i :: 0 <= i < |stream| ==> c.verdict(stream[..i]) == More
  }

  /** Header, deflate stream and trailer, and what the gzip writer has delivered of what it has received. */
  function GzipCoding(c: Codec, header: seq<Byte>, deflate: seq<Byte> -> seq<Byte>,
                      trailer: seq<Byte> -> seq<Byte>): ContentEncoding<Byte> {
    ContentEncoding("gzip", "x-gzip", b => header + (deflate(b) + trailer(b)), r => c.output(Body(c, r)))
  }

  lemma BodyGrows(c: Codec, r: seq<Byte>, e: seq<Byte>)
    ensures Body(c, r) <= Body(c, r + e)
  {
    hide CheckHeader, Stop;
    var check := CheckHeader(r);
    if check.Complete? {
      VerdictIsStable(r, e);
      var b := r[check.length..];
      assert (r + e)[check.length..] == b + e;
      if c.verdict(b[..Stop(c, b)]) != More {
        StoppedBodyIsFinal(c, b, e);
      } else {
        StopReachesEnd(c, b);
        StopGoesOn(c, b, e);
      }
    }
  }

  lemma StopGoesOn(c: Codec, b: seq<Byte>, e: seq<Byte>)
    requires Stop(c, b) == |b| && c.verdict(b) == More
    ensures |b| <= Stop(c, b + e) && b <= (b + e)[..Stop(c, b + e)]
  {
    hide Stop;
    forall i | 0 <= i <= |b| ensures c.verdict((b + e)[..i]) == More {
      assert (b + e)[..i] == b[..i] && b[..|b|] == b;
    }
    var k := Stop(c, b + e);
  }

  /** Of a gzip member zlib gets the deflate stream alone; of what follows, eight bytes complete it, with fewer the
      writer waits for the rest, and more are an error. */
  lemma MemberIsTaken(c: Codec, h: Header, body: seq<Byte>, stream: seq<Byte>, after: seq<Byte>)
    requires WellFormed(h) && Deflated(c, body, stream)
    ensures var whole := Bytes(h) + (stream + after);
            && Body(c, whole) == stream && c.output(Body(c, whole)) == body
            && StageOf(c, whole) == if |after| < 8 then Trailing(8 - |after|)
                                    else if |after| == 8 then Finished else Failed(WRITE_ERROR)
  {
    hide CheckHeader, Bytes, WellFormed, Stop;
    var b, n := stream + after, |stream|;
    HeaderRecognised(h, b);
    assert (Bytes(h) + b)[|Bytes(h)|..] == b && b[..n] == stream;
    forall i | 0 <= i < n ensures c.verdict(b[..i]) == More { assert b[..i] == stream[..i]; }
    StopIs(c, b, n);
  }

  /** Ten bytes that begin no header are refused. */
  lemma GarbageIsRefused(c: Codec, d: seq<Byte>)
    requires |d| >= 10 && forall h :: WellFormed(h) ==> !(d[..10] <= Bytes(h))
    ensures StageOf(c, d) == Failed(BAD_CONTENT_ENCODING) && Body(c, d) == []
  {
    hide CheckHeader, Bytes, WellFormed;
    BadExactly(d);
  }

  /** So is a stream that zlib cannot read, whatever follows; while it can and wants more, all of it is handed on. */
  lemma StreamIsJudged(c: Codec, h: Header, stream: seq<Byte>, after: seq<Byte>)
    requires WellFormed(h) && forall i :: 0 <= i < |stream| ==> c.verdict(stream[..i]) == More
    ensures var whole := Bytes(h) + (stream + after);
            && (c.verdict(stream) == Broken ==> StageOf(c, whole) == Failed(BAD_CONTENT_ENCODING))
            && (c.verdict(stream) == More && after == [] ==> StageOf(c, whole) == Inflating)
            && (c.verdict(stream) == Broken || after == [] ==> Body(c, whole) == stream)
  {
    hide CheckHeader, Bytes, WellFormed, Stop;
    var b, n := stream + after, |stream|;
    HeaderRecognised(h, b);
    assert (Bytes(h) + b)[|Bytes(h)|..] == b && b[..n] == stream;
    forall i | 0 <= i < n ensures c.verdict(b[..i]) == More { assert b[..i] == stream[..i]; }
    if c.verdict(stream) == Broken || after == [] { StopIs(c, b, n); }
  }

  /** The gzip writer is a streaming stage, and no beginning of a coded body makes it fail. */
  lemma GzipIsStreaming(c: Codec, h: Header, deflate: seq<Byte> -> seq<Byte>, trailer: seq<Byte> -> seq<Byte>)
    requires Causal(c) && Deflates(c, deflate) && WellFormed(h) && forall b :: |trailer(b)| == 8
    ensures Streaming(GzipCoding(c, Bytes(h), deflate, trailer))
    ensures forall b, n :: var whole := GzipCoding(c, Bytes(h), deflate, trailer).encode(b);
              0 <= n <= |whole| ==> !StageOf(c, whole[..n]).Failed?
  {
    hide Body, StageOf, Bytes, WellFormed, Deflated;
    var e := GzipCoding(c, Bytes(h), deflate, trailer);
    NoBody(c);
    forall p, q ensures e.decode(p) <= e.decode(p + q) {
      BodyGrows(c, p, q);
      var more := Body(c, p + q)[|Body(c, p)|..];
      assert Body(c, p + q) == Body(c, p) + more;
    }
    forall b ensures e.decode(e.encode(b)) == b {
      assert Deflated(c, b, deflate(b)) && |trailer(b)| == 8;
      MemberIsTaken(c, h, b, deflate(b), trailer(b));
    }
    forall b, n | 0 <= n <= |e.encode(b)| ensures !StageOf(c, e.encode(b)[..n]).Failed? {
      assert Deflated(c, b, deflate(b)) && |trailer(b)| == 8;
      MemberIsTaken(c, h, b, deflate(b), trailer(b));
      var whole := e.encode(b);
      assert whole == whole[..n] + whole[n..];
      if StageOf(c, whole[..n]).Failed? { FailureIsFinal(c, whole[..n], whole[n..]); }
    }
  }

  lemma NoBody(c: Codec)
    ensures Body(c, []) == []
  {
  }
}
