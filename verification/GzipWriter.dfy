/** Decoding a gzip body that arrives in pieces, with a zlib that cannot read gzip headers itself. */
module GzipWriter {
  import opened ByteString
  import opened GzipHeader
  import opened Lists

  // ---- The decoder behind the writer, taken as given

  /** What zlib says once it has taken exactly these bytes of a raw deflate stream. */
  datatype Verdict = More | End | Broken

  datatype Codec = Codec(verdict: seq<Byte> -> Verdict, output: seq<Byte> -> seq<Byte>)

  /** Output only grows with input. */
  ghost predicate Causal(c: Codec) {
    && c.verdict([]) == More && c.output([]) == []
    && forall p, q :: c.output(p) <= c.output(p + q)
  }

  datatype Status = Z_OK | Z_STREAM_END | Z_BUF_ERROR | Z_DATA_ERROR

  /** A zlib stream: what it has taken and how much of its output it has handed over. */
  class ZStream {
    const codec: Codec
    var fed: seq<Byte>
    var given: nat

    constructor (codec: Codec)
      requires Causal(codec)
      ensures this.codec == codec && Valid() && fed == [] && given == 0
    {
      this.codec := codec;
      fed, given := [], 0;
    }

    ghost predicate Valid()
      reads this
    {
      && Causal(codec)
      && given <= |codec.output(fed)|
      && forall i :: 0 <= i < |fed| ==> codec.verdict(fed[..i]) == More
    }

    /** One call of inflate(): takes some input, gives some output, never goes past the end of the stream. */
    method Inflate(input: seq<Byte>, room: nat) returns (status: Status, used: nat, out: seq<Byte>)
      requires Valid() && room > 0
      modifies this
      ensures Valid()
      ensures used <= |input| && fed == old(fed) + input[..used]
      ensures |out| <= room && given == old(given) + |out| && out == codec.output(fed)[old(given)..given]
      ensures status == Z_OK ==> (used > 0 || out != []) && codec.verdict(fed) != Broken
      ensures status == Z_STREAM_END ==> codec.verdict(fed) == End && given == |codec.output(fed)|
      ensures status == Z_BUF_ERROR ==>
          input == [] && out == [] && codec.verdict(fed) == More && given == |codec.output(fed)|
      ensures status == Z_DATA_ERROR ==> codec.verdict(fed) == Broken
    {
      used, out := 0, [];
      while used < |input| && codec.verdict(fed) == More
        invariant used <= |input| && fed == old(fed) + input[..used]
        invariant given == old(given) && Valid()
      {
        ghost var before := fed;
        fed := fed + [input[used]];
        assert codec.output(before) <= codec.output(fed);
        assert forall i :: 0 <= i < |before| ==> fed[..i] == before[..i];
        assert fed[..|before|] == before;
        used := used + 1;
      }
      if codec.verdict(fed) == Broken { return Z_DATA_ERROR, used, []; }
      var all := codec.output(fed);
      var upTo := if |all| - given <= room then |all| else given + room;
      out := all[given..upTo];
      given := upTo;
      if codec.verdict(fed) == End && given == |all| { return Z_STREAM_END, used, out; }
      if used == 0 && out == [] { return Z_BUF_ERROR, used, out; }
      return Z_OK, used, out;
    }
  }

  // ---- What the bytes received so far amount to

  datatype Code = OK | WRITE_ERROR | BAD_CONTENT_ENCODING

  datatype Stage = Waiting | Inflating | Trailing(missing: nat) | Finished | Failed(code: Code)

  /** CRC-32 and input size after the deflate stream (section 2.2 of RFC 1952). */
  const TRAILER_LENGTH := 8

  /** How many bytes of b the decoder takes. */
  function Stop(c: Codec, b: seq<Byte>): (k: nat)
    ensures k <= |b|
    ensures forall i :: 0 <= i < k ==> c.verdict(b[..i]) == More
    ensures k < |b| ==> c.verdict(b[..k]) != More
  {
    StopFrom(c, b, 0)
  }

  function StopFrom(c: Codec, b: seq<Byte>, k: nat): (r: nat)
    requires k <= |b| && forall i :: 0 <= i < k ==> c.verdict(b[..i]) == More
    ensures k <= r <= |b|
    ensures forall i :: 0 <= i < r ==> c.verdict(b[..i]) == More
    ensures r < |b| ==> c.verdict(b[..r]) != More
    decreases |b| - k
  {
    if k == |b| || c.verdict(b[..k]) != More then k else StopFrom(c, b, k + 1)
  }

  lemma StopIs(c: Codec, b: seq<Byte>, k: nat)
    requires k <= |b| && (forall i :: 0 <= i < k ==> c.verdict(b[..i]) == More)
    requires k < |b| ==> c.verdict(b[..k]) != More
    ensures Stop(c, b) == k
  {
    hide Stop;
    var r := Stop(c, b);
  }

  /** The part of the stream that is handed to inflate and taken by it. */
  function Body(c: Codec, r: seq<Byte>): seq<Byte> {
    var check := CheckHeader(r);
    if check.Complete? then r[check.length..][..Stop(c, r[check.length..])] else []
  }

  function StageOf(c: Codec, r: seq<Byte>): Stage {
    match CheckHeader(r)
    case Underflow => Waiting
    case Bad => Failed(BAD_CONTENT_ENCODING)
    case Complete(n) =>
      match c.verdict(Body(c, r))
      case More => Inflating
      case Broken => Failed(BAD_CONTENT_ENCODING)
      case End =>
        var trailer := |r| - n - |Body(c, r)|;
        if trailer < TRAILER_LENGTH then Trailing(TRAILER_LENGTH - trailer)
        else if trailer == TRAILER_LENGTH then Finished
        else Failed(WRITE_ERROR)
  }

  function Outcome(s: Stage): Code {
    if s.Failed? then s.code else OK
  }

  lemma StoppedBodyIsFinal(c: Codec, b: seq<Byte>, e: seq<Byte>)
    requires c.verdict(b[..Stop(c, b)]) != More
    ensures Stop(c, b + e) == Stop(c, b) && (b + e)[..Stop(c, b)] == b[..Stop(c, b)]
  {
    hide Stop;
    var k := Stop(c, b);
    assert (b + e)[..k] == b[..k];
    forall i | 0 <= i < k ensures c.verdict((b + e)[..i]) == More {
      assert (b + e)[..i] == b[..i];
    }
    StopIs(c, b + e, k);
  }

  /** Nothing that arrives later mends a failed stream, or changes the reason it failed for. */
  lemma FailureIsFinal(c: Codec, r: seq<Byte>, e: seq<Byte>)
    requires StageOf(c, r).Failed?
    ensures StageOf(c, r + e) == StageOf(c, r)
  {
    hide CheckHeader, Stop;
    VerdictIsStable(r, e);
    var check := CheckHeader(r);
    if check.Complete? {
      assert (r + e)[check.length..] == r[check.length..] + e;
      StoppedBodyIsFinal(c, r[check.length..], e);
    }
  }

  // ---- The writer

  datatype ZlibState = ZLIB_UNINIT | ZLIB_INIT | ZLIB_EXTERNAL_TRAILER | ZLIB_GZIP_HEADER | ZLIB_GZIP_INFLATING

  const DSIZ := 16384

  class GzipWriter {
    var zlibInit: ZlibState
    var trailerlen: nat
    var nextIn: seq<Byte>
    const z: ZStream
    /** What went to the next writer of the stack. */
    var delivered: seq<Byte>
    ghost var received: seq<Byte>

    constructor (codec: Codec)
      requires Causal(codec)
      ensures Valid() && fresh(z) && z.codec == codec && received == [] && delivered == []
    {
      z := new ZStream(codec);
      zlibInit, trailerlen, nextIn := ZLIB_INIT, TRAILER_LENGTH, [];
      delivered, received := [], [];
    }

    /** The fields are those of the stage the received bytes have reached, however they were cut. */
    ghost predicate Valid()
      reads this, z
    {
      var stage := StageOf(z.codec, received);
      && z.Valid()
      && z.fed == Body(z.codec, received)
      && (stage != Failed(BAD_CONTENT_ENCODING) ==> delivered == z.codec.output(z.fed) && z.given == |delivered|)
      && delivered <= z.codec.output(z.fed)
      && match zlibInit
         case ZLIB_INIT => received == [] && trailerlen == TRAILER_LENGTH
         case ZLIB_GZIP_HEADER => stage.Waiting? && received != [] && nextIn == received && trailerlen == TRAILER_LENGTH
         case ZLIB_GZIP_INFLATING => stage.Inflating? && trailerlen == TRAILER_LENGTH
         case ZLIB_EXTERNAL_TRAILER => stage == Trailing(trailerlen)
         case ZLIB_UNINIT => stage.Finished? || stage.Failed?
    }

    method ExitZlib(result: Code) returns (r: Code)
      modifies this`zlibInit
      ensures zlibInit == ZLIB_UNINIT && r == result
    {
      zlibInit := ZLIB_UNINIT;
      r := result;
    }

    /** Takes expected trailer bytes; anything beyond them is an error. */
    method ProcessTrailer() returns (result: Code)
      modifies this`zlibInit, this`trailerlen, this`nextIn
      ensures trailerlen == if |old(nextIn)| < old(trailerlen) then old(trailerlen) - |old(nextIn)| else 0
      ensures zlibInit == if |old(nextIn)| < old(trailerlen) then ZLIB_EXTERNAL_TRAILER else ZLIB_UNINIT
      ensures result == if |old(nextIn)| > old(trailerlen) then WRITE_ERROR else OK
    {
      var len := if |nextIn| < trailerlen then |nextIn| else trailerlen;
      result := OK;
      trailerlen := trailerlen - len;
      nextIn := nextIn[len..];
      if nextIn != [] { result := WRITE_ERROR; }
      if result != OK || trailerlen == 0 {
        result := ExitZlib(result);
      } else {
        zlibInit := ZLIB_EXTERNAL_TRAILER;
      }
    }

    /** The input left is what zlib has not taken of the stream after its header, and all its output is delivered. */
    ghost predicate Feeding(b: seq<Byte>)
      reads this, z
    {
      && z.Valid() && z.fed + nextIn == b
      && CheckHeader(received).Complete? && received[CheckHeader(received).length..] == b
      && zlibInit == ZLIB_GZIP_INFLATING && trailerlen == TRAILER_LENGTH
      && |delivered| <= z.given && delivered == z.codec.output(z.fed)[..|delivered|]
    }

    /** Acts on the status with which zlib ended. */
    method Dispatch(status: Status, ghost b: seq<Byte>) returns (result: Code)
      requires Feeding(b) && status != Z_OK
      requires status == Z_BUF_ERROR ==> nextIn == [] && z.codec.verdict(z.fed) == More
      requires status == Z_STREAM_END ==> z.codec.verdict(z.fed) == End
      requires status != Z_DATA_ERROR ==> |delivered| == z.given == |z.codec.output(z.fed)|
      requires status == Z_DATA_ERROR ==> z.codec.verdict(z.fed) == Broken
      modifies this`zlibInit, this`trailerlen, this`nextIn
      ensures Valid() && result == Outcome(StageOf(z.codec, received))
    {
      hide CheckHeader, Stop;
      Stopped(b);
      match status {
        case Z_BUF_ERROR => result := OK;
        case Z_STREAM_END => result := ProcessTrailer();
        case Z_DATA_ERROR => result := ExitZlib(BAD_CONTENT_ENCODING);
      }
    }

    /** One call of inflate(), its output passed on. */
    method InflateOnce(ghost b: seq<Byte>) returns (status: Status)
      requires Feeding(b) && |delivered| == z.given
      modifies this`nextIn, this`delivered, z
      ensures Feeding(b) && (status != Z_DATA_ERROR ==> |delivered| == z.given)
      ensures status == Z_OK ==>
          |nextIn| < old(|nextIn|) || (nextIn == old(nextIn) && z.fed == old(z.fed) && z.given > old(z.given))
      ensures status == Z_STREAM_END ==> z.codec.verdict(z.fed) == End && z.given == |z.codec.output(z.fed)|
      ensures status == Z_BUF_ERROR ==>
          nextIn == [] && z.codec.verdict(z.fed) == More && z.given == |z.codec.output(z.fed)|
      ensures status == Z_DATA_ERROR ==> z.codec.verdict(z.fed) == Broken
    {
      hide CheckHeader;
      ghost var fedBefore := z.fed;
      var used, out;
      status, used, out := z.Inflate(nextIn, DSIZ);
      assert z.codec.output(fedBefore) <= z.codec.output(z.fed);
      assert used == 0 ==> z.fed == fedBefore;
      nextIn := nextIn[used..];
      assert z.fed + nextIn == b;
      if out != [] && (status == Z_OK || status == Z_STREAM_END) {
        delivered := delivered + out;
      }
    }

    /** Hands the input to zlib until it has no more to give. */
    method InflateStream(ghost b: seq<Byte>) returns (result: Code)
      requires Feeding(b) && |delivered| == z.given == |z.codec.output(z.fed)| && z.codec.verdict(z.fed) == More
      modifies this`zlibInit, this`trailerlen, this`nextIn, this`delivered, z
      ensures Valid() && result == Outcome(StageOf(z.codec, received))
    {
      hide CheckHeader, Stop, StageOf, Body, Valid;
      var done := false;
      result := OK;
      while !done
        invariant !done ==> Feeding(b) && |delivered| == z.given
        invariant done ==> Valid() && result == Outcome(StageOf(z.codec, received))
        decreases !done, |nextIn|, |z.codec.output(z.fed)| - z.given
      {
        var status := InflateOnce(b);
        if status != Z_OK {
          done := true;
          result := Dispatch(status, b);
        }
      }
    }

    /** Where zlib stopped is where the stream stops for any cutting. */
    lemma Stopped(b: seq<Byte>)
      requires z.Valid() && z.fed + nextIn == b
      requires CheckHeader(received).Complete? && received[CheckHeader(received).length..] == b
      requires z.codec.verdict(z.fed) != More || nextIn == []
      ensures Body(z.codec, received) == z.fed
    {
      hide CheckHeader, Stop;
      assert b[..|z.fed|] == z.fed;
      forall i | 0 <= i < |z.fed| ensures z.codec.verdict(b[..i]) == More {
        assert b[..i] == z.fed[..i];
      }
      StopIs(z.codec, b, |z.fed|);
    }
  
    /** Before the header is complete nothing has been handed to zlib. */
    method StartInflating(n: nat, rest: seq<Byte>) returns (result: Code)
      requires z.Valid() && z.fed == [] && z.given == 0 && delivered == [] && trailerlen == TRAILER_LENGTH
      requires CheckHeader(received) == Complete(n) && rest == received[n..]
      modifies this`zlibInit, this`trailerlen, this`nextIn, this`delivered, z
      ensures Valid() && result == Outcome(StageOf(z.codec, received))
    {
      hide CheckHeader, Stop;
      nextIn := rest;
      zlibInit := ZLIB_GZIP_INFLATING;
      assert z.fed + nextIn == rest;
      if nextIn == [] {
        Stopped(rest);
        return OK;
      }
      result := InflateStream(rest);
    }

    /** Takes the next piece of the stream. */
    method GzipUnencodeWrite(buf: seq<Byte>) returns (result: Code)
      requires Valid() && buf != []
      modifies this, z
      ensures Valid() && received == old(received) + buf
      ensures result == if old(StageOf(z.codec, received)).Failed? then WRITE_ERROR
          else Outcome(StageOf(z.codec, received))
    {
      hide CheckHeader, Stop;
      ghost var before := received;
      received := received + buf;
      match zlibInit {
        case ZLIB_INIT =>
          assert received == buf;
          StartsWaiting(z.codec);
          var check := CheckGzipHeader(buf);
          match check {
            case Complete(hlen) =>
              result := StartInflating(hlen, buf[hlen..]);
            case Underflow =>
              nextIn := buf;
              zlibInit := ZLIB_GZIP_HEADER;
              return OK;
            case Bad =>
              result := ExitZlib(BAD_CONTENT_ENCODING);
          }
        case ZLIB_GZIP_HEADER =>
          nextIn := nextIn + buf;
          var availIn := |nextIn|;
          var check := CheckGzipHeader(nextIn);
          match check {
            case Complete(hlen) =>
              EndIsInNewPart(before, buf);
              var at := hlen + |buf| - availIn;
              assert buf[at..] == received[hlen..];
              result := StartInflating(hlen, buf[at..]);
            case Underflow =>
              return OK;
            case Bad =>
              result := ExitZlib(BAD_CONTENT_ENCODING);
          }
        case ZLIB_EXTERNAL_TRAILER =>
          MoreTrailer(before, buf);
          nextIn := buf;
          result := ProcessTrailer();
        case ZLIB_GZIP_INFLATING =>
          MoreBody(before, buf);
          nextIn := buf;
          result := InflateStream(z.fed + buf);
        case ZLIB_UNINIT =>
          // inflate_stream refuses to run in this state
          if StageOf(z.codec, before).Failed? { FailedEarly(z.codec, before, buf); } else { MoreTrailer(before, buf); }
          nextIn := buf;
          result := ExitZlib(WRITE_ERROR);
      }
    }

    lemma MoreTrailer(r: seq<Byte>, buf: seq<Byte>)
      requires StageOf(z.codec, r).Trailing? || StageOf(z.codec, r).Finished?
      ensures Body(z.codec, r + buf) == Body(z.codec, r)
      ensures var missing := if StageOf(z.codec, r).Trailing? then StageOf(z.codec, r).missing else 0;
              StageOf(z.codec, r + buf) == if |buf| < missing then Trailing(missing - |buf|)
                                           else if |buf| == missing then Finished else Failed(WRITE_ERROR)
    {
      hide CheckHeader, Stop;
      VerdictIsStable(r, buf);
      var n := CheckHeader(r).length;
      assert (r + buf)[n..] == r[n..] + buf;
      StoppedBodyIsFinal(z.codec, r[n..], buf);
    }

    lemma MoreBody(r: seq<Byte>, buf: seq<Byte>)
      requires StageOf(z.codec, r).Inflating?
      ensures CheckHeader(r + buf) == CheckHeader(r)
      ensures (r + buf)[CheckHeader(r).length..] == Body(z.codec, r) + buf
      ensures z.codec.verdict(Body(z.codec, r)) == More
    {
      hide CheckHeader;
      VerdictIsStable(r, buf);
      var n := CheckHeader(r).length;
      assert (r + buf)[n..] == r[n..] + buf;
      StopReachesEnd(z.codec, r[n..]);
    }
  }

  lemma StopReachesEnd(c: Codec, b: seq<Byte>)
    requires c.verdict(b[..Stop(c, b)]) == More
    ensures b[..Stop(c, b)] == b
  {
    hide Stop;
    var k := Stop(c, b);
    assert k == |b|;
  }

  // ---- A whole transfer

  lemma NoPieces(chunks: seq<seq<Byte>>)
    ensures Flat(chunks[..0]) == []
  {
  }

  /** Feeds a stream cut into pieces, empty ones skipped, until a write fails. What comes out depends on the
      stream alone, not on the cutting. */
  method UnencodeAll(codec: Codec, chunks: seq<seq<Byte>>) returns (result: Code, w: GzipWriter)
    requires Causal(codec)
    ensures fresh(w) && fresh(w.z) && w.Valid() && w.z.codec == codec
    ensures result == Outcome(StageOf(codec, Flat(chunks)))
    ensures w.z.fed == Body(codec, Flat(chunks))
    ensures w.delivered <= codec.output(Body(codec, Flat(chunks)))
    ensures result != BAD_CONTENT_ENCODING ==> w.delivered == codec.output(Body(codec, Flat(chunks)))
  {
    hide StageOf, Body, Flat, CheckHeader, Stop;
    assert Flat(chunks[..0]) == [] by { NoPieces(chunks); }
    w := new GzipWriter(codec);
    result := OK;
    StartsWaiting(codec);
    for i := 0 to |chunks|
      invariant fresh(w) && fresh(w.z) && w.Valid() && w.z.codec == codec
      invariant w.received == Flat(chunks[..i])
      invariant result == OK == Outcome(StageOf(codec, w.received))
      invariant !StageOf(codec, w.received).Failed?
    {
      FlatPush(chunks[..i], chunks[i]);
      assert chunks[..i + 1] == chunks[..i] + [chunks[i]];
      if chunks[i] != [] {
        result := w.GzipUnencodeWrite(chunks[i]);
        if result != OK {
          FlatConcat(chunks[..i + 1], chunks[i + 1..]);
          assert chunks == chunks[..i + 1] + chunks[i + 1..];
          FailedEarly(codec, w.received, Flat(chunks[i + 1..]));
          return;
        }
        OutcomeTells(codec, w.received);
      }
    }
    assert chunks[..|chunks|] == chunks;
  }

  lemma StartsWaiting(codec: Codec)
    ensures StageOf(codec, []) == Waiting && Body(codec, []) == []
  {
  }

  lemma OutcomeTells(codec: Codec, r: seq<Byte>)
    ensures StageOf(codec, r).Failed? <==> Outcome(StageOf(codec, r)) != OK
  {
  }

  lemma FailedEarly(codec: Codec, r: seq<Byte>, e: seq<Byte>)
    requires Outcome(StageOf(codec, r)) != OK
    ensures StageOf(codec, r + e) == StageOf(codec, r) && Body(codec, r + e) == Body(codec, r)
  {
    hide CheckHeader, Stop;
    FailureIsFinal(codec, r, e);
    VerdictIsStable(r, e);
    var check := CheckHeader(r);
    if check.Complete? {
      assert (r + e)[check.length..] == r[check.length..] + e;
      StoppedBodyIsFinal(codec, r[check.length..], e);
    }
  }
}
