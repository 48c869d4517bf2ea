/** A buffer that grows by doubling, up to a limit. */
module DynBuf {
  import opened Lists

  const MIN_FIRST_ALLOC := 32

  /** The text, the size of the allocation, the limit; sizes are those allocated since the buffer was last
      without memory, and peak is the most that was ever needed since then. */
  datatype Buffer = Buffer(text: string, allc: nat, toobig: nat, sizes: seq<nat>, peak: nat)

  function Fresh(toobig: nat): Buffer { Buffer("", 0, toobig, [], 0) }

  function Max(a: nat, b: nat): nat { if a < b then b else a }

  /** Doubles until it is large enough. */
  function Doubled(a: nat, fit: nat): (r: nat)
    requires 0 < a
    ensures fit <= r && a <= r && (a != r ==> 2 * a <= r < 2 * fit)
    decreases fit - a
  {
    if a < fit then Doubled(2 * a, fit) else a
  }

  function SizeFor(allc: nat, fit: nat): nat {
    if allc == 0 then Max(MIN_FIRST_ALLOC, fit) else Doubled(allc, fit)
  }

  function Free(b: Buffer): Buffer { Fresh(b.toobig) }

  function Reset(b: Buffer): Buffer { b.(text := "") }

  /** Appending fails for a text past the limit, and for want of memory; the buffer is empty then. */
  predicate Fails(b: Buffer, mem: string, noMemory: bool) {
    var fit := |mem| + |b.text| + 1;
    fit > b.toobig || (noMemory && SizeFor(b.allc, fit) != b.allc)
  }

  function Append(b: Buffer, mem: string, noMemory: bool): Buffer {
    if Fails(b, mem, noMemory) then Free(b)
    else
      var fit := |mem| + |b.text| + 1;
      var a := SizeFor(b.allc, fit);
      var sizes := if a != b.allc then b.sizes + [a] else b.sizes;
      b.(text := b.text + mem, allc := a, sizes := sizes, peak := Max(b.peak, fit))
  }

  function Sum(sizes: seq<nat>): nat {
    if sizes == [] then 0 else Sum(sizes[..|sizes| - 1]) + sizes[|sizes| - 1]
  }

  /** The text and its terminator fit the allocation and the limit; the allocation is below twice the limit, or
      at most 32; all that was allocated on the way sums to less than twice the allocation. */
  ghost predicate Sound(b: Buffer) {
    && 0 < b.toobig && |b.text| + 1 <= b.toobig
    && (b.allc == 0 ==> b.text == "" && b.sizes == [] && b.peak == 0)
    && (b.allc > 0 ==> |b.text| + 1 <= b.peak <= b.allc && b.sizes != [] && b.sizes[|b.sizes| - 1] == b.allc)
    && b.allc < Max(MIN_FIRST_ALLOC + 1, 2 * b.toobig)
    && b.allc <= Max(MIN_FIRST_ALLOC, 2 * b.peak)
    && (forall i :: 0 < i < |b.sizes| ==> 2 * b.sizes[i - 1] <= b.sizes[i])
  }

  lemma AppendKeeps(b: Buffer, mem: string, noMemory: bool)
    requires Sound(b)
    ensures Sound(Append(b, mem, noMemory))
  {
  }

  /** Doubling makes the sum of all sizes less than twice the last. */
  lemma {:induction false} SumBelowTwiceLast(sizes: seq<nat>)
    requires sizes != [] && forall i :: 0 < i < |sizes| ==> 2 * sizes[i - 1] <= sizes[i]
    ensures Sum(sizes) <= 2 * sizes[|sizes| - 1]
  {
    var n := |sizes| - 1;
    assert Sum(sizes) == Sum(sizes[..n]) + sizes[n];
    if n > 0 { SumBelowTwiceLast(sizes[..n]); }
  }

  // ---- Runs

  datatype Op = AppendOp(mem: string, noMemory: bool) | ResetOp | FreeOp

  function Apply(b: Buffer, op: Op): Buffer {
    match op
    case AppendOp(mem, noMemory) => Append(b, mem, noMemory)
    case ResetOp => Reset(b)
    case FreeOp => Free(b)
  }

  function Run(toobig: nat, ops: seq<Op>): Buffer {
    if ops == [] then Fresh(toobig) else Apply(Run(toobig, ops[..|ops| - 1]), ops[|ops| - 1])
  }

  /** The pieces appended since the last reset, free or failure. */
  function Pieces(toobig: nat, ops: seq<Op>): seq<string> {
    if ops == [] then []
    else
      var before, op := ops[..|ops| - 1], ops[|ops| - 1];
      if op.AppendOp? && !Fails(Run(toobig, before), op.mem, op.noMemory) then Pieces(toobig, before) + [op.mem] else []
  }

  /** After every run the text is the pieces joined. */
  lemma {:induction false} RunIsConcatenation(toobig: nat, ops: seq<Op>)
    requires 0 < toobig
    ensures Run(toobig, ops).text == Flat(Pieces(toobig, ops))
    ensures Sound(Run(toobig, ops)) && Run(toobig, ops).toobig == toobig
    decreases |ops|
  {
    if ops != [] {
      var before, op := ops[..|ops| - 1], ops[|ops| - 1];
      RunIsConcatenation(toobig, before);
      if op.AppendOp? {
        AppendKeeps(Run(toobig, before), op.mem, op.noMemory);
        assert (Pieces(toobig, before) + [op.mem])[..|Pieces(toobig, before)|] == Pieces(toobig, before);
      }
    }
  }

  /** After every run a piece is appended exactly when it fits the limit with its terminator, and memory too unless more
      is to be had; it grows by doubling, from 32 or what is needed at once. Otherwise text and memory are given up. */
  lemma AppendsExactly(toobig: nat, ops: seq<Op>, mem: string, noMemory: bool)
    requires 0 < toobig
    ensures var b := Run(toobig, ops);
            var fit, b' := |b.text| + |mem| + 1, Apply(b, AppendOp(mem, noMemory));
            if fit <= toobig && (fit <= b.allc || !noMemory) then
              && b'.text == b.text + mem
              && (fit <= b.allc ==> b'.allc == b.allc)
              && (b.allc == 0 ==> b'.allc == if fit < 32 then 32 else fit)
              && (0 < b.allc < fit ==> fit <= b'.allc < 2 * fit && b'.allc >= 2 * b.allc)
            else
              b'.text == "" && b'.allc == 0
  {
    hide Run;
    RunIsConcatenation(toobig, ops);
  }

  /** A reset leaves the memory for the next text, a free does not. */
  lemma ResetKeepsMemory(toobig: nat, ops: seq<Op>)
    ensures var b := Run(toobig, ops); Apply(b, ResetOp) == b.(text := "") && Apply(b, FreeOp).allc == 0
  {
    hide Run;
  }

  /** What is allocated in one life of the buffer is linear in the most it ever held. */
  lemma GrowthIsLinear(toobig: nat, ops: seq<Op>)
    requires 0 < toobig
    ensures var b := Run(toobig, ops);
            Sum(b.sizes) <= 2 * b.allc && Sum(b.sizes) <= 2 * Max(MIN_FIRST_ALLOC, 2 * b.peak)
  {
    RunIsConcatenation(toobig, ops);
    var b := Run(toobig, ops);
    if b.sizes != [] { SumBelowTwiceLast(b.sizes); }
  }
}
