/** The buffer object and its memory. */
module DynBufEngine {
  import opened ByteString
  import opened DynBuf

  class DynBufData {
    var bufr: array?<char>
    var leng: nat
    var allc: nat
    const toobig: nat
    ghost var sizes: seq<nat>
    ghost var peak: nat

    /** The memory has the size on record, and the text in it ends in a zero. */
    ghost predicate Valid()
      reads this, bufr
    {
      && (bufr == null <==> allc == 0)
      && (bufr != null ==> bufr.Length == allc && leng < allc && bufr[leng] == NUL)
      && (bufr == null ==> leng == 0)
      && Sound(Contents())
    }

    ghost function Contents(): Buffer
      reads this, bufr
    {
      Buffer(if bufr != null && leng <= bufr.Length then bufr[..leng] else "", allc, toobig, sizes, peak)
    }

    constructor (toobig: nat)
      requires 0 < toobig
      ensures Valid() && bufr == null && Contents() == DynBuf.Fresh(toobig)
    {
      bufr, leng, allc, sizes, peak := null, 0, 0, [], 0;
      this.toobig := toobig;
    }

    method Free()
      requires Valid()
      modifies this
      ensures Valid() && bufr == null && Contents() == DynBuf.Free(old(Contents()))
    {
      bufr, leng, allc, sizes, peak := null, 0, 0, [], 0;
    }

    /** realloc: larger memory with the same text in front. */
    method Realloc(a: nat)
      requires leng < a && (bufr != null ==> leng <= bufr.Length) && (bufr == null ==> leng == 0)
      modifies this
      ensures bufr != null && fresh(bufr) && bufr.Length == a == allc && leng == old(leng)
      ensures bufr[..leng] == old(Contents()).text && sizes == old(sizes) + [a] && peak == old(peak)
    {
      var p := new char[a];
      if bufr != null {
        forall i | 0 <= i < leng { p[i] := bufr[i]; }
      }
      bufr, allc := p, a;
      sizes := sizes + [a];
    }

    /** Copies the bytes behind the text, and ends it. */
    method Store(mem: string)
      requires bufr != null && leng + |mem| < bufr.Length
      modifies this`leng, bufr
      ensures leng == old(leng) + |mem| && bufr[..leng] == old(bufr[..leng]) + mem && bufr[leng] == NUL
    {
      var indx := leng;
      forall i | 0 <= i < |mem| { bufr[indx + i] := mem[i]; }
      leng := indx + |mem|;
      bufr[leng] := NUL;
    }

    /** noMemory: an allocation would fail. */
    method NAppend(mem: string, noMemory: bool) returns (ok: bool)
      requires Valid()
      modifies this, bufr
      ensures Valid() && (bufr == old(bufr) || bufr == null || fresh(bufr))
      ensures Contents() == Append(old(Contents()), mem, noMemory)
      ensures ok <==> !Fails(old(Contents()), mem, noMemory)
    {
      hide Sound;
      ghost var was := Contents();
      AppendKeeps(was, mem, noMemory);
      assert leng == |was.text|;
      var a := allc;
      var fit := |mem| + leng + 1;
      if fit > toobig {
        Free();
        return false;
      } else if a == 0 {
        a := if fit < MIN_FIRST_ALLOC then MIN_FIRST_ALLOC else fit;
      } else {
        while a < fit
          invariant 0 < a && Doubled(a, fit) == Doubled(allc, fit)
        {
          a := 2 * a;
        }
      }
      assert a == SizeFor(was.allc, fit);
      if a != allc {
        if noMemory {
          Free();
          return false;
        }
        Realloc(a);
      }
      assert bufr[..leng] == was.text;
      Store(mem);
      peak := Max(peak, fit);
      assert Contents() == Append(was, mem, noMemory);
      return true;
    }

    method Reset()
      requires Valid()
      modifies this`leng, bufr
      ensures Valid() && Contents() == DynBuf.Reset(old(Contents()))
    {
      if leng != 0 { bufr[0] := NUL; }
      leng := 0;
    }
  }
}
