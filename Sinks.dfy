// The sink adapters of leansdr's generic.h: file_writer (pipe to
// descriptor) and buffer_writer (pipe to caller-owned array).

module Sinks {
  import opened Pipes
  import opened Bytes
  import opened Descriptors
  import Arith

  // -------------------------------------------------------------- file_writer

  /** How one file_writer invocation ends, given the byte count it asked to
      write and the count write(2) returned. */
  function WriteOutcome(size: nat, nw: int, width: nat): (o: Outcome)
    requires width >= 1
    ensures o.Done? <==> size == 0 || (nw > 0 && nw % width == 0)
    ensures o.Fatal? <==> size > 0 && (nw <= 0 || nw % width != 0)
  {
    if size == 0 then Done
    else if nw == 0 then Fatal("pipe")
    else if nw < 0 then Fatal("write")
    else if nw % width != 0 then Fatal("partial write")
    else Done
  }

  class FileWriter {
    /** sizeof(T). */
    const width: nat
    const input: Pipe<seq<byte>>
    const fd: OutputFile

    ghost predicate Valid()
      reads this, input
    {
      width >= 1 && input.Valid() && Uniform(input.buf, width)
    }

    constructor (input: Pipe<seq<byte>>, fd: OutputFile, width: nat)
      requires width >= 1 && input.Valid() && Uniform(input.buf, width)
      ensures Valid() && this.input == input && this.fd == fd && this.width == width
    {
      this.input := input;
      this.fd := fd;
      this.width := width;
    }

    /** Writes the bytes of every readable element in one call, then consumes
        exactly the whole elements the descriptor accepted; an empty, failed
        or torn write is fatal and consumes nothing. */
    method Run() returns (o: Outcome, consumed: nat)
      requires Valid()
      modifies input, fd
      ensures Valid()
      ensures old(input.buf) == [] ==>
                o == Done && consumed == 0 && fd.written == old(fd.written)
                && fd.grants == old(fd.grants)
      ensures var size := |old(input.buf)| * width;
              var nw := WriteResult(old(fd.grants), size);
              size > 0 ==>
                && o == WriteOutcome(size, nw, width)
                && fd.grants == AfterCall(old(fd.grants))
                && |fd.written| == |old(fd.written)| + Max(nw, 0)
                && old(fd.written) <= fd.written
                && fd.written[|old(fd.written)|..] <= Flatten(old(input.buf))
      ensures !o.Done? ==> input.buf == old(input.buf)
      ensures o.Done? ==>
                && consumed <= |old(input.buf)|
                && (old(input.buf) != [] ==> consumed >= 1)
                && input.buf == old(input.buf)[consumed..]
                && fd.written == old(fd.written) + Flatten(old(input.buf)[..consumed])
    {
      var size := |input.buf| * width;
      consumed := 0;
      if size == 0 {
        return Done, consumed;
      }
      var bytes := Flatten(input.buf);
      FlattenLength(input.buf, width);
      var nw := fd.Write(bytes);
      o := WriteOutcome(size, nw, width);
      if !o.Done? {
        return;
      }
      consumed := nw / width;
      ConsumedBytes(input.buf, width, nw);
      input.Read(consumed);
    }
  }

  /** nw accepted bytes, a positive multiple of the width, are the bytes of
      the first nw/width elements. */
  lemma ConsumedBytes(xs: seq<seq<byte>>, w: nat, nw: nat)
    requires w >= 1 && Uniform(xs, w) && 0 < nw <= |xs| * w && nw % w == 0
    ensures 1 <= nw / w <= |xs| && |Flatten(xs)| == |xs| * w
    ensures Flatten(xs)[..nw] == Flatten(xs[..nw / w])
  {
    var k := nw / w;
    FlattenLength(xs, w);
    Arith.DivMod(nw, w);
    Arith.MulLess(|xs|, k, w);
    Arith.MulLess(0, k, w);
    assert xs == xs[..k] + xs[k..];
    FlattenConcat(xs[..k], xs[k..]);
    FlattenLength(xs[..k], w);
  }

  // ------------------------------------------------------------ buffer_writer

  class BufferWriter<T> {
    const input: Pipe<T>
    /** The caller's buffer; the first count elements may be filled. */
    const data: array<T>
    const count: nat
    /** How many elements have been stored so far. */
    var pos: nat
    /** Everything stored so far, in order. */
    ghost var stored: seq<T>

    ghost predicate Valid()
      reads this, data, input
    {
      count <= data.Length && pos <= count && input.Valid() && stored == data[..pos]
    }

    constructor (input: Pipe<T>, data: array<T>, count: nat)
      requires count <= data.Length && input.Valid()
      ensures Valid() && pos == 0 && stored == []
      ensures this.input == input && this.data == data && this.count == count
    {
      this.input := input;
      this.data := data;
      this.count := count;
      pos := 0;
      stored := [];
    }

    /** Stores as many readable elements as fit before count at the cursor,
        consumes them and advances the cursor; nothing past count changes. */
    method Run()
      requires Valid()
      modifies this`pos, this`stored, input, data
      ensures Valid()
      ensures var n := Min(|old(input.buf)|, count - old(pos));
              && pos == old(pos) + n
              && input.buf == old(input.buf)[n..]
              && stored == old(stored) + old(input.buf)[..n]
      ensures forall k :: 0 <= k < data.Length ==>
                data[k] == if old(pos) <= k < pos then old(input.buf)[k - old(pos)] else old(data[k])
    {
      var n := Min(|input.buf|, count - pos);
      var src := input.buf;
      for i := 0 to n
        invariant pos == old(pos) && stored == old(stored) && input.buf == src
        invariant forall k :: 0 <= k < data.Length ==>
                    data[k] == if pos <= k < pos + i then src[k - pos] else old(data[k])
      {
        data[pos + i] := src[i];
      }
      input.Read(n);
      assert data[..pos + n] == stored + src[..n];
      stored := stored + src[..n];
      pos := pos + n;
    }
  }
}
