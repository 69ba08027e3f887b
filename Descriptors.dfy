// POSIX descriptors as the blocks see them through read(2), write(2) and
// lseek(2).  The system's choices (how many bytes a call moves, whether it
// fails) are an oracle sequence fixed in advance, one entry per call.

module Descriptors {
  import opened Pipes
  import opened Bytes

  /** The entry governing the next call moving size bytes: the head of the
      oracle, or size itself once the oracle has run out. */
  function Grant(grants: seq<int>, size: nat): int
  {
    if grants == [] then size else grants[0]
  }

  /** The oracle once one call has used its entry. */
  function AfterCall(grants: seq<int>): (rest: seq<int>)
    ensures |rest| == if grants == [] then 0 else |grants| - 1
  {
    if grants == [] then [] else grants[1..]
  }

  /** What read(2) of size bytes at offset in a file of len bytes returns:
      -1 on a failing entry, otherwise as many bytes as the entry, the
      request and the rest of the file all allow. */
  function ReadResult(grants: seq<int>, offset: nat, len: nat, size: nat): (nr: int)
    ensures nr >= 0 ==> nr <= size && offset + nr <= len
    ensures offset <= len ==> (nr < 0 <==> Grant(grants, size) < 0)
    ensures offset <= len ==>
              (nr == 0 <==> Grant(grants, size) >= 0
                            && (Grant(grants, size) == 0 || size == 0 || offset == len))
  {
    var g := Grant(grants, size);
    if g < 0 then -1 else Min(Min(g, size), len - offset)
  }

  /** What write(2) of size bytes returns: -1 on a failing entry, otherwise
      the leading bytes the entry lets through. */
  function WriteResult(grants: seq<int>, size: nat): (nw: int)
    ensures nw < 0 <==> Grant(grants, size) < 0
    ensures nw >= 0 ==> nw <= size && (nw == size <==> Grant(grants, size) >= size)
  {
    var g := Grant(grants, size);
    if g < 0 then -1 else Min(g, size)
  }

  /** A readable descriptor over a file whose bytes are content. */
  class InputFile {
    const content: seq<byte>
    /** The file offset. */
    var offset: nat
    /** One entry per future read: a negative entry makes that read fail,
        otherwise it is the most bytes that read may deliver.  Once the
        entries run out, reads deliver all they can. */
    var grants: seq<int>
    /** Whether lseek succeeds on this descriptor. */
    const seekable: bool

    ghost predicate Valid()
      reads this
    {
      offset <= |content|
    }

    constructor (content: seq<byte>, grants: seq<int>, seekable: bool)
      ensures Valid() && offset == 0
      ensures this.content == content && this.grants == grants && this.seekable == seekable
    {
      this.content := content;
      this.grants := grants;
      this.seekable := seekable;
      offset := 0;
    }

    /** What the next read of size bytes returns. */
    function NextRead(size: nat): (nr: int)
      requires Valid()
      reads this
      ensures nr >= 0 ==> nr <= size && offset + nr <= |content|
    {
      ReadResult(grants, offset, |content|, size)
    }

    /** read(fd, buf, size): a negative result is an error; otherwise the
        result counts the bytes delivered, the next ones of the file, and is
        0 only when nothing could be delivered (end of file). */
    method Read(size: nat) returns (nr: int, bytes: seq<byte>)
      requires Valid()
      modifies this`offset, this`grants
      ensures Valid()
      ensures grants == AfterCall(old(grants))
      ensures nr == old(NextRead(size))
      ensures if nr < 0 then bytes == [] && offset == old(offset)
              else offset == old(offset) + nr && bytes == content[old(offset)..offset]
    {
      nr := NextRead(size);
      grants := AfterCall(grants);
      if nr < 0 {
        return -1, [];
      }
      bytes := content[offset..offset + nr];
      offset := offset + nr;
    }

    /** lseek(fd, 0, SEEK_SET): -1 when the descriptor cannot seek. */
    method Rewind() returns (res: int)
      requires Valid()
      modifies this`offset
      ensures Valid()
      ensures if seekable then res == 0 && offset == 0 else res == -1 && offset == old(offset)
    {
      if !seekable {
        return -1;
      }
      offset := 0;
      return 0;
    }
  }

  /** A writable descriptor; written is everything it has accepted. */
  class OutputFile {
    var written: seq<byte>
    /** One entry per future write: a negative entry makes that write fail,
        otherwise it is the most bytes that write may accept.  Once the
        entries run out, writes accept everything. */
    var grants: seq<int>

    constructor (grants: seq<int>)
      ensures written == [] && this.grants == grants
    {
      written := [];
      this.grants := grants;
    }

    /** write(fd, buf, size): a negative result is an error; otherwise the
        result counts the leading bytes of buf that were accepted. */
    method Write(bytes: seq<byte>) returns (nw: int)
      modifies this
      ensures grants == AfterCall(old(grants))
      ensures nw == WriteResult(old(grants), |bytes|)
      ensures written == old(written) + bytes[..Max(nw, 0)]
    {
      nw := WriteResult(grants, |bytes|);
      grants := AfterCall(grants);
      if nw < 0 {
        return;
      }
      written := written + bytes[..nw];
    }
  }
}
