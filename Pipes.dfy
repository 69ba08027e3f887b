// A minimal bounded FIFO standing in for leansdr's pipebuf together with
// the single pipereader and pipewriter attached to it.  Only the contract
// the blocks rely on is modelled: how many elements can be read, how many
// can still be written, and committing a read or a write of whole elements.

module Pipes {

  /** What a block invocation reports to whoever drives it.  The source
      terminates the process on a fatal condition; here that is a value. */
  datatype Outcome = Done | Fatal(reason: string) | OutOfFuel

  /** A construction that either yields a value or fails with a reason. */
  datatype Result<T> = Success(value: T) | Failure(reason: string)

  function Min(a: int, b: int): int
  {
    if a <= b then a else b
  }

  function Max(a: int, b: int): int
  {
    if a >= b then a else b
  }

  class Pipe<T> {
    /** Elements written and not yet read, oldest first. */
    var buf: seq<T>
    /** The most elements the buffer can hold. */
    const capacity: nat

    ghost predicate Valid()
      reads this
    {
      |buf| <= capacity
    }

    constructor (capacity: nat)
      ensures Valid() && buf == [] && this.capacity == capacity
    {
      this.capacity := capacity;
      buf := [];
    }

    /** readable(): elements available to the reader. */
    function Readable(): nat
      reads this
    {
      |buf|
    }

    /** writable(): room left for the writer. */
    function Writable(): nat
      reads this
      requires Valid()
    {
      capacity - |buf|
    }

    /** read(n): the reader consumes the n oldest elements. */
    method Read(n: nat)
      requires Valid() && n <= |buf|
      modifies this
      ensures Valid() && buf == old(buf)[n..]
    {
      buf := buf[n..];
    }

    /** wr() filled with xs followed by written(|xs|): the writer appends
        whole elements, never more than the room it was given. */
    method Written(xs: seq<T>)
      requires Valid() && |xs| <= Writable()
      modifies this
      ensures Valid() && buf == old(buf) + xs
    {
      buf := buf + xs;
    }
  }
}
