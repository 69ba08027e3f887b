// The source adapters of leansdr's generic.h: file_reader (descriptor to
// pipe) and buffer_reader (caller-owned array to pipe).

module Sources {
  import opened Pipes
  import opened Bytes
  import opened Descriptors
  import Arith

  // -------------------------------------------------------------- file_reader

  /** n bytes end on an element boundary of width w. */
  predicate Aligned(n: nat, w: nat)
    requires w >= 1
  {
    n % w == 0
  }

  /** The bytes still missing from a torn final element after nr bytes:
      the fewest that bring nr to an element boundary. */
  function TornRemainder(nr: nat, w: nat): (r: nat)
    requires w >= 1
    ensures r < w && Aligned(nr + r, w)
    ensures forall m :: nr <= m < nr + r ==> !Aligned(m, w)
  {
    var partial := nr % w;
    Arith.DivMod(nr, w);
    if partial == 0 then 0
    else
      Arith.DivModUnique(nr + (w - partial), w, nr / w + 1, 0);
      assert forall m :: nr <= m < nr + (w - partial) ==> !Aligned(m, w) by {
        forall m | nr <= m < nr + (w - partial)
          ensures !Aligned(m, w)
        {
          Arith.DivModUnique(m, w, nr / w, partial + (m - nr));
        }
      }
      w - partial
  }

  /** Completing a torn element never needs more room than the request
      that produced it, when that request was a whole number of elements. */
  lemma TornCompletionFits(nr: nat, w: nat, size: nat)
    requires w >= 1 && nr <= size && Aligned(size, w)
    ensures nr + TornRemainder(nr, w) <= size
  {
  }

  /** An aligned run of at most room*w bytes is at most room whole elements. */
  lemma SplitAligned(b: seq<byte>, w: nat, room: nat)
    requires w >= 1 && Aligned(|b|, w) && |b| <= room * w
    ensures |Split(b, w)| == |b| / w <= room && Uniform(Split(b, w), w)
  {
    Arith.DivMod(|b|, w);
    SplitFlatten(b, w, |b| / w);
    Arith.MulLess(room, |b| / w, w);
  }

  /** Whether the reads completing a torn element succeed: each asks for
      the remain bytes still missing, and one that fails or delivers
      nothing ends the completion.  Success needs the file to still hold
      the missing bytes. */
  function Completes(grants: seq<int>, offset: nat, len: nat, remain: nat): (c: bool)
    ensures c ==> remain == 0 || offset + remain <= len
    decreases remain
  {
    if remain == 0 then true
    else
      var nr := ReadResult(grants, offset, len, remain);
      if nr <= 0 then false else Completes(AfterCall(grants), offset + nr, len, remain - nr)
  }

  /** The oracle left once the reads completing a torn element are over,
      whether they succeed or not: a suffix of grants, shorter by at most
      one entry per missing byte. */
  function CompletesRest(grants: seq<int>, offset: nat, len: nat, remain: nat): (rest: seq<int>)
    ensures |rest| <= |grants| && |grants| - |rest| <= remain
    decreases remain
  {
    if remain == 0 then grants
    else
      var nr := ReadResult(grants, offset, len, remain);
      if nr <= 0 then AfterCall(grants)
      else CompletesRest(AfterCall(grants), offset + nr, len, remain - nr)
  }

  /** The offset the reads completing a torn element reach, whether they
      succeed or not: all the missing bytes further on when they succeed. */
  function CompletesOffset(grants: seq<int>, offset: nat, len: nat, remain: nat): (reached: nat)
    ensures offset <= reached <= offset + remain
    ensures Completes(grants, offset, len, remain) ==> reached == offset + remain
    decreases remain
  {
    if remain == 0 then offset
    else
      var nr := ReadResult(grants, offset, len, remain);
      if nr <= 0 then offset
      else CompletesOffset(AfterCall(grants), offset + nr, len, remain - nr)
  }

  /** The completion reads use up entries from the front of the oracle
      only: what is left is a suffix of it. */
  lemma {:induction false} CompletesRestSuffix(grants: seq<int>, offset: nat, len: nat, remain: nat)
    ensures var rest := CompletesRest(grants, offset, len, remain);
            rest == grants[|grants| - |rest|..]
    decreases remain
  {
    if remain > 0 {
      var nr := ReadResult(grants, offset, len, remain);
      if nr > 0 {
        CompletesRestSuffix(AfterCall(grants), offset + nr, len, remain - nr);
        if grants != [] {
          var rest := CompletesRest(grants, offset, len, remain);
          assert grants[1..][|grants| - 1 - |rest|..] == grants[|grants| - |rest|..];
        }
      }
    }
  }

  /** How the first reads of an invocation end: with the result nr of the
      last read, made from offset from, and the oracle left after it; or
      with the invocation stopped, and the oracle it left. */
  datatype ReadStop =
    | Delivered(grants: seq<int>, from: nat, nr: int)
    | Stopped(outcome: Outcome, grants: seq<int>)

  /** Rewind and read again from the start while reads deliver nothing, one
      unit of fuel per read again.  A descriptor that cannot seek stops the
      invocation with "lseek"; otherwise only running out of fuel stops it,
      and reads again end with a nonzero result from offset 0. */
  function Reread(grants: seq<int>, len: nat, seekable: bool, size: nat, fuel: nat): (r: ReadStop)
    ensures r.Stopped? ==> r.outcome == if seekable then OutOfFuel else Fatal("lseek")
    ensures r.Delivered? ==> seekable && r.from == 0 && r.nr != 0
    ensures r.Delivered? && r.nr >= 0 ==> r.nr <= size && r.nr <= len
    decreases fuel
  {
    if !seekable then Stopped(Fatal("lseek"), grants)
    else if fuel == 0 then Stopped(OutOfFuel, grants)
    else
      var nr := ReadResult(grants, 0, len, size);
      if nr != 0 then Delivered(AfterCall(grants), 0, nr)
      else Reread(AfterCall(grants), len, seekable, size, fuel - 1)
  }

  /** The first read at offset and, for a looping reader it leaves empty,
      the rewinds that follow.  The reads end at offset, or at 0 after a
      rewind; a zero result ends them only for a reader that does not
      loop, and only a looping reader is ever stopped. */
  function ReadStart(grants: seq<int>, offset: nat, len: nat, seekable: bool, loop: bool,
                     size: nat, fuel: nat): (r: ReadStop)
    ensures r.Stopped? ==> loop
    ensures r.Delivered? ==> (r.from == offset || (loop && r.from == 0)) && (r.nr == 0 ==> !loop)
    ensures r.Delivered? && r.nr >= 0 ==> r.nr <= size && r.from + r.nr <= len
  {
    var nr := ReadResult(grants, offset, len, size);
    if nr != 0 || !loop then Delivered(AfterCall(grants), offset, nr)
    else Reread(AfterCall(grants), len, seekable, size, fuel)
  }

  /** How a file_reader invocation with room for size bytes ends: Done, a
      fatal "read", "lseek" or "partial read", or out of fuel, the last two
      of these only for a looping reader. */
  function ReaderOutcome(grants: seq<int>, offset: nat, len: nat, seekable: bool, loop: bool,
                         size: nat, width: nat, fuel: nat): (o: Outcome)
    requires width >= 1
    ensures o in {Done, OutOfFuel, Fatal("read"), Fatal("lseek"), Fatal("partial read")}
    ensures o == OutOfFuel ==> loop && seekable && size > 0
    ensures o == Fatal("lseek") ==> loop && !seekable && size > 0
  {
    if size == 0 then Done
    else
      match ReadStart(grants, offset, len, seekable, loop, size, fuel)
      case Stopped(o, _) => o
      case Delivered(rest, from, nr) =>
        if nr < 0 then Fatal("read")
        else if nr == 0 then Done
        else if Completes(rest, from + nr, len, TornRemainder(nr, width)) then Done
        else Fatal("partial read")
  }

  /** Once the first reads deliver nr from offset from, the outcome
      depends on nr and the completion reads alone. */
  lemma OutcomeDelivered(grants: seq<int>, offset: nat, len: nat, seekable: bool, loop: bool,
                         size: nat, width: nat, fuel: nat, rest: seq<int>, from: nat, nr: int)
    requires width >= 1 && size > 0
    requires ReadStart(grants, offset, len, seekable, loop, size, fuel) == Delivered(rest, from, nr)
    ensures ReaderOutcome(grants, offset, len, seekable, loop, size, width, fuel)
            == if nr < 0 then Fatal("read")
               else if nr == 0 then Done
               else if Completes(rest, from + nr, len, TornRemainder(nr, width)) then Done
               else Fatal("partial read")
  {
  }

  /** The oracle an invocation leaves once its first reads ended as r: the
      one they left when they stopped or failed, otherwise the one the
      completion reads leave after it. */
  function ReaderGrants(r: ReadStop, len: nat, width: nat): (rest: seq<int>)
    requires width >= 1
    ensures |rest| <= |r.grants|
  {
    match r
    case Stopped(_, g) => g
    case Delivered(g, from, nr) =>
      if nr < 0 then g else CompletesRest(g, from + nr, len, TornRemainder(nr, width))
  }

  /** The offset an invocation leaves once its first reads ended as r,
      starting from offset: 0 after a rewind that ran out of fuel, offset
      itself after a failed rewind, the start of a failed read, otherwise
      where the completion reads reach. */
  function ReaderOffset(r: ReadStop, offset: nat, len: nat, width: nat): (reached: nat)
    requires width >= 1
    ensures r.Delivered? && r.nr >= 0 ==> r.from + r.nr <= reached <= r.from + r.nr + TornRemainder(r.nr, width)
  {
    match r
    case Stopped(o, _) => if o == OutOfFuel then 0 else offset
    case Delivered(g, from, nr) =>
      if nr < 0 then from else CompletesOffset(g, from + nr, len, TornRemainder(nr, width))
  }

  /** A first read that delivers a whole number of elements needs no
      completion: the invocation ends Done. */
  lemma AlignedReadDone(grants: seq<int>, offset: nat, len: nat, seekable: bool, loop: bool,
                        size: nat, width: nat, fuel: nat)
    requires width >= 1 && size > 0 && offset <= len
    requires ReadResult(grants, offset, len, size) > 0
    requires Aligned(ReadResult(grants, offset, len, size), width)
    ensures ReaderOutcome(grants, offset, len, seekable, loop, size, width, fuel) == Done
  {
  }

  /** The invocation is fatal with "lseek" exactly when a looping reader
      finds nothing and the descriptor cannot seek. */
  lemma LseekFatalIff(grants: seq<int>, offset: nat, len: nat, seekable: bool, loop: bool,
                      size: nat, width: nat, fuel: nat)
    requires width >= 1 && size > 0 && offset <= len
    ensures ReaderOutcome(grants, offset, len, seekable, loop, size, width, fuel) == Fatal("lseek")
            <==> loop && !seekable && ReadResult(grants, offset, len, size) == 0
  {
  }

  /** With no oracle entries left every read delivers all it can, so a
      completion within the file succeeds. */
  lemma CompletesWithinFile(offset: nat, len: nat, remain: nat)
    requires offset + remain <= len
    ensures Completes([], offset, len, remain)
  {
    if remain > 0 {
      assert ReadResult([], offset, len, remain) == remain;
      assert Completes([], offset + remain, len, 0);
    }
  }

  /** A file whose length is not a whole number of elements ends fatally:
      a first read that reaches the end with a torn element cannot be
      completed, whatever the oracle allows. */
  lemma TornTailIsFatal(grants: seq<int>, offset: nat, len: nat, seekable: bool, loop: bool,
                        size: nat, width: nat, fuel: nat)
    requires width >= 1 && size > 0 && offset < len
    requires ReadResult(grants, offset, len, size) == len - offset
    requires !Aligned(len - offset, width)
    ensures ReaderOutcome(grants, offset, len, seekable, loop, size, width, fuel) == Fatal("partial read")
  {
    var nr := len - offset;
    var r := TornRemainder(nr, width);
    assert r > 0 by {
      if r == 0 {
        assert Aligned(nr + r, width);
      }
    }
    assert ReadResult(AfterCall(grants), offset + nr, len, r) <= 0;
  }

  /** A positive aligned count is at least one whole element. */
  lemma AlignedPositive(n: nat, w: nat)
    requires w >= 1 && Aligned(n, w) && n > 0
    ensures n / w >= 1
  {
    Arith.DivMod(n, w);
  }

  /** An invocation that committed the file bytes from from up to offset
      into a pipe holding before, with room for room elements: a whole
      number of elements, within the room, appended in order. */
  predicate Commits(content: seq<byte>, from: nat, offset: nat, width: nat, room: nat,
                    before: seq<seq<byte>>, after: seq<seq<byte>>)
    requires width >= 1
  {
    && from <= offset <= |content|
    && Aligned(offset - from, width)
    && offset - from <= room * width
    && after == before + Split(content[from..offset], width)
    && |after| == |before| + (offset - from) / width
  }

  class FileReader {
    /** Rewind and read again at end of file (public in the source). */
    var loop: bool
    /** sizeof(T). */
    const width: nat
    const fd: InputFile
    const output: Pipe<seq<byte>>

    ghost predicate Valid()
      reads this, fd, output
    {
      width >= 1 && fd.Valid() && output.Valid() && Uniform(output.buf, width)
    }

    constructor (fd: InputFile, output: Pipe<seq<byte>>, width: nat)
      requires width >= 1 && fd.Valid() && output.Valid() && Uniform(output.buf, width)
      ensures Valid() && !loop
      ensures this.fd == fd && this.output == output && this.width == width
    {
      this.fd := fd;
      this.output := output;
      this.width := width;
      loop := false;
    }

    /** Completes a torn final element after nr0 bytes: keeps reading the
        bytes still missing until the total is TornRemainder(nr0) more, and
        fails as soon as one of those reads delivers nothing or errs. */
    method CompleteTorn(nr0: nat, got0: seq<byte>, ghost from: nat, size: nat)
      returns (ok: bool, nr: nat, got: seq<byte>)
      requires Valid() && 0 < nr0 <= size && Aligned(size, width)
      requires from + nr0 == fd.offset && got0 == fd.content[from..fd.offset] && |got0| == nr0
      modifies fd`offset, fd`grants
      ensures Valid()
      ensures ok <==> Completes(old(fd.grants), old(fd.offset), |fd.content|, TornRemainder(nr0, width))
      ensures fd.grants == CompletesRest(old(fd.grants), old(fd.offset), |fd.content|, TornRemainder(nr0, width))
      ensures fd.offset == CompletesOffset(old(fd.grants), old(fd.offset), |fd.content|, TornRemainder(nr0, width))
      ensures TornRemainder(nr0, width) == 0 ==>
                ok && nr == nr0 && fd.offset == old(fd.offset) && fd.grants == old(fd.grants)
      ensures ok ==> && nr == nr0 + TornRemainder(nr0, width) && nr <= size && Aligned(nr, width)
                     && from + nr == fd.offset && got == fd.content[from..fd.offset] && |got| == nr
    {
      var remain := TornRemainder(nr0, width);
      TornCompletionFits(nr0, width, size);
      var more;
      ok, more := ReadMissing(remain);
      if !ok {
        return false, nr0, got0;
      }
      nr, got := nr0 + remain, got0 + more;
    }

    /** The loop completing a torn element: reads the remain0 bytes still
        missing, each read asking for all that is still missing, and gives
        up as soon as one read errs or delivers nothing. */
    method ReadMissing(remain0: nat) returns (ok: bool, more: seq<byte>)
      requires fd.Valid()
      modifies fd`offset, fd`grants
      ensures fd.Valid()
      ensures ok == Completes(old(fd.grants), old(fd.offset), |fd.content|, remain0)
      ensures fd.grants == CompletesRest(old(fd.grants), old(fd.offset), |fd.content|, remain0)
      ensures fd.offset == CompletesOffset(old(fd.grants), old(fd.offset), |fd.content|, remain0)
      ensures ok ==> fd.offset == old(fd.offset) + remain0 && more == fd.content[old(fd.offset)..fd.offset]
      ensures remain0 == 0 ==> ok && fd.offset == old(fd.offset)
    {
      var remain: nat := remain0;
      more := [];
      while remain > 0
        invariant fd.Valid() && remain <= remain0
        invariant fd.offset == old(fd.offset) + (remain0 - remain)
        invariant more == fd.content[old(fd.offset)..fd.offset]
        invariant Completes(old(fd.grants), old(fd.offset), |fd.content|, remain0)
                  == Completes(fd.grants, fd.offset, |fd.content|, remain)
        invariant CompletesRest(old(fd.grants), old(fd.offset), |fd.content|, remain0)
                  == CompletesRest(fd.grants, fd.offset, |fd.content|, remain)
        invariant CompletesOffset(old(fd.grants), old(fd.offset), |fd.content|, remain0)
                  == CompletesOffset(fd.grants, fd.offset, |fd.content|, remain)
        decreases remain
      {
        var nr, bytes := fd.Read(remain);
        if nr <= 0 {
          return false, more;
        }
        remain := remain - nr;
        more := more + bytes;
      }
      ok := true;
    }

    /** The first read of a request of size bytes and, while it delivers
        nothing and the reader loops, a rewind and a read again.  Done means
        the reads are over and nr is the last result; a failed rewind or
        running out of fuel ends the invocation. */
    method ReadAgain(size: nat, fuel: nat)
      returns (o: Outcome, nr: int, got: seq<byte>, ghost from: nat)
      requires Valid()
      modifies fd`offset, fd`grants
      ensures Valid() && output.buf == old(output.buf)
      ensures var r := ReadStart(old(fd.grants), old(fd.offset), |fd.content|, fd.seekable, loop, size, fuel);
              if r.Stopped? then
                && o == r.outcome && !o.Done? && fd.grants == r.grants
                && fd.offset == (if o == OutOfFuel then 0 else old(fd.offset))
                && fd.grants == ReaderGrants(r, |fd.content|, width)
                && fd.offset == ReaderOffset(r, old(fd.offset), |fd.content|, width)
              else o == Done && nr == r.nr && from == r.from && fd.grants == r.grants
      ensures from == old(fd.offset) || (loop && from == 0)
      ensures o.Done? && nr >= 0 ==>
                nr == |got| <= size && from + nr == fd.offset && got == fd.content[from..fd.offset]
      ensures o.Done? && nr < 0 ==> fd.offset == from
      ensures o.Done? && nr == 0 ==> !loop
    {
      from := fd.offset;
      nr, got := fd.Read(size);
      var fuelLeft := fuel;
      o := Done;
      while nr == 0 && loop
        invariant Valid() && output.buf == old(output.buf) && o == Done
        invariant from == old(fd.offset) || (loop && from == 0)
        invariant !fd.seekable ==> from == old(fd.offset)
        invariant nr >= 0 ==> nr == |got| <= size && from + nr == fd.offset
                              && got == fd.content[from..fd.offset]
        invariant nr < 0 ==> fd.offset == from
        invariant ReadStart(old(fd.grants), old(fd.offset), |fd.content|, fd.seekable, loop, size, fuel)
                  == if nr != 0 || !loop then Delivered(fd.grants, from, nr)
                     else Reread(fd.grants, |fd.content|, fd.seekable, size, fuelLeft)
        decreases fuelLeft
      {
        var res := fd.Rewind();
        if res == -1 {
          return Fatal("lseek"), nr, got, from;
        }
        if fuelLeft == 0 {
          return OutOfFuel, nr, got, from;
        }
        from := fd.offset;
        nr, got := fd.Read(size);
        fuelLeft := fuelLeft - 1;
      }
    }

    /** After the reads ended with result nr0 in the room of writable
        elements: a failed read is fatal and end of file commits nothing;
        otherwise completes a torn final element, then commits the whole
        elements read, or fails with nothing committed. */
    method Commit(nr0: int, got0: seq<byte>, ghost from: nat, writable: nat) returns (o: Outcome)
      requires Valid() && writable == output.Writable() && writable > 0
      requires nr0 >= 0 ==> && nr0 <= writable * width && from + nr0 == fd.offset
                             && got0 == fd.content[from..fd.offset] && |got0| == nr0
      requires nr0 < 0 ==> from == fd.offset
      modifies fd`offset, fd`grants, output
      ensures Valid()
      ensures o == if nr0 < 0 then Fatal("read")
                   else if nr0 == 0 then Done
                   else if Completes(old(fd.grants), old(fd.offset), |fd.content|, TornRemainder(nr0, width))
                   then Done else Fatal("partial read")
      ensures fd.grants == if nr0 < 0 then old(fd.grants)
                           else CompletesRest(old(fd.grants), old(fd.offset), |fd.content|, TornRemainder(nr0, width))
      ensures fd.offset == if nr0 < 0 then old(fd.offset)
                           else CompletesOffset(old(fd.grants), old(fd.offset), |fd.content|, TornRemainder(nr0, width))
      ensures fd.grants == ReaderGrants(Delivered(old(fd.grants), from, nr0), |fd.content|, width)
      ensures fd.offset == ReaderOffset(Delivered(old(fd.grants), from, nr0), 0, |fd.content|, width)
      ensures !o.Done? ==> output.buf == old(output.buf)
      ensures o.Done? ==>
                && nr0 >= 0
                && fd.offset == from + nr0 + TornRemainder(nr0, width)
                && Commits(fd.content, from, fd.offset, width, writable, old(output.buf), output.buf)
      ensures o.Done? && nr0 > 0 ==> |output.buf| > |old(output.buf)|
    {
      if nr0 < 0 {
        return Fatal("read");
      }
      if nr0 == 0 {
        Arith.DivModUnique(0, width, 0, 0);
        assert fd.content[from..fd.offset] == [];
        return Done;
      }
      var size := writable * width;
      Arith.DivModUnique(size, width, writable, 0);
      // Always stop at an element boundary (may block).
      var ok, nr, got := CompleteTorn(nr0, got0, from, size);
      if !ok {
        return Fatal("partial read");
      }
      SplitAligned(got, width, writable);
      AlignedPositive(nr, width);
      output.Written(Split(got, width));
      o := Done;
    }

    /** The reads and the commit of an invocation with room for writable
        elements, size bytes. */
    method Fill(writable: nat, size: nat, fuel: nat) returns (o: Outcome, ghost from: nat)
      requires Valid() && writable == output.Writable() && size == writable * width && size > 0
      modifies fd`offset, fd`grants, output
      ensures Valid()
      ensures o == ReaderOutcome(old(fd.grants), old(fd.offset), |fd.content|, fd.seekable, loop,
                                 size, width, fuel)
      ensures !o.Done? ==> output.buf == old(output.buf)
      ensures var r := ReadStart(old(fd.grants), old(fd.offset), |fd.content|, fd.seekable, loop, size, fuel);
              o.Done? && r.Delivered? && r.nr >= 0 ==>
                from == r.from && fd.offset == r.from + r.nr + TornRemainder(r.nr, width)
      ensures var r := ReadStart(old(fd.grants), old(fd.offset), |fd.content|, fd.seekable, loop, size, fuel);
              && fd.grants == ReaderGrants(r, |fd.content|, width)
              && fd.offset == ReaderOffset(r, old(fd.offset), |fd.content|, width)
      ensures o.Done? ==>
                && (from == old(fd.offset) || (loop && from == 0))
                && Commits(fd.content, from, fd.offset, width, writable, old(output.buf), output.buf)
      ensures o.Done? && loop ==> |output.buf| > |old(output.buf)|
    {
      ghost var start := ReadStart(fd.grants, fd.offset, |fd.content|, fd.seekable, loop, size, fuel);
      ghost var offset0 := fd.offset;
      var nr, got;
      o, nr, got, from := ReadAgain(size, fuel);
      if !o.Done? {
        return;
      }
      assert start == Delivered(fd.grants, from, nr);
      OutcomeDelivered(old(fd.grants), old(fd.offset), |fd.content|, fd.seekable, loop, size, width, fuel,
                       fd.grants, from, nr);
      o := Commit(nr, got, from, writable);
      assert ReaderOffset(start, offset0, |fd.content|, width) == ReaderOffset(start, 0, |fd.content|, width);
    }

    /** Fills the output with whole elements read from the descriptor.  The
        bytes committed are those the descriptor delivered from offset from
        on, which is where the file stood or, after a rewind, its start; a
        torn final element is completed by further reads before anything is
        committed.  fuel bounds the rewinds of a looping reader. */
    method Run(fuel: nat) returns (o: Outcome, ghost from: nat)
      requires Valid()
      modifies fd`offset, fd`grants, output
      ensures Valid()
      ensures o == ReaderOutcome(old(fd.grants), old(fd.offset), |fd.content|, fd.seekable, loop,
                                 old(output.Writable()) * width, width, fuel)
      ensures old(output.Writable()) == 0 ==>
                o == Done && output.buf == old(output.buf)
                && fd.offset == old(fd.offset) && fd.grants == old(fd.grants)
      ensures !o.Done? ==> output.buf == old(output.buf)
      ensures var r := ReadStart(old(fd.grants), old(fd.offset), |fd.content|, fd.seekable, loop,
                                 old(output.Writable()) * width, fuel);
              o.Done? && old(output.Writable()) > 0 && r.Delivered? && r.nr >= 0 ==>
                from == r.from && fd.offset == r.from + r.nr + TornRemainder(r.nr, width)
      ensures var r := ReadStart(old(fd.grants), old(fd.offset), |fd.content|, fd.seekable, loop,
                                 old(output.Writable()) * width, fuel);
              old(output.Writable()) > 0 ==>
                fd.grants == ReaderGrants(r, |fd.content|, width)
                && fd.offset == ReaderOffset(r, old(fd.offset), |fd.content|, width)
      ensures o.Done? ==>
                && (from == old(fd.offset) || (loop && from == 0))
                && Commits(fd.content, from, fd.offset, width, old(output.Writable()), old(output.buf), output.buf)
      ensures o.Done? && loop && old(output.Writable()) > 0 ==>
                |output.buf| > |old(output.buf)|
    {
      from := fd.offset;
      var writable := output.capacity - |output.buf|;
      var size := writable * width;
      Arith.MulLess(0, writable, width);
      if size == 0 {
        return Done, from;
      }
      o, from := Fill(writable, size, fuel);
    }
  }

  /** A reader of 4-byte elements with room for 2 whose first read
      delivers 6 bytes: the torn element is completed by a read of the 2
      missing bytes, both elements are committed, and the oracle entries
      after those two reads are all that is left. */
  method TornReadExample(content: seq<byte>, g: seq<int>)
    returns (o: Outcome, committed: seq<seq<byte>>, left: seq<int>, offset: nat)
    requires |content| >= 8
    ensures o == Done && committed == Split(content[..8], 4) && |committed| == 2
    ensures left == g && offset == 8
  {
    var fd := new InputFile(content, [6, 2] + g, false);
    var pipe := new Pipe<seq<byte>>(2);
    var reader := new FileReader(fd, pipe, 4);
    assert AfterCall([6, 2] + g) == [2] + g;
    assert AfterCall([2] + g) == g;
    assert TornRemainder(6, 4) == 2;
    assert ReadStart([6, 2] + g, 0, |content|, false, false, 8, 0) == Delivered([2] + g, 0, 6);
    assert CompletesRest([2] + g, 6, |content|, 2) == g by {
      assert CompletesRest(g, 8, |content|, 0) == g;
    }
    ghost var from;
    o, from := reader.Run(0);
    SplitAligned(content[..8], 4, 2);
    committed, left, offset := pipe.buf, fd.grants, fd.offset;
  }

  // ------------------------------------------------------------ buffer_reader

  class BufferReader<T> {
    /** The caller's buffer; count elements of it are the source. */
    const data: array<T>
    const count: nat
    const output: Pipe<T>
    /** How many elements have been produced so far. */
    var pos: nat
    /** Everything produced so far, in order. */
    ghost var produced: seq<T>

    ghost predicate Valid()
      reads this, data, output
    {
      count <= data.Length && pos <= count && output.Valid() && produced == data[..pos]
    }

    constructor (data: array<T>, count: nat, output: Pipe<T>)
      requires count <= data.Length && output.Valid()
      ensures Valid() && pos == 0 && produced == []
      ensures this.data == data && this.count == count && this.output == output
    {
      this.data := data;
      this.count := count;
      this.output := output;
      pos := 0;
      produced := [];
    }

    /** Copies the next elements of the buffer, as many as the output has
        room for and no further than count; never loops. */
    method Run()
      requires Valid()
      modifies this`pos, this`produced, output
      ensures Valid()
      ensures pos == old(pos) + Min(old(output.Writable()), count - old(pos))
      ensures output.buf == old(output.buf) + data[old(pos)..pos]
      ensures produced == old(produced) + data[old(pos)..pos]
    {
      var n := Min(output.capacity - |output.buf|, count - pos);
      output.Written(data[pos..pos + n]);
      produced := produced + data[pos..pos + n];
      assert produced == data[..pos + n];
      pos := pos + n;
    }
  }

  /** Ten elements produced through a pipe of capacity ten that first has
      room for four, then is drained: four elements, then the other six,
      then none, with no repeats and no gaps. */
  method BufferReaderInTwoCalls(data: array<int>)
    returns (first: seq<int>, second: seq<int>, third: seq<int>)
    requires data.Length == 10
    ensures first == data[..4] && second == data[4..10] && third == []
    ensures first + second == data[..]
  {
    var pipe := new Pipe<int>(10);
    pipe.Written([0, 0, 0, 0, 0, 0]);
    var reader := new BufferReader(data, 10, pipe);
    reader.Run();
    first := pipe.buf[6..];
    pipe.Read(10);
    reader.Run();
    second := pipe.buf;
    pipe.Read(6);
    reader.Run();
    third := pipe.buf;
  }
}
