// The transform blocks of leansdr's generic.h: decimator, itemcounter,
// rate_estimator and serializer.  Each block is bound to its pipes at
// construction and Run() is one invocation by the scheduler.

module Transforms {
  import opened Pipes
  import opened Bytes
  import Arith

  // ---------------------------------------------------------------- decimator

  /** How many elements one decimator invocation forwards: as many complete
      groups of d as are readable, but no more than the output can take. */
  function DecimatedCount(readable: nat, writable: nat, d: nat): (count: nat)
    requires d >= 1
    ensures count <= writable && count * d <= readable
    ensures count == writable || readable < (count + 1) * d
  {
    Arith.DivMod(readable, d);
    if readable / d <= writable then readable / d else writable
  }

  /** The first element of each complete group of d elements: never more
      elements than s has, and s[0] first whenever one group is complete. */
  function EveryNth<T>(s: seq<T>, d: nat): (r: seq<T>)
    requires d >= 1
    ensures |r| <= |s|
    ensures |s| >= d ==> |r| >= 1 && r[0] == s[0]
    decreases |s|
  {
    if |s| < d then [] else [s[0]] + EveryNth(s[d..], d)
  }

  /** fwd holds s[0], s[d], s[2*d], ... in order. */
  ghost predicate GroupHeads<T>(fwd: seq<T>, s: seq<T>, d: nat)
  {
    forall j :: 0 <= j < |fwd| ==> j * d < |s| && fwd[j] == s[j * d]
  }

  lemma GroupHeadsStep<T>(fwd: seq<T>, s: seq<T>, d: nat, p: nat)
    requires GroupHeads(fwd, s, d) && p == |fwd| * d && p < |s|
    ensures GroupHeads(fwd + [s[p]], s, d)
  {
  }

  /** The heads of the groups after the first, behind the first head. */
  lemma GroupHeadsCons<T>(fwd: seq<T>, s: seq<T>, d: nat)
    requires d >= 1 && |s| >= d && GroupHeads(fwd, s[d..], d)
    ensures GroupHeads([s[0]] + fwd, s, d)
  {
    var all := [s[0]] + fwd;
    forall j | 0 < j < |all|
      ensures j * d < |s| && all[j] == s[j * d]
    {
      Arith.MulStep(j - 1, 1, d);
      assert all[j] == fwd[j - 1] == s[d..][(j - 1) * d];
    }
  }

  /** Forwarding one per group yields |s|/d elements, the j-th being s[j*d]. */
  lemma {:induction false} EveryNthIndex<T>(s: seq<T>, d: nat)
    requires d >= 1
    ensures |EveryNth(s, d)| == |s| / d
    ensures GroupHeads(EveryNth(s, d), s, d)
    decreases |s|
  {
    if |s| >= d {
      EveryNthIndex(s[d..], d);
      Arith.DivStep(|s|, d);
      GroupHeadsCons(EveryNth(s[d..], d), s, d);
    } else {
      Arith.DivModUnique(|s|, d, 0, |s|);
    }
  }

  /** A sequence holding s[0], s[d], ..., s[(count-1)*d] is what forwarding
      the first count whole groups produces. */
  lemma EveryNthOfGroups<T>(fwd: seq<T>, s: seq<T>, d: nat, count: nat)
    requires d >= 1 && count * d <= |s| && |fwd| == count
    requires GroupHeads(fwd, s, d)
    ensures fwd == EveryNth(s[..count * d], d)
  {
    var t := s[..count * d];
    var e := EveryNth(t, d);
    Arith.DivModUnique(count * d, d, count, 0);
    EveryNthIndex(t, d);
    assert |e| == count;
    forall j | 0 <= j < count
      ensures fwd[j] == e[j]
    {
      Arith.MulLess(j, count, d);
      assert e[j] == t[j * d];
    }
  }

  class Decimator<T> {
    const d: nat
    const input: Pipe<T>
    const output: Pipe<T>

    ghost predicate Valid()
      reads this, input, output
    {
      d >= 1 && input != output && input.Valid() && output.Valid()
    }

    constructor (d: nat, input: Pipe<T>, output: Pipe<T>)
      requires d >= 1 && input != output && input.Valid() && output.Valid()
      ensures Valid() && this.d == d && this.input == input && this.output == output
    {
      this.d := d;
      this.input := input;
      this.output := output;
    }

    /** Forwards the first element of each whole group of d, as many groups
        as the output has room for; the rest of the input stays queued. */
    method Run()
      requires Valid()
      modifies input, output
      ensures Valid()
      ensures var count := DecimatedCount(|old(input.buf)|, old(output.Writable()), d);
              && input.buf == old(input.buf)[count * d..]
              && output.buf == old(output.buf) + EveryNth(old(input.buf)[..count * d], d)
    {
      var count := DecimatedCount(|input.buf|, output.capacity - |output.buf|, d);
      var fwd := GroupHeadsOf(input.buf, d, count);
      input.Read(count * d);
      output.Written(fwd);
    }
  }

  /** The copy loop of the decimator: the head of each of the first count
      groups of d elements of src, in order. */
  method GroupHeadsOf<T>(src: seq<T>, d: nat, count: nat) returns (fwd: seq<T>)
    requires d >= 1 && count * d <= |src|
    ensures |fwd| == count && fwd == EveryNth(src[..count * d], d)
  {
    fwd := [];
    var p := 0;
    while p < count * d
      invariant |fwd| <= count && p == |fwd| * d
      invariant GroupHeads(fwd, src, d)
    {
      Arith.MulLess(|fwd|, count, d);
      GroupHeadsStep(fwd, src, d, p);
      fwd := fwd + [src[p]];
      p := p + d;
    }
    Arith.MulLess(|fwd|, count, d);
    EveryNthOfGroups(fwd, src, d, count);
  }

  // -------------------------------------------------------------- itemcounter

  class ItemCounter<T> {
    const input: Pipe<T>
    const output: Pipe<nat>

    ghost predicate Valid()
      reads this, input, output
    {
      input as object != output as object && input.Valid() && output.Valid()
    }

    constructor (input: Pipe<T>, output: Pipe<nat>)
      requires input as object != output as object && input.Valid() && output.Valid()
      ensures Valid() && this.input == input && this.output == output
    {
      this.input := input;
      this.output := output;
    }

    /** All or nothing: with room for one value and a non-empty input, emits
        the number of readable items and consumes every one of them. */
    method Run()
      requires Valid()
      modifies input, output
      ensures Valid()
      ensures if old(output.Writable()) >= 1 && |old(input.buf)| > 0
              then output.buf == old(output.buf) + [|old(input.buf)|] && input.buf == []
              else output.buf == old(output.buf) && input.buf == old(input.buf)
    {
      if output.capacity - |output.buf| < 1 {
        return;
      }
      var count := |input.buf|;
      if count == 0 {
        return;
      }
      output.Written([count]);
      input.Read(count);
    }
  }

  // ----------------------------------------------------------- rate_estimator

  /** The emitted rate: acc_num / acc_den, kept as the exact pair. */
  datatype Rate = Rate(num: int, den: int)

  /** Running total of a run of samples, accumulated front to back; samples
      that are never negative give a total that is not either. */
  function Sum(s: seq<int>): (t: int)
    ensures (forall i :: 0 <= i < |s| ==> s[i] >= 0) ==> t >= 0
  {
    if s == [] then 0 else Sum(s[..|s| - 1]) + s[|s| - 1]
  }

  /** Accumulating two batches one after the other adds both totals. */
  lemma {:induction false} SumConcat(a: seq<int>, b: seq<int>)
    ensures Sum(a + b) == Sum(a) + Sum(b)
    decreases |b|
  {
    if b == [] {
      assert a + b == a;
    } else {
      assert (a + b)[..|a + b| - 1] == a + b[..|b| - 1];
      SumConcat(a, b[..|b| - 1]);
    }
  }

  class RateEstimator {
    var sampleSize: int
    const num: Pipe<int>
    const den: Pipe<int>
    const rate: Pipe<Rate>
    var accNum: int
    var accDen: int

    ghost predicate Valid()
      reads this, num, den, rate
    {
      num != den && num.Valid() && den.Valid() && rate.Valid()
    }

    constructor (num: Pipe<int>, den: Pipe<int>, rate: Pipe<Rate>)
      requires num != den && num.Valid() && den.Valid() && rate.Valid()
      ensures Valid() && this.num == num && this.den == den && this.rate == rate
      ensures sampleSize == 10000 && accNum == 0 && accDen == 0
    {
      this.num := num;
      this.den := den;
      this.rate := rate;
      sampleSize := 10000;
      accNum, accDen := 0, 0;
    }

    /** With no room for a rate, does nothing at all.  Otherwise consumes
        the same number of samples from both inputs, adds them to the running
        sums, and emits and resets the sums once acc_den reaches sampleSize. */
    method Run()
      requires Valid()
      modifies this`accNum, this`accDen, num, den, rate
      ensures Valid()
      ensures old(rate.Writable()) < 1 ==>
                && num.buf == old(num.buf) && den.buf == old(den.buf)
                && rate.buf == old(rate.buf)
                && accNum == old(accNum) && accDen == old(accDen)
      ensures old(rate.Writable()) >= 1 ==>
                var count := Min(|old(num.buf)|, |old(den.buf)|);
                var n := old(accNum) + Sum(old(num.buf)[..count]);
                var d := old(accDen) + Sum(old(den.buf)[..count]);
                && num.buf == old(num.buf)[count..] && den.buf == old(den.buf)[count..]
                && if d >= sampleSize
                   then rate.buf == old(rate.buf) + [Rate(n, d)] && accNum == 0 && accDen == 0
                   else rate.buf == old(rate.buf) && accNum == n && accDen == d
    {
      if rate.capacity - |rate.buf| < 1 {
        return;
      }
      var count := Min(|num.buf|, |den.buf|);
      var ns, ds := num.buf, den.buf;
      var i := 0;
      while i < count
        invariant 0 <= i <= count
        invariant Valid() && num.buf == ns && den.buf == ds && rate.buf == old(rate.buf)
        invariant accNum == old(accNum) + Sum(ns[..i])
        invariant accDen == old(accDen) + Sum(ds[..i])
      {
        assert ns[..i + 1][..i] == ns[..i];
        assert ds[..i + 1][..i] == ds[..i];
        accNum := accNum + ns[i];
        accDen := accDen + ds[i];
        i := i + 1;
      }
      num.Read(count);
      den.Read(count);
      if accDen >= sampleSize {
        rate.Written([Rate(accNum, accDen)]);
        accNum, accDen := 0, 0;
      }
    }
  }

  // --------------------------------------------------------------- serializer

  /** Per copy, nin input elements are re-chunked into nout output elements. */
  datatype Ratio = Ratio(nin: nat, nout: nat)

  /** The group sizes exactly as the serializer constructor computes them
      (generic.h:242-243): nin from sizeof(Tin)/sizeof(Tout) and nout from
      sizeof(Tout)/sizeof(Tin), each at least 1, then the byte check. */
  function GroupRatioAsWritten(win: nat, wout: nat): (r: Result<Ratio>)
    requires win >= 1 && wout >= 1
    ensures r.Success? ==> r.value.nin >= 1 && r.value.nout >= 1
    ensures r.Success? ==> r.value.nin * win == r.value.nout * wout
  {
    var nin := Max(1, win / wout);
    var nout := Max(1, wout / win);
    if nin * win != nout * wout then Failure("serializer: incompatible sizes")
    else Success(Ratio(nin, nout))
  }

  /** As written, the byte check only passes for equal widths: the quotient
      that should give the number of narrow elements per wide one multiplies
      the wide width instead. */
  lemma AsWrittenOnlyEqualWidths(win: nat, wout: nat)
    requires win >= 1 && wout >= 1
    ensures GroupRatioAsWritten(win, wout).Success? <==> win == wout
  {
    if win > wout {
      Arith.DivModUnique(wout, win, 0, wout);
      Arith.DivMod(win, wout);
      var q := win / wout;
      assert q >= 1;
      assert q * win == win + (q - 1) * win;
    } else if wout > win {
      Arith.DivModUnique(win, wout, 0, win);
      Arith.DivMod(wout, win);
      var q := wout / win;
      assert q >= 1;
      assert q * wout == wout + (q - 1) * wout;
    }
  }

  /** Widths 2 and 8: the constructor as written fails, the intended group
      sizes are 4 narrow elements for 1 wide one. */
  lemma AsWrittenRejectsTwoAndEight()
    ensures GroupRatioAsWritten(2, 8).Failure?
    ensures GroupRatio(2, 8) == Success(Ratio(4, 1))
  {
  }

  /** The group sizes with the quotients the right way round: nin counts the
      input elements that fill one output element when the output is wider,
      nout the output elements one input element fills when it is wider. */
  function GroupRatio(win: nat, wout: nat): (r: Result<Ratio>)
    requires win >= 1 && wout >= 1
    ensures r.Success? ==> r.value.nin >= 1 && r.value.nout >= 1
    ensures r.Success? ==> r.value.nin * win == r.value.nout * wout
  {
    var nin := Max(1, wout / win);
    var nout := Max(1, win / wout);
    if nin * win != nout * wout then Failure("serializer: incompatible sizes")
    else Success(Ratio(nin, nout))
  }

  /** Construction succeeds exactly when one width divides the other. */
  lemma GroupRatioSucceedsIff(win: nat, wout: nat)
    requires win >= 1 && wout >= 1
    ensures GroupRatio(win, wout).Success? <==> (win % wout == 0 || wout % win == 0)
  {
    if wout > win {
      Arith.DivModUnique(win, wout, 0, win);
      Arith.DivMod(wout, win);
    } else if win > wout {
      Arith.DivModUnique(wout, win, 0, wout);
      Arith.DivMod(win, wout);
    } else {
      Arith.DivModUnique(win, wout, 1, 0);
    }
  }

  /** When it succeeds, no smaller pair of group sizes holds the same bytes
      on both sides. */
  lemma GroupRatioSmallest(win: nat, wout: nat, a: nat, b: nat)
    requires win >= 1 && wout >= 1 && GroupRatio(win, wout).Success?
    requires a >= 1 && b >= 1 && a * win == b * wout
    ensures GroupRatio(win, wout).value.nin <= a
    ensures GroupRatio(win, wout).value.nout <= b
  {
    var r := GroupRatio(win, wout).value;
    if wout >= win {
      Arith.DivModUnique(win, wout, if wout == win then 1 else 0, if wout == win then 0 else win);
      assert r.nout == 1;
      Arith.MulLess(b, 1, wout);
      Arith.MulLess(a, r.nin, win);
    } else {
      Arith.DivModUnique(wout, win, 0, wout);
      assert r.nin == 1;
      Arith.MulLess(a, 1, win);
      Arith.MulLess(b, r.nout, wout);
    }
  }

  /** Widths 4 and 6 share a byte-equal pair (3 and 2), yet construction
      fails both as written and corrected: neither width divides the other. */
  lemma FourAndSixRejected()
    ensures 3 * 4 == 2 * 6
    ensures GroupRatio(4, 6).Failure? && GroupRatioAsWritten(4, 6).Failure?
  {
    GroupRatioSucceedsIff(4, 6);
  }

  /** One more group of nin input elements adds nout output elements made of
      exactly its bytes after those already produced. */
  lemma SerializeStep(src: seq<seq<byte>>, consumed: nat, produced: nat,
                      nin: nat, nout: nat, win: nat, wout: nat)
    requires wout >= 1 && nin * win == nout * wout && consumed + nin <= |src|
    requires Uniform(src, win) && |Flatten(src[..consumed])| == produced * wout
    ensures |Flatten(src[..consumed + nin])| == (produced + nout) * wout
    ensures var chunk := Split(Flatten(src[consumed..consumed + nin]), wout);
            && Uniform(chunk, wout) && |chunk| == nout
            && Split(Flatten(src[..consumed + nin]), wout)
               == Split(Flatten(src[..consumed]), wout) + chunk
  {
    var done, group := src[..consumed], src[consumed..consumed + nin];
    assert src[..consumed + nin] == done + group;
    FlattenLength(group, win);
    SplitFlatten(Flatten(group), wout, nout);
    FlattenConcat(done, group);
    SplitConcat(Flatten(done), Flatten(group), wout, produced);
    assert (produced + nout) * wout == produced * wout + nout * wout;
  }

  /** The elements appended after before are the re-chunked bytes, whose
      concatenation gives those bytes back. */
  lemma SerializedSuffix(before: seq<seq<byte>>, out: seq<seq<byte>>, b: seq<byte>, w: nat, k: nat)
    requires w >= 1 && |b| == k * w && out == before + Split(b, w)
    ensures |out| == |before| + k && Flatten(out[|before|..]) == b
  {
    SplitFlatten(b, w, k);
    assert out[|before|..] == Split(b, w);
  }

  class Serializer {
    const win: nat
    const wout: nat
    const nin: nat
    const nout: nat
    const input: Pipe<seq<byte>>
    const output: Pipe<seq<byte>>

    ghost predicate Valid()
      reads this, input, output
    {
      && win >= 1 && wout >= 1 && nin >= 1 && nout >= 1
      && nin * win == nout * wout
      && input != output && input.Valid() && output.Valid()
      && Uniform(input.buf, win) && Uniform(output.buf, wout)
    }

    constructor (win: nat, wout: nat, ratio: Ratio, input: Pipe<seq<byte>>, output: Pipe<seq<byte>>)
      requires win >= 1 && wout >= 1 && GroupRatio(win, wout) == Success(ratio)
      requires input != output && input.Valid() && output.Valid()
      requires Uniform(input.buf, win) && Uniform(output.buf, wout)
      ensures Valid() && this.input == input && this.output == output
      ensures this.win == win && this.wout == wout && nin == ratio.nin && nout == ratio.nout
    {
      this.win, this.wout := win, wout;
      nin, nout := ratio.nin, ratio.nout;
      this.input, this.output := input, output;
    }

    /** The serializer constructor: fails when no group ratio exists,
        otherwise binds a block with the computed group sizes. */
    static method Create(win: nat, wout: nat, input: Pipe<seq<byte>>, output: Pipe<seq<byte>>)
      returns (r: Result<Serializer>)
      requires win >= 1 && wout >= 1
      requires input != output && input.Valid() && output.Valid()
      requires Uniform(input.buf, win) && Uniform(output.buf, wout)
      ensures r.Success? <==> GroupRatio(win, wout).Success?
      ensures r.Success? ==>
                && fresh(r.value) && r.value.Valid()
                && r.value.input == input && r.value.output == output
                && r.value.win == win && r.value.wout == wout
                && Ratio(r.value.nin, r.value.nout) == GroupRatio(win, wout).value
    {
      var ratio := GroupRatio(win, wout);
      if ratio.Failure? {
        return Failure(ratio.reason);
      }
      var s := new Serializer(win, wout, ratio.value, input, output);
      return Success(s);
    }

    /** Copies whole groups while both a group of input and room for a group
        of output exist; the output bytes are the consumed input bytes. */
    method Run() returns (ghost groups: nat)
      requires Valid()
      modifies input, output
      ensures Valid()
      ensures groups * nin <= |old(input.buf)| && input.buf == old(input.buf)[groups * nin..]
      ensures output.buf == old(output.buf) + Split(Flatten(old(input.buf)[..groups * nin]), wout)
      ensures |output.buf| == |old(output.buf)| + groups * nout
      ensures Flatten(output.buf[|old(output.buf)|..]) == Flatten(old(input.buf)[..groups * nin])
      ensures |input.buf| < nin || output.Writable() < nout
    {
      ghost var src := input.buf;
      ghost var before := output.buf;
      ghost var consumed, produced := 0, 0;
      groups := 0;
      while |input.buf| >= nin && output.capacity - |output.buf| >= nout
        invariant Valid()
        invariant consumed == groups * nin && produced == groups * nout
        invariant consumed <= |src| && input.buf == src[consumed..]
        invariant |Flatten(src[..consumed])| == produced * wout
        invariant output.buf == before + Split(Flatten(src[..consumed]), wout)
        invariant |output.buf| == |before| + produced
        decreases |input.buf|
      {
        var group := input.buf[..nin];
        assert group == src[consumed..consumed + nin];
        var chunk := Split(Flatten(group), wout);
        SerializeStep(src, consumed, produced, nin, nout, win, wout);
        output.Written(chunk);
        input.Read(nin);
        Arith.MulSucc(groups, nin);
        Arith.MulSucc(groups, nout);
        consumed, produced := consumed + nin, produced + nout;
        groups := groups + 1;
      }
      SerializedSuffix(before, output.buf, Flatten(src[..consumed]), wout, produced);
    }
  }
}
