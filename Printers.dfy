// The value printer of leansdr's generic.h (file_printer): every
// decimation-th element, counted across invocations, becomes one line.
// A line is modelled as the scaled value it renders.

module Printers {
  import opened Pipes
  import Arith

  /** The printer's phase counter and the lines emitted so far. */
  datatype PrintState = PrintState(phase: int, lines: seq<int>)

  /** What feeding the elements of s one by one does, starting from phase:
      each element bumps the phase, and reaching decimation takes decimation
      off the phase and emits the element times scale. */
  function Feed(phase: int, decimation: int, scale: int, s: seq<int>): (st: PrintState)
    ensures |st.lines| <= |s|
    decreases |s|
  {
    if s == [] then PrintState(phase, [])
    else
      var st := Feed(phase, decimation, scale, s[..|s| - 1]);
      if st.phase + 1 >= decimation
      then PrintState(st.phase + 1 - decimation, st.lines + [s[|s| - 1] * scale])
      else PrintState(st.phase + 1, st.lines)
  }

  /** The index in the fed elements of the one that emits line j: the
      count starting at phase reaches d after d - phase elements, and every
      d elements after that. */
  function Boundary(j: nat, d: int, phase: int): int
  {
    if j == 0 then d - phase - 1 else Boundary(j - 1, d, phase) + d
  }

  lemma {:induction false} BoundaryValue(j: nat, d: int, phase: int)
    ensures Boundary(j, d, phase) == (j + 1) * d - phase - 1
  {
    if j > 0 {
      BoundaryValue(j - 1, d, phase);
      assert (j + 1) * d == j * d + d;
    }
  }

  /** Line j is the element at Boundary(j), times scale. */
  ghost predicate Scheduled(lines: seq<int>, s: seq<int>, phase: int, d: int, scale: int)
  {
    forall j :: 0 <= j < |lines| ==>
      0 <= Boundary(j, d, phase) < |s| && lines[j] == s[Boundary(j, d, phase)] * scale
  }

  lemma ScheduledGrow(lines: seq<int>, init: seq<int>, s: seq<int>, phase: int, d: int, scale: int)
    requires Scheduled(lines, init, phase, d, scale) && init <= s
    ensures Scheduled(lines, s, phase, d, scale)
  {
    forall j | 0 <= j < |lines|
      ensures 0 <= Boundary(j, d, phase) < |s| && lines[j] == s[Boundary(j, d, phase)] * scale
    {
      var i := Boundary(j, d, phase);
      assert 0 <= i < |init| && lines[j] == init[i] * scale;
      assert init[i] == s[i];
    }
  }

  lemma ScheduledEmit(lines: seq<int>, s: seq<int>, phase: int, d: int, scale: int)
    requires |s| > 0 && Scheduled(lines, s, phase, d, scale)
    requires Boundary(|lines|, d, phase) == |s| - 1
    ensures Scheduled(lines + [s[|s| - 1] * scale], s, phase, d, scale)
  {
    var more := lines + [s[|s| - 1] * scale];
    forall j | 0 <= j < |more|
      ensures 0 <= Boundary(j, d, phase) < |s| && more[j] == s[Boundary(j, d, phase)] * scale
    {
      if j < |lines| {
        assert more[j] == lines[j];
      }
    }
  }

  /** With decimation >= 1 and a phase in range, feeding n elements leaves
      the phase at (phase + n) mod decimation and emits (phase + n) div
      decimation lines, each the element on which the count came round. */
  lemma {:induction false} FeedSchedule(phase: int, decimation: int, scale: int, s: seq<int>)
    requires 1 <= decimation && 0 <= phase < decimation
    ensures var st := Feed(phase, decimation, scale, s);
            && st.phase == (phase + |s|) % decimation
            && |st.lines| == (phase + |s|) / decimation
            && Scheduled(st.lines, s, phase, decimation, scale)
    decreases |s|
  {
    if s == [] {
      Arith.DivModUnique(phase, decimation, 0, phase);
    } else {
      var init := s[..|s| - 1];
      FeedSchedule(phase, decimation, scale, init);
      var st := Feed(phase, decimation, scale, init);
      ScheduledGrow(st.lines, init, s, phase, decimation, scale);
      var p: nat := phase + |init|;
      Arith.DivMod(p, decimation);
      var q, m := p / decimation, p % decimation;
      if m + 1 >= decimation {
        Arith.MulStep(q, 1, decimation);
        Arith.DivModUnique(p + 1, decimation, q + 1, 0);
        BoundaryValue(q, decimation, phase);
        ScheduledEmit(st.lines, s, phase, decimation, scale);
      } else {
        Arith.DivModUnique(p + 1, decimation, q, m + 1);
      }
    }
  }

  /** Decimation 3 over seven elements from phase 0: lines for the 3rd and
      the 6th element, and the 7th leaves the phase at 1. */
  lemma ThirdAndSixth(scale: int, s: seq<int>)
    requires |s| == 7
    ensures Feed(0, 3, scale, s) == PrintState(1, [s[2] * scale, s[5] * scale])
  {
    FeedSchedule(0, 3, scale, s);
    var st := Feed(0, 3, scale, s);
    assert |st.lines| == 2;
    assert st.lines[0] == s[2] * scale && st.lines[1] == s[5] * scale;
  }

  class FilePrinter {
    var scale: int
    var decimation: int
    const input: Pipe<int>
    var phase: int
    /** The lines written to the output descriptor, as scaled values. */
    var lines: seq<int>

    ghost predicate Valid()
      reads this, input
    {
      input.Valid()
    }

    constructor (input: Pipe<int>, decimation: int)
      requires input.Valid()
      ensures Valid() && this.input == input && this.decimation == decimation
      ensures scale == 1 && phase == 0 && lines == []
    {
      this.input := input;
      this.decimation := decimation;
      scale := 1;
      phase := 0;
      lines := [];
    }

    /** Feeds every readable element through the phase counter, emitting a
        line when it comes round, and consumes all of them whatever was
        emitted. */
    method Run()
      requires Valid()
      modifies this`phase, this`lines, input
      ensures Valid() && input.buf == []
      ensures var st := Feed(old(phase), decimation, scale, old(input.buf));
              phase == st.phase && lines == old(lines) + st.lines
      ensures 1 <= decimation && 0 <= old(phase) < decimation ==> 0 <= phase < decimation
    {
      var n := |input.buf|;
      var src := input.buf;
      var i := 0;
      while i < n
        invariant 0 <= i <= n && input.buf == src
        invariant var st := Feed(old(phase), decimation, scale, src[..i]);
                  phase == st.phase && lines == old(lines) + st.lines
      {
        assert src[..i + 1][..i] == src[..i];
        phase := phase + 1;
        if phase >= decimation {
          phase := phase - decimation;
          lines := lines + [src[i] * scale];
        }
        i := i + 1;
      }
      assert src[..n] == src;
      input.Read(n);
      if 1 <= decimation && 0 <= old(phase) < decimation {
        FeedSchedule(old(phase), decimation, scale, src);
      }
    }
  }
}
