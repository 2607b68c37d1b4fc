/** The runner of the minifier: the eight phases in order, each followed by
    `shuffle`, over the buffer read from the file. */
module Minify {
  import opened Buffer
  import Whitespace
  import Comments
  import Symbols
  import Colors
  import HexCodes
  import Zeros
  import Semicolons
  import Blocks

  /** Phase `n - 1` on the buffer `t`; phase three is `p3` as the source
      writes it when `asWritten` holds, and the corrected `p3` otherwise. */
  function Phase(t: seq<char>, n: nat, asWritten: bool): seq<char>
    requires 1 <= n <= 8
  {
    if n == 1 then Whitespace.P0(t)
    else if n == 2 then Comments.P1(t)
    else if n == 3 then Symbols.P2(t)
    else if n == 4 then (if asWritten then Colors.P3AsWritten(t) else Colors.P3(t))
    else if n == 5 then HexCodes.P4(t)
    else if n == 6 then Zeros.P5(t)
    else if n == 7 then Semicolons.P6(t)
    else Blocks.P7(t)
  }

  /** The buffer after phases zero to `n - 1`, each followed by `shuffle`. */
  function Pipeline(s: seq<char>, n: nat, asWritten: bool): seq<char>
    requires n <= 8
    decreases n
  {
    if n == 0 then s else Compact(Phase(Pipeline(s, n - 1, asWritten), n, asWritten))
  }

  /** The phases with the corrected `p3`. */
  function Phases(s: seq<char>, n: nat): seq<char>
    requires n <= 8
  {
    Pipeline(s, n, false)
  }

  /** What the minifier leaves in the buffer; it prints the bytes before
      the first NUL. */
  function Minified(s: seq<char>): seq<char> {
    Phases(s, 8)
  }

  /** What the minifier leaves with `p3` as the source writes it. */
  function MinifiedAsWritten(s: seq<char>): seq<char> {
    Pipeline(s, 8, true)
  }

  /** Only phase three depends on which `p3` is run. */
  lemma PhaseAgrees(t: seq<char>, n: nat)
    requires 1 <= n <= 8
    requires n == 4 ==> Colors.P3AsWritten(t) == Colors.P3(t)
    ensures Phase(t, n, true) == Phase(t, n, false)
  {
  }

  /** One more phase of the pipeline. */
  lemma PipelineStep(s: seq<char>, n: nat, asWritten: bool)
    requires 1 <= n <= 8
    ensures Pipeline(s, n, asWritten) == Compact(Phase(Pipeline(s, n - 1, asWritten), n, asWritten))
  {
  }

  /** Where `p3` as written and the corrected `p3` agree on the buffer the
      first three phases leave, the whole pipelines agree. */
  lemma {:induction false} PipelineAgrees(s: seq<char>, n: nat)
    requires n <= 8
    requires Colors.P3AsWritten(Phases(s, 3)) == Colors.P3(Phases(s, 3))
    ensures Pipeline(s, n, true) == Phases(s, n)
    decreases n
  {
    if n > 0 {
      PipelineAgrees(s, n - 1);
      PipelineStep(s, n, true);
      PipelineStep(s, n, false);
      PhaseAgrees(Pipeline(s, n - 1, false), n);
    }
  }

  /** Where every call `p3` meets spans at least 8 bytes, the minifier as
      the source writes it leaves what `Minified` leaves, and so shares
      every property proved of it. */
  lemma MinifiedAsWrittenAgrees(s: seq<char>)
    requires Colors.LongCalls(Phases(s, 3), 0)
    ensures MinifiedAsWritten(s) == Minified(s)
    ensures Live(MinifiedAsWritten(s)) <= Live(s)
  {
    Colors.P3AsWrittenIsP3(Phases(s, 3));
    PipelineAgrees(s, 8);
    MinifiedShrinks(s);
  }

  /** The runner, without reading the file and printing the result. */
  method Run(a: array<char>)
    modifies a
    ensures a[..] == Minified(old(a[..]))
  {
    ghost var s := a[..];
    Whitespace.RunP0(a);
    Shuffle(a);
    assert a[..] == Phases(s, 1);
    Comments.RunP1(a);
    Shuffle(a);
    assert a[..] == Phases(s, 2);
    Symbols.RunP2(a);
    Shuffle(a);
    assert a[..] == Phases(s, 3);
    Colors.RunP3(a);
    Shuffle(a);
    assert a[..] == Phases(s, 4);
    HexCodes.RunP4(a);
    Shuffle(a);
    assert a[..] == Phases(s, 5);
    Zeros.RunP5(a);
    Shuffle(a);
    assert a[..] == Phases(s, 6);
    Semicolons.RunP6(a);
    Shuffle(a);
    assert a[..] == Phases(s, 7);
    Blocks.RunP7(a);
    Shuffle(a);
  }

  /** Every phase, with its `shuffle`, keeps the size of the buffer, does not
      increase the number of live bytes, and leaves them at the front. */
  lemma {:induction false} PhasesShrink(s: seq<char>, n: nat)
    requires n <= 8
    ensures |Phases(s, n)| == |s|
    ensures Live(Phases(s, n)) <= Live(s)
    ensures n > 0 ==> Compact(Phases(s, n)) == Phases(s, n)
    decreases n
  {
    if n > 0 {
      PhasesShrink(s, n - 1);
      var t := Phases(s, n - 1);
      var r := Phase(t, n, false);
      if n == 1 {
        Whitespace.P0OnlyDeletes(t);
        OnlyDeletesNoResurrect(t, r);
      } else if n == 2 {
        Comments.P1OnlyDeletes(t);
        OnlyDeletesNoResurrect(t, r);
      } else if n == 3 {
        Symbols.P2OnlyDeletes(t);
        OnlyDeletesNoResurrect(t, r);
      } else if n == 4 {
        assert t == Compact(Symbols.P2(Phases(s, 2)));
        CompactIsCompacted(Symbols.P2(Phases(s, 2)));
        Colors.P3Live(t);
      } else if n == 5 {
        HexCodes.P4Live(t);
      } else if n == 6 {
        Zeros.P5Deletes(t);
        OnlyDeletesNoResurrect(t, r);
      } else if n == 7 {
        Semicolons.P6Deletes(t);
        OnlyDeletesNoResurrect(t, r);
      } else {
        Blocks.P7Deletes(t);
        OnlyDeletesNoResurrect(t, r);
      }
      NoResurrectLive(t, r);
      CompactSurvivors(r);
      CompactIdempotent(r);
    }
  }

  /** The minifier keeps the size of its buffer, never makes the text it
      prints longer, and leaves that text at the front of the buffer. */
  lemma MinifiedShrinks(s: seq<char>)
    ensures |Minified(s)| == |s|
    ensures Live(Minified(s)) <= Live(s)
    ensures Minified(s) == Survivors(Minified(s)) + Nuls(|s| - Live(Minified(s)))
  {
    PhasesShrink(s, 8);
  }
}
