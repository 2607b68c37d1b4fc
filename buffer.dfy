/** The text buffer shared by every pass of the minifier.

    The source keeps the whole stylesheet in one `char` buffer of `bufsz`
    bytes (the file size plus one padding byte).  A pass deletes a byte by
    overwriting it with NUL; `shuffle` later squeezes the NULs out.  Here the
    buffer is an `array<char>` in the methods and a `seq<char>` in their
    specifications, and NUL is the deletion marker. */
module Buffer {

  datatype Option<T> = None | Some(value: T)

  /** The deletion marker. */
  const NUL: char := '\0'

  /** `space` in the source: a space, a tab or a newline. */
  predicate IsSpace(c: char) {
    c == ' ' || c == '\t' || c == '\n'
  }

  /** `hex` in the source, with `isxdigit` read as ASCII `[0-9a-fA-F]`. */
  predicate IsHex(c: char) {
    ('0' <= c <= '9') || ('a' <= c <= 'f') || ('A' <= c <= 'F')
  }

  /** `n` deletion markers. */
  function Nuls(n: nat): (r: seq<char>)
    ensures |r| == n
    ensures forall k :: 0 <= k < n ==> r[k] == NUL
  {
    seq(n, _ => NUL)
  }

  /** `s` with `len` bytes from `at` on set to NUL, as `memset(buf + at, 0, len)`. */
  function Fill(s: seq<char>, at: nat, len: nat): (r: seq<char>)
    requires at + len <= |s|
    ensures |r| == |s|
    ensures forall k {:trigger r[k]} :: 0 <= k < |s| ==> r[k] == if at <= k < at + len then NUL else s[k]
  {
    seq(|s|, k requires 0 <= k < |s| => if at <= k < at + len then NUL else s[k])
  }

  lemma FillStep(s: seq<char>, i: nat, len: nat)
    requires i + 1 + len <= |s|
    ensures Fill(s[i := NUL], i + 1, len) == Fill(s, i, len + 1)
  {
    var a, b := Fill(s[i := NUL], i + 1, len), Fill(s, i, len + 1);
    assert forall k :: 0 <= k < |s| ==> a[k] == b[k];
  }

  lemma FillPair(s: seq<char>, i: nat)
    requires i + 2 <= |s|
    ensures s[i := NUL][i + 1 := NUL] == Fill(s, i, 2)
  {
    var a, b := s[i := NUL][i + 1 := NUL], Fill(s, i, 2);
    assert forall k :: 0 <= k < |s| ==> a[k] == b[k];
  }

  lemma FillShift(x: seq<char>, y: seq<char>, j: nat, len: nat)
    requires j + len <= |y|
    ensures Fill(x + y, |x| + j, len) == x + Fill(y, j, len)
  {
    var a, b := Fill(x + y, |x| + j, len), x + Fill(y, j, len);
    assert forall k :: 0 <= k < |x| + |y| ==> a[k] == b[k];
  }

  /** The length of the run of spaces starting at `i`, as
      `strspn(buf + i, "   ")`; the end of the buffer ends the run. */
  function SpaceRun(s: seq<char>, i: nat): (n: nat)
    requires i <= |s|
    ensures i + n <= |s|
    ensures forall k :: i <= k < i + n ==> s[k] == ' '
    ensures i + n == |s| || s[i + n] != ' '
    decreases |s| - i
  {
    if i < |s| && s[i] == ' ' then 1 + SpaceRun(s, i + 1) else 0
  }

  /** The bytes of `s` that are not deleted, in their order. */
  function Survivors(s: seq<char>): (r: seq<char>)
    ensures |r| <= |s|
    ensures forall k :: 0 <= k < |r| ==> r[k] != NUL
  {
    if |s| == 0 then []
    else Survivors(s[..|s| - 1]) + (if s[|s| - 1] == NUL then [] else [s[|s| - 1]])
  }

  /** The number of bytes of `s` that are not deleted. */
  function Live(s: seq<char>): nat {
    |Survivors(s)|
  }

  /** The positions of the bytes of `s` that are not deleted, in increasing order. */
  function LivePositions(s: seq<char>): seq<int> {
    if |s| == 0 then []
    else LivePositions(s[..|s| - 1]) + (if s[|s| - 1] == NUL then [] else [|s| - 1])
  }

  /** What `shuffle` leaves behind: the survivors at the front, NULs after them. */
  function Compact(s: seq<char>): (r: seq<char>)
    ensures |r| == |s|
  {
    Survivors(s) + Nuls(|s| - |Survivors(s)|)
  }

  /** No byte that was deleted in `s` is live in `r`, and the size is the same. */
  predicate NoResurrect(s: seq<char>, r: seq<char>) {
    |r| == |s| && forall k :: 0 <= k < |s| && r[k] != NUL ==> s[k] != NUL
  }

  /** Every byte of `r` is the byte of `s` at the same place, or deleted. */
  predicate OnlyDeletes(s: seq<char>, r: seq<char>) {
    |r| == |s| && forall k :: 0 <= k < |s| ==> r[k] == s[k] || r[k] == NUL
  }

  lemma OnlyDeletesNoResurrect(s: seq<char>, r: seq<char>)
    requires OnlyDeletes(s, r)
    ensures NoResurrect(s, r)
  {
  }

  /** The survivors of a concatenation are the concatenated survivors. */
  lemma {:induction false} SurvivorsAppend(a: seq<char>, b: seq<char>)
    ensures Survivors(a + b) == Survivors(a) + Survivors(b)
  {
    if |b| == 0 {
      assert a + b == a;
    } else {
      var b' := b[..|b| - 1];
      assert (a + b)[..|a + b| - 1] == a + b';
      SurvivorsAppend(a, b');
    }
  }

  /** A buffer without deletion markers is its own survivors. */
  lemma {:induction false} SurvivorsOfLive(s: seq<char>)
    requires forall k :: 0 <= k < |s| ==> s[k] != NUL
    ensures Survivors(s) == s
  {
    if |s| > 0 {
      SurvivorsOfLive(s[..|s| - 1]);
    }
  }

  lemma {:induction false} SurvivorsNuls(n: nat)
    ensures Survivors(Nuls(n)) == []
  {
    if n > 0 {
      assert Nuls(n)[..n - 1] == Nuls(n - 1);
      SurvivorsNuls(n - 1);
    }
  }

  /** The survivors of a compacted buffer are the survivors of the original. */
  lemma CompactSurvivors(s: seq<char>)
    ensures Survivors(Compact(s)) == Survivors(s)
    ensures Live(Compact(s)) == Live(s)
  {
    var v := Survivors(s);
    SurvivorsAppend(v, Nuls(|s| - |v|));
    SurvivorsOfLive(v);
    SurvivorsNuls(|s| - |v|);
  }

  /** Compaction puts all live bytes first and all NULs after them. */
  lemma CompactShape(s: seq<char>)
    ensures Compact(s)[..Live(s)] == Survivors(s)
    ensures forall k :: 0 <= k < Live(s) ==> Compact(s)[k] != NUL
    ensures forall k :: Live(s) <= k < |s| ==> Compact(s)[k] == NUL
  {
  }

  /** No live byte follows a deleted one: the shape `shuffle` leaves. */
  predicate IsCompacted(s: seq<char>) {
    forall j, k :: 0 <= j < k < |s| && s[k] != NUL ==> s[j] != NUL
  }

  lemma CompactIsCompacted(s: seq<char>)
    ensures IsCompacted(Compact(s))
  {
    CompactShape(s);
  }

  /** Compacting twice is compacting once. */
  lemma CompactIdempotent(s: seq<char>)
    ensures Compact(Compact(s)) == Compact(s)
  {
    CompactSurvivors(s);
  }

  /** The survivors are exactly the live bytes of `s`, picked in increasing
      order of position: nothing live is lost, nothing is reordered. */
  lemma {:induction false} SurvivorsArePicked(s: seq<char>)
    ensures |LivePositions(s)| == |Survivors(s)|
    ensures forall k :: 0 <= k < |LivePositions(s)| ==>
      0 <= LivePositions(s)[k] < |s| && s[LivePositions(s)[k]] != NUL &&
      Survivors(s)[k] == s[LivePositions(s)[k]]
    ensures forall k, m :: 0 <= k < m < |LivePositions(s)| ==> LivePositions(s)[k] < LivePositions(s)[m]
    ensures forall j :: 0 <= j < |s| && s[j] != NUL ==> j in LivePositions(s)
  {
    if |s| > 0 {
      var t := s[..|s| - 1];
      SurvivorsArePicked(t);
      assert forall j :: 0 <= j < |t| ==> t[j] == s[j];
    }
  }

  /** A pass that never brings a deleted byte back never increases the live count. */
  lemma {:induction false} NoResurrectLive(s: seq<char>, r: seq<char>)
    requires NoResurrect(s, r)
    ensures Live(r) <= Live(s)
  {
    if |s| > 0 {
      var n := |s| - 1;
      assert NoResurrect(s[..n], r[..n]);
      NoResurrectLive(s[..n], r[..n]);
    }
  }

  /** Extending a prefix by one byte extends its survivors by that byte,
      unless it is deleted. */
  lemma SurvivorsSnoc(s: seq<char>, n: nat)
    requires n < |s|
    ensures Survivors(s[..n + 1]) == Survivors(s[..n]) + (if s[n] == NUL then [] else [s[n]])
  {
    assert s[..n + 1][..n] == s[..n];
  }

  /** `strspn(buf + i, "   ")`, bounded by the end of the buffer. */
  method Strspn(a: array<char>, i: nat) returns (n: nat)
    requires i <= a.Length
    ensures n == SpaceRun(a[..], i)
  {
    n := 0;
    while i + n < a.Length && a[i + n] == ' '
      invariant i + n <= a.Length
      invariant SpaceRun(a[..], i) == n + SpaceRun(a[..], i + n)
    {
      n := n + 1;
    }
  }

  /** `memset(buf + at, 0, len)`. */
  method Memset(a: array<char>, at: nat, len: nat)
    requires at + len <= a.Length
    modifies a
    ensures a[..] == Fill(old(a[..]), at, len)
  {
    forall k | at <= k < at + len {
      a[k] := NUL;
    }
  }

  /** `s(buf, i)`: delete the byte at `i`. */
  method Elide(a: array<char>, i: nat)
    requires i < a.Length
    modifies a
    ensures a[..] == old(a[..])[i := NUL]
  {
    a[i] := NUL;
  }

  /** `shuffle`: move the live bytes to the front, keeping their order, and
      NUL-fill the tail. */
  method Shuffle(a: array<char>)
    modifies a
    ensures a[..] == Compact(old(a[..]))
  {
    ghost var s := a[..];
    var from, to := 0, 0;
    while from < a.Length
      invariant 0 <= to <= from <= a.Length
      invariant a[..to] == Survivors(s[..from])
      invariant forall k :: from <= k < a.Length ==> a[k] == s[k]
    {
      SurvivorsSnoc(s, from);
      if a[from] == NUL {
        from := from + 1;
      } else {
        ghost var front := a[..to];
        a[to] := a[from];
        assert a[..to + 1] == front + [s[from]];
        from := from + 1;
        to := to + 1;
      }
    }
    assert s[..from] == s;
    Memset(a, to, from - to);
  }
}
