/** Phase zero of the minifier (`p0`): delete tabs, newlines and repeated spaces. */
module Whitespace {
  import opened Buffer

  /** The loop of `p0` from index `i` on, over the buffer as it is then.
      A tab or newline is deleted.  A space whose predecessor is a space or
      NUL starts a run that is deleted whole.  The guard `i > 0` means a
      space at index 0 is always kept (the source's own quirk: a leading run
      of spaces keeps its first space). */
  function P0From(s: seq<char>, i: nat): (r: seq<char>)
    requires i <= |s|
    ensures |r| == |s|
    decreases |s| - i
  {
    if i == |s| then s
    else if s[i] == '\t' || s[i] == '\n' then P0From(s[i := NUL], i + 1)
    else if i > 0 && (s[i - 1] == ' ' || s[i - 1] == NUL) && s[i] == ' ' then
      P0From(Fill(s, i, SpaceRun(s, i)), i + 1)
    else P0From(s, i + 1)
  }

  /** What `p0` leaves in the buffer. */
  function P0(s: seq<char>): seq<char> {
    P0From(s, 0)
  }

  /** Reference definition of `p0`, byte by byte on the original buffer: a
      tab or newline goes; a space goes when it is not at index 0 and the
      byte before it was whitespace or already deleted; the rest stays. */
  function P0Byte(s: seq<char>, k: nat): char
    requires k < |s|
  {
    if s[k] == '\t' || s[k] == '\n' then NUL
    else if s[k] == ' ' && k > 0 && (IsSpace(s[k - 1]) || s[k - 1] == NUL) then NUL
    else s[k]
  }

  function P0Ref(s: seq<char>): (r: seq<char>)
    ensures |r| == |s|
    ensures forall k :: 0 <= k < |s| ==> r[k] == P0Byte(s, k)
  {
    seq(|s|, k requires 0 <= k < |s| => P0Byte(s, k))
  }

  /** The state of the buffer when the loop of `p0` reaches `i`: everything
      before `i` is final, and a byte at or after `i` is either untouched or
      a space already deleted as part of a run that began before it. */
  ghost predicate P0Progress(s: seq<char>, t: seq<char>, i: nat) {
    && i <= |s| && |t| == |s|
    && (forall k :: 0 <= k < i ==> t[k] == P0Byte(s, k))
    && (forall k {:trigger t[k]} :: i <= k < |s| ==>
          t[k] == s[k] || (t[k] == NUL && s[k] == ' ' && k > 0 && s[k - 1] == ' '))
  }

  lemma {:induction false} P0FromRef(s: seq<char>, t: seq<char>, i: nat)
    requires P0Progress(s, t, i)
    ensures P0From(t, i) == P0Ref(s)
    decreases |s| - i
  {
    if i == |s| {
      assert t == P0Ref(s);
    } else if t[i] == '\t' || t[i] == '\n' {
      P0FromRef(s, t[i := NUL], i + 1);
    } else if i > 0 && (t[i - 1] == ' ' || t[i - 1] == NUL) && t[i] == ' ' {
      var n := SpaceRun(t, i);
      var t' := Fill(t, i, n);
      forall k | i <= k < i + n
        ensures t[k] == ' ' && s[k] == ' '
      {
        assert t[k] == s[k] || t[k] == NUL;
      }
      assert P0Progress(s, t', i + 1);
      P0FromRef(s, t', i + 1);
    } else {
      if i > 0 {
        assert t[i - 1] == P0Byte(s, i - 1);
      }
      P0FromRef(s, t, i + 1);
    }
  }

  /** The loop and the byte-by-byte reference definition agree on every input. */
  lemma P0IsRef(s: seq<char>)
    ensures P0(s) == P0Ref(s)
  {
    P0FromRef(s, s, 0);
  }

  /** After `p0` no tab or newline is left anywhere in the buffer. */
  lemma P0NoTabs(s: seq<char>)
    ensures |P0(s)| == |s|
    ensures forall k :: 0 <= k < |s| ==> P0(s)[k] != '\t' && P0(s)[k] != '\n'
  {
    P0IsRef(s);
  }

  /** A space survives `p0` exactly when it is at index 0 or the byte before
      it was neither whitespace nor NUL; every other byte but tab and
      newline is kept. */
  lemma P0Spaces(s: seq<char>)
    ensures |P0(s)| == |s|
    ensures forall k :: 0 <= k < |s| ==>
      (P0(s)[k] == ' ' <==> s[k] == ' ' && (k == 0 || !(IsSpace(s[k - 1]) || s[k - 1] == NUL)))
    ensures forall k :: 0 <= k < |s| && !IsSpace(s[k]) ==> P0(s)[k] == s[k]
  {
    P0IsRef(s);
  }

  /** `p0` only deletes. */
  lemma P0OnlyDeletes(s: seq<char>)
    ensures OnlyDeletes(s, P0(s))
  {
    P0IsRef(s);
  }

  /** When every surviving space past index 0 has a live non-space right
      before it, no two spaces are adjacent among the survivors. */
  lemma {:induction false} GuardedSpacesSurvivors(r: seq<char>)
    requires forall m :: 0 < m < |r| && r[m] == ' ' ==> r[m - 1] != NUL && r[m - 1] != ' '
    ensures forall k :: 0 <= k < |Survivors(r)| - 1 ==> !(Survivors(r)[k] == ' ' && Survivors(r)[k + 1] == ' ')
  {
    if |r| > 0 {
      var n := |r| - 1;
      var p := r[..n];
      assert forall m :: 0 < m < |p| && p[m] == ' ' ==> p[m - 1] != NUL && p[m - 1] != ' ';
      GuardedSpacesSurvivors(p);
      if r[n] == ' ' && n > 0 {
        assert p[..n - 1] == r[..n - 1];
        assert Survivors(p) == Survivors(r[..n - 1]) + [r[n - 1]];
      }
    }
  }

  /** So once `p0` has run and the buffer is compacted, no two spaces are adjacent. */
  lemma P0ThenCompactNoDoubleSpace(s: seq<char>)
    ensures forall k :: 0 <= k < |s| - 1 ==> !(Compact(P0(s))[k] == ' ' && Compact(P0(s))[k + 1] == ' ')
  {
    var r := P0(s);
    P0IsRef(s);
    GuardedSpacesSurvivors(r);
    CompactShape(r);
  }

  /** `p0`.  The source's loop runs while `i <= bufsz` and so reads
      `buf[bufsz]`, one byte past the buffer; here it stops at the last byte.
      After deleting a tab or newline the source steps `i` back, so the same
      index is looked at again (now NUL); that is kept. */
  method RunP0(a: array<char>)
    modifies a
    ensures a[..] == P0(old(a[..]))
  {
    ghost var s := a[..];
    var i: int := 0;
    while i < a.Length
      invariant 0 <= i <= a.Length
      invariant P0From(a[..], i) == P0(s)
      decreases a.Length - i, if i < a.Length && (a[i] == '\t' || a[i] == '\n') then 1 else 0
    {
      if a[i] == '\t' {
        Elide(a, i);
        i := i - 1;
      } else if a[i] == '\n' {
        Elide(a, i);
        i := i - 1;
      } else if i > 0 && (a[i - 1] == ' ' || a[i - 1] == NUL) && a[i] == ' ' {
        var n := Strspn(a, i);
        Memset(a, i, n);
      }
      i := i + 1;
    }
  }
}
