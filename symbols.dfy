/** Phase two of the minifier (`p2`): delete the spaces around `{ : ; ,`. */
module Symbols {
  import opened Buffer

  /** The bytes `strcspn(buf + i, "{:;,")` stops at, besides NUL. */
  predicate IsDelim(c: char) {
    c == '{' || c == ':' || c == ';' || c == ','
  }

  /** The delimiters whose preceding spaces are deleted too: all but `:`. */
  predicate TrimsBefore(c: char) {
    c == '{' || c == ';' || c == ','
  }

  /** `strcspn(buf + i, "{:;,")`: the distance to the next delimiter or NUL;
      the end of the buffer counts as a NUL. */
  function DelimDist(s: seq<char>, i: nat): (n: nat)
    requires i <= |s|
    ensures i + n <= |s|
    ensures forall k :: i <= k < i + n ==> !IsDelim(s[k]) && s[k] != NUL
    ensures i + n == |s| || IsDelim(s[i + n]) || s[i + n] == NUL
    decreases |s| - i
  {
    if i == |s| || IsDelim(s[i]) || s[i] == NUL then 0 else 1 + DelimDist(s, i + 1)
  }

  /** The number of spaces the backward loop of `p2` counts before a
      delimiter at `d`: the run of spaces ending at `d - 1`, never reaching
      index 0 (the loop stops once `j` is 0 without looking at `buf[0]`). */
  function PreRun(s: seq<char>, d: nat): (n: nat)
    requires d <= |s|
    ensures n <= d && (n > 0 ==> d - n >= 1)
    ensures forall k :: d - n <= k < d ==> s[k] == ' '
    ensures d - n <= 1 || s[d - n - 1] != ' '
  {
    if d <= 1 then 0
    else if s[d - 1] == ' ' then 1 + PreRun(s, d - 1)
    else 0
  }

  /** The loop of `p2` from index `i` on.  It finds the next delimiter,
      deletes the run of spaces after it, deletes the run of spaces before it
      unless it is `:`, and goes on behind the spaces it deleted.  It stops at
      the first NUL. */
  function P2From(s: seq<char>, i: nat): (r: seq<char>)
    requires i <= |s|
    ensures |r| == |s|
    decreases |s| - i, 1
  {
    if i == |s| then s else P2At(s, i + DelimDist(s, i))
  }

  /** The loop of `p2` once `strcspn` has found `d`: a NUL or the end of the
      buffer ends the pass, a delimiter is handled. */
  function P2At(s: seq<char>, d: nat): (r: seq<char>)
    requires d <= |s|
    ensures |r| == |s|
    decreases |s| - d, 0
  {
    if d == |s| || s[d] == NUL then s
    else P2From(Handle(s, d), d + SpaceRun(s, d + 1) + 1)
  }

  /** The loop goes on from the next delimiter or NUL. */
  lemma {:induction false} P2FromAt(s: seq<char>, i: nat)
    requires i < |s|
    ensures P2From(s, i) == P2At(s, i + DelimDist(s, i))
  {
  }

  /** At a NUL or the end of the buffer the loop ends. */
  lemma {:induction false} P2AtEnd(s: seq<char>, d: nat)
    requires d <= |s| && (d == |s| || s[d] == NUL)
    ensures P2At(s, d) == s
  {
  }

  /** The loop ends at the first NUL or the end of the buffer after `i`. */
  lemma {:induction false} P2Finish(t: seq<char>, i: nat)
    requires i < |t|
    requires i + DelimDist(t, i) == |t| || t[i + DelimDist(t, i)] == NUL
    ensures P2From(t, i) == t
  {
    P2FromAt(t, i);
    P2AtEnd(t, i + DelimDist(t, i));
  }

  /** One round of the loop: handle the next delimiter and go on after the
      spaces that follow it. */
  lemma {:induction false} P2Advance(t: seq<char>, i: nat, u: seq<char>, next: nat)
    requires i < |t|
    requires i + DelimDist(t, i) < |t| && t[i + DelimDist(t, i)] != NUL
    requires u == Handle(t, i + DelimDist(t, i))
    requires next == i + DelimDist(t, i) + SpaceRun(t, i + DelimDist(t, i) + 1) + 1
    ensures next <= |u| && P2From(t, i) == P2From(u, next)
  {
    P2FromAt(t, i);
    P2AtDelim(t, i + DelimDist(t, i));
  }

  /** At a delimiter the loop handles it and resumes behind the spaces after it. */
  lemma {:induction false} P2AtDelim(s: seq<char>, d: nat)
    requires d < |s| && s[d] != NUL
    ensures P2At(s, d) == P2From(Handle(s, d), d + SpaceRun(s, d + 1) + 1)
  {
  }

  /** What `p2` leaves in the buffer. */
  function P2(s: seq<char>): (r: seq<char>)
    ensures |r| == |s|
  {
    P2From(s, 0)
  }

  /** The index of the first NUL, or the size when there is none. */
  function FirstNul(s: seq<char>): (n: nat)
    ensures n <= |s|
    ensures forall k :: 0 <= k < n ==> s[k] != NUL
    ensures n == |s| || s[n] == NUL
  {
    NulFrom(s, 0)
  }

  /** The index of the first NUL at or after `i`, or the size when there is none. */
  function NulFrom(s: seq<char>, i: nat): (n: nat)
    requires i <= |s|
    ensures i <= n <= |s|
    ensures forall k :: i <= k < n ==> s[k] != NUL
    ensures n == |s| || s[n] == NUL
    decreases |s| - i
  {
    if i == |s| || s[i] == NUL then i else NulFrom(s, i + 1)
  }

  /** The index of the nearest byte before `k` that is not a space, or -1. */
  function LeftEdge(s: seq<char>, k: nat): (j: int)
    requires k <= |s|
    ensures -1 <= j < k
  {
    if k == 0 then -1
    else if s[k - 1] != ' ' then k - 1
    else LeftEdge(s, k - 1)
  }

  /** Only spaces lie between the left edge and `k`, and the edge is not one. */
  lemma {:induction false} LeftEdgeSpaces(s: seq<char>, k: nat)
    requires k <= |s|
    ensures forall m :: LeftEdge(s, k) < m < k ==> s[m] == ' '
    ensures LeftEdge(s, k) >= 0 ==> s[LeftEdge(s, k)] != ' '
  {
    if k > 0 && s[k - 1] == ' ' {
      LeftEdgeSpaces(s, k - 1);
    }
  }

  /** The index of the nearest byte after `k` that is not a space, or the size. */
  function RightEdge(s: seq<char>, k: nat): (j: nat)
    requires k < |s|
    ensures k < j <= |s|
    decreases |s| - k
  {
    if k + 1 == |s| then |s|
    else if s[k + 1] != ' ' then k + 1
    else RightEdge(s, k + 1)
  }

  /** Only spaces lie between `k` and the right edge, and the edge is not one. */
  lemma {:induction false} RightEdgeSpaces(s: seq<char>, k: nat)
    requires k < |s|
    ensures forall m :: k < m < RightEdge(s, k) ==> s[m] == ' '
    ensures RightEdge(s, k) < |s| ==> s[RightEdge(s, k)] != ' '
    decreases |s| - k
  {
    if k + 1 < |s| && s[k + 1] == ' ' {
      RightEdgeSpaces(s, k + 1);
    }
  }

  /** Reference definition of `p2`, byte by byte on the original buffer.
      Before the first NUL, a space goes when the run of spaces it is in
      directly follows a delimiter, or directly precedes one of `{ ; ,` and
      the space is not at index 0.  Nothing else changes. */
  function P2Byte(s: seq<char>, k: nat): char
    requires k < |s|
  {
    if k < FirstNul(s) && s[k] == ' ' &&
       ((LeftEdge(s, k) >= 0 && IsDelim(s[LeftEdge(s, k)])) ||
        (k >= 1 && RightEdge(s, k) < |s| && TrimsBefore(s[RightEdge(s, k)])))
    then NUL
    else s[k]
  }

  function P2Ref(s: seq<char>): (r: seq<char>)
    ensures |r| == |s|
    ensures forall k :: 0 <= k < |s| ==> r[k] == P2Byte(s, k)
  {
    seq(|s|, k requires 0 <= k < |s| => P2Byte(s, k))
  }

  /** The state when the loop of `p2` reaches `i`: everything before `i` is
      final and held no NUL, everything from `i` on is untouched, and `i`
      is not inside a run of spaces. */
  ghost predicate P2Progress(s: seq<char>, t: seq<char>, i: nat) {
    && i <= |s| && |t| == |s|
    && (forall k :: 0 <= k < i ==> s[k] != NUL)
    && (forall k {:trigger P2Byte(s, k)} :: 0 <= k < i ==> t[k] == P2Byte(s, k))
    && (forall k {:trigger t[k]} :: i <= k < |s| ==> t[k] == s[k])
    && (i == 0 || i == |s| || s[i] != ' ')
    && (i == 0 || t[i - 1] != ' ')
  }

  /** No space in the stretch `[i, d)` scanned up to a delimiter follows a
      delimiter: the stretch holds none, and it begins at index 0 or at a
      byte that is not a space. */
  lemma {:induction false} LeftInStretch(s: seq<char>, i: nat, k: nat)
    requires i <= k < |s| && s[k] == ' '
    requires forall m :: i <= m < k ==> !IsDelim(s[m])
    requires i == 0 || s[i] != ' '
    ensures !(LeftEdge(s, k) >= 0 && IsDelim(s[LeftEdge(s, k)]))
  {
    var l := LeftEdge(s, k);
    LeftEdgeSpaces(s, k);
    assert i > 0 ==> l >= i;
  }

  /** All spaces in `[k, d)`. */
  predicate SpacesUpTo(s: seq<char>, k: nat, d: nat)
    requires k <= d <= |s|
  {
    forall m :: k <= m < d ==> s[m] == ' '
  }

  /** A space in the stretch precedes one of `{ ; ,` exactly when the spaces
      reach through to the byte `d` that ends the stretch and that byte is
      one of them. */
  lemma {:induction false} RightInStretch(s: seq<char>, i: nat, d: nat, k: nat)
    requires d <= |s| && i <= k < d && s[k] == ' '
    requires forall m :: i <= m < d ==> !IsDelim(s[m])
    requires d == |s| || s[d] != ' '
    ensures RightEdge(s, k) < |s| && TrimsBefore(s[RightEdge(s, k)]) <==>
      d < |s| && TrimsBefore(s[d]) && SpacesUpTo(s, k, d)
  {
    var r := RightEdge(s, k);
    RightEdgeSpaces(s, k);
    assert d < |s| ==> r <= d;
    if r == d {
      assert SpacesUpTo(s, k, d);
    }
  }

  /** The backward count of `p2` at a delimiter `d`, when `u` agrees with `s`
      on `[i, d)` and the byte before `i` is not a space: it covers exactly
      the spaces of `[i, d)` past index 0 from which the spaces reach `d`. */
  lemma {:induction false} PreRunWithin(s: seq<char>, u: seq<char>, i: nat, d: nat)
    requires i <= d <= |s| && |u| == |s|
    requires forall m :: i <= m < d ==> u[m] == s[m]
    requires i == 0 || u[i - 1] != ' '
    ensures d - PreRun(u, d) >= i
    ensures forall k :: i <= k < d ==>
      (d - PreRun(u, d) <= k <==> k >= 1 && SpacesUpTo(s, k, d))
    decreases d
  {
    if d > i && d > 1 && u[d - 1] == ' ' {
      PreRunWithin(s, u, i, d - 1);
      assert forall k :: i <= k < d - 1 ==>
        (SpacesUpTo(s, k, d) <==> SpacesUpTo(s, k, d - 1));
      assert SpacesUpTo(s, d - 1, d);
    }
  }

  /** One delimiter `d` handled by the loop of `p2`: the spaces after it are
      deleted, then, unless it is `:`, those the backward count finds before it. */
  function Handle(s: seq<char>, d: nat): (r: seq<char>)
    requires d < |s|
    ensures |r| == |s|
  {
    var t := Fill(s, d + 1, SpaceRun(s, d + 1));
    if s[d] != ':' then Fill(t, d - PreRun(t, d), PreRun(t, d)) else t
  }

  /** `u` is `t` with the delimiter at `d` handled, byte by byte. */
  ghost predicate Handled(t: seq<char>, d: nat, u: seq<char>)
    requires d < |t|
  {
    && |u| == |t|
    && forall k {:trigger u[k]} :: 0 <= k < |t| ==>
         u[k] == if d < k <= d + SpaceRun(t, d + 1) || (t[d] != ':' && d - PreRun(t, d) <= k < d)
                 then NUL else t[k]
  }

  /** The backward count only looks below `d`. */
  lemma {:induction false} PreRunFrame(t: seq<char>, u: seq<char>, d: nat)
    requires d <= |t| && d <= |u|
    requires forall k :: 0 <= k < d ==> t[k] == u[k]
    ensures PreRun(t, d) == PreRun(u, d)
  {
    if d > 1 {
      PreRunFrame(t, u, d - 1);
    }
  }

  lemma HandleIsHandled(t: seq<char>, d: nat)
    requires d < |t|
    ensures Handled(t, d, Handle(t, d))
  {
    var v := Fill(t, d + 1, SpaceRun(t, d + 1));
    PreRunFrame(t, v, d);
  }

  /** Where the first NUL is, when the bytes before `n` are all live. */
  lemma FirstNulAtLeast(s: seq<char>, n: nat)
    requires n <= |s|
    requires forall m :: 0 <= m < n ==> s[m] != NUL
    ensures FirstNul(s) >= n
  {
  }

  /** The bytes of `[i, d)` after a delimiter `d` is handled. */
  lemma {:induction false} StepBefore(s: seq<char>, t: seq<char>, u: seq<char>, i: nat, d: nat, k: nat)
    requires P2Progress(s, t, i) && i <= k < d < |s|
    requires Handled(t, d, u)
    requires d < FirstNul(s) && IsDelim(s[d])
    requires forall m :: i <= m < d ==> !IsDelim(s[m])
    ensures u[k] == P2Byte(s, k)
  {
    PreRunWithin(s, t, i, d);
    assert t[d] == s[d];
    assert t[k] == s[k];
    if s[k] == ' ' {
      LeftInStretch(s, i, k);
      RightInStretch(s, i, d, k);
    } else {
      assert !SpacesUpTo(s, k, d);
    }
  }

  /** The spaces after a handled delimiter `d`. */
  lemma {:induction false} StepAfter(s: seq<char>, t: seq<char>, u: seq<char>, i: nat, d: nat, k: nat)
    requires P2Progress(s, t, i) && i <= d < |s|
    requires Handled(t, d, u)
    requires d < k <= d + SpaceRun(t, d + 1)
    requires k < FirstNul(s) && IsDelim(s[d])
    ensures u[k] == P2Byte(s, k) == NUL
  {
    assert s[k] == t[k] == ' ';
    assert t[d] == s[d];
    var l := LeftEdge(s, k);
    LeftEdgeSpaces(s, k);
    assert l >= d;
    assert l >= 0 ==> t[l] == s[l];
    assert l == d;
  }

  /** The bytes up to the end of the spaces after a handled delimiter are final. */
  lemma {:induction false} P2StepBytes(s: seq<char>, t: seq<char>, u: seq<char>, i: nat, d: nat)
    requires P2Progress(s, t, i)
    requires d == i + DelimDist(t, i) && d < |s| && t[d] != NUL
    requires Handled(t, d, u)
    ensures forall k {:trigger P2Byte(s, k)} :: 0 <= k <= d + SpaceRun(t, d + 1) ==> u[k] == P2Byte(s, k)
  {
    var e := d + SpaceRun(t, d + 1) + 1;
    assert forall m :: i <= m < e ==> t[m] == s[m];
    FirstNulAtLeast(s, e);
    PreRunWithin(t, t, i, d);
    forall k | 0 <= k < e
      ensures u[k] == P2Byte(s, k)
    {
      if k < i {
        assert u[k] == t[k];
      } else if k < d {
        StepBefore(s, t, u, i, d, k);
      } else if k > d {
        StepAfter(s, t, u, i, d, k);
      } else {
        assert u[d] == t[d];
      }
    }
  }

  /** After a handled delimiter the loop resumes at a byte that is not a
      space, and no NUL came before it. */
  lemma {:induction false} P2StepScan(s: seq<char>, t: seq<char>, i: nat, d: nat)
    requires i <= |s| && |t| == |s|
    requires forall k :: 0 <= k < i ==> s[k] != NUL
    requires forall k {:trigger t[k]} :: i <= k < |s| ==> t[k] == s[k]
    requires d == i + DelimDist(t, i) && d < |s| && t[d] != NUL
    ensures var e := d + SpaceRun(t, d + 1) + 1;
      && (forall k :: 0 <= k < e ==> s[k] != NUL)
      && (e == |s| || s[e] != ' ')
  {
    var e := d + SpaceRun(t, d + 1) + 1;
    assert forall m :: i <= m < e ==> t[m] == s[m];
  }

  /** After a handled delimiter the rest of the buffer is untouched, and the
      byte before the resume point is not a space. */
  lemma {:induction false} P2StepTail(t: seq<char>, u: seq<char>, d: nat)
    requires d < |t| && IsDelim(t[d]) && Handled(t, d, u)
    ensures var e := d + SpaceRun(t, d + 1) + 1;
      && (forall k {:trigger u[k]} :: e <= k < |t| ==> u[k] == t[k])
      && u[e - 1] != ' '
  {
    var post := SpaceRun(t, d + 1);
    assert post > 0 ==> u[d + post] == NUL;
    assert post == 0 ==> u[d] == t[d];
  }

  /** One delimiter handled by the loop keeps the progress invariant. */
  lemma {:induction false} P2Step(s: seq<char>, t: seq<char>, u: seq<char>, i: nat, d: nat, e: nat)
    requires P2Progress(s, t, i)
    requires d == i + DelimDist(t, i) && d < |s| && t[d] != NUL
    requires Handled(t, d, u)
    requires e == d + SpaceRun(t, d + 1) + 1
    ensures P2Progress(s, u, e)
  {
    P2StepBytes(s, t, u, i, d);
    P2StepScan(s, t, i, d);
    P2StepTail(t, u, d);
    assert forall k {:trigger u[k]} :: e <= k < |s| ==> u[k] == s[k];
  }

  /** Where the loop stops: a NUL or the end of the buffer before any further
      delimiter, so nothing from `i` on is changed. */
  lemma {:induction false} P2Stop(s: seq<char>, t: seq<char>, i: nat)
    requires P2Progress(s, t, i) && i < |s|
    requires i + DelimDist(t, i) == |s| || t[i + DelimDist(t, i)] == NUL
    ensures t == P2Ref(s)
  {
    var d := i + DelimDist(t, i);
    assert forall m :: i <= m < d ==> t[m] == s[m];
    assert FirstNul(s) == d;
    forall k | i <= k < |s|
      ensures t[k] == P2Byte(s, k)
    {
      if k < d && s[k] == ' ' {
        LeftInStretch(s, i, k);
        RightInStretch(s, i, d, k);
      }
    }
  }

  /** Where the loop ends: the whole buffer is final. */
  lemma {:induction false} P2Done(s: seq<char>, t: seq<char>)
    requires P2Progress(s, t, |s|)
    ensures t == P2Ref(s)
  {
    var r := P2Ref(s);
    assert forall k :: 0 <= k < |s| ==> t[k] == r[k];
  }

  /** One round of the loop at a delimiter, from progress to progress. */
  lemma {:induction false} P2Round(s: seq<char>, t: seq<char>, i: nat) returns (u: seq<char>, e: nat)
    requires P2Progress(s, t, i) && i < |s|
    requires i + DelimDist(t, i) < |s| && t[i + DelimDist(t, i)] != NUL
    ensures i < e <= |s| && P2Progress(s, u, e) && P2From(t, i) == P2From(u, e)
  {
    var d := i + DelimDist(t, i);
    u := Handle(t, d);
    e := d + SpaceRun(t, d + 1) + 1;
    HandleIsHandled(t, d);
    P2Step(s, t, u, i, d, e);
    P2Advance(t, i, u, e);
  }

  lemma {:induction false} P2FromRef(s: seq<char>, t: seq<char>, i: nat)
    requires P2Progress(s, t, i)
    ensures P2From(t, i) == P2Ref(s)
    decreases |s| - i
  {
    if i == |s| {
      P2Done(s, t);
    } else {
      var d := i + DelimDist(t, i);
      if d == |s| || t[d] == NUL {
        P2Finish(t, i);
        P2Stop(s, t, i);
      } else {
        var u, e := P2Round(s, t, i);
        P2FromRef(s, u, e);
      }
    }
  }

  lemma P2IsRef(s: seq<char>)
    ensures P2(s) == P2Ref(s)
  {
    P2FromRef(s, s, 0);
  }

  /** `p2` deletes spaces and nothing else, never touches index 0 and never
      touches anything from the first NUL on. */
  lemma P2OnlySpaces(s: seq<char>)
    ensures |P2(s)| == |s|
    ensures forall k :: 0 <= k < |s| ==> P2(s)[k] == s[k] || (s[k] == ' ' && P2(s)[k] == NUL)
    ensures |s| > 0 ==> P2(s)[0] == s[0]
    ensures forall k :: FirstNul(s) <= k < |s| ==> P2(s)[k] == s[k]
  {
    P2IsRef(s);
  }

  lemma P2OnlyDeletes(s: seq<char>)
    ensures OnlyDeletes(s, P2(s))
  {
    P2IsRef(s);
  }

  /** The spaces directly after a delimiter before the first NUL go. */
  lemma P2AfterDelim(s: seq<char>, d: nat)
    requires d < FirstNul(s) && IsDelim(s[d])
    ensures forall k :: d < k <= d + SpaceRun(s, d + 1) ==> P2(s)[k] == NUL
  {
    P2IsRef(s);
    forall k | d < k <= d + SpaceRun(s, d + 1)
      ensures P2(s)[k] == NUL
    {
      LeftEdgeSpaces(s, k);
      assert LeftEdge(s, k) == d;
    }
  }

  /** All spaces from `j` through `k` inclusive. */
  predicate Spaces(s: seq<char>, j: nat, k: nat)
    requires j <= k < |s|
  {
    forall m :: j <= m <= k ==> s[m] == ' '
  }

  /** The spaces directly before one of `{ ; ,` go, except at index 0; the
      spaces directly before a `:` that does not follow a delimiter stay. */
  lemma P2BeforeDelim(s: seq<char>, d: nat)
    requires d < FirstNul(s)
    ensures TrimsBefore(s[d]) ==>
      forall j :: 1 <= j < d && Spaces(s, j, d - 1) ==> P2(s)[j] == NUL
    ensures (s[d] == ':' && d >= 1 && s[d - 1] == ' ' &&
             !(LeftEdge(s, d - 1) >= 0 && IsDelim(s[LeftEdge(s, d - 1)]))) ==>
            P2(s)[d - 1] == ' '
  {
    P2IsRef(s);
    if TrimsBefore(s[d]) {
      forall j | 1 <= j < d && Spaces(s, j, d - 1)
        ensures P2(s)[j] == NUL
      {
        RightEdgeSpaces(s, j);
        assert RightEdge(s, j) == d;
      }
    }
    if s[d] == ':' && d >= 1 && s[d - 1] == ' ' {
      RightEdgeSpaces(s, d - 1);
      assert RightEdge(s, d - 1) == d;
    }
  }

  /** The body of the loop of `p2` for a delimiter at `d`: clear the spaces
      after it and, unless it is `:`, the spaces the backward loop counts
      before it.  Returns the number of spaces cleared after it. */
  method HandleAt(a: array<char>, d: nat) returns (post: nat)
    requires d < a.Length
    modifies a
    ensures post == SpaceRun(old(a[..]), d + 1)
    ensures a[..] == Handle(old(a[..]), d)
  {
    post := Strspn(a, d + 1);
    Memset(a, d + 1, post);
    if a[d] != ':' {
      var pre := 0;
      var j: int := d - 1;
      while j > 0 && a[j] == ' '
        invariant 0 <= j + 1 <= d && j + 1 + pre == d
        invariant PreRun(a[..], d) == pre + PreRun(a[..], j + 1)
      {
        j := j - 1;
        pre := pre + 1;
      }
      Memset(a, j + 1, pre);
    }
  }

  /** `strcspn(buf + i, "{:;,")`, bounded by the end of the buffer. */
  method Strcspn(a: array<char>, i: nat) returns (n: nat)
    requires i <= a.Length
    ensures n == DelimDist(a[..], i)
  {
    n := 0;
    while i + n < a.Length && !IsDelim(a[i + n]) && a[i + n] != NUL
      invariant i + n <= a.Length
      invariant DelimDist(a[..], i) == n + DelimDist(a[..], i + n)
    {
      n := n + 1;
    }
  }

  /** `p2`.  `strcspn` and `strspn` stop at the end of the buffer as at a NUL.
      For a delimiter at index 0 the source's `j` starts at `0 - 1`, which
      wraps, and the source then reads far outside the buffer; here `j` is an
      integer, reaches -1, and the loop clears nothing. */
  method RunP2(a: array<char>)
    modifies a
    ensures a[..] == P2(old(a[..]))
  {
    ghost var s := a[..];
    var i := 0;
    while i < a.Length
      invariant i <= a.Length
      invariant P2From(a[..], i) == P2(s)
      decreases a.Length - i
    {
      ghost var t := a[..];
      var symbolDist := Strcspn(a, i);
      var symbolI := i + symbolDist;
      if symbolI == a.Length || a[symbolI] == NUL {
        P2Finish(t, i);
        break;
      }
      var post := HandleAt(a, symbolI);
      var next := symbolI + post + 1;
      P2Advance(t, i, a[..], next);
      i := next;
    }
  }
}
