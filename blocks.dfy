/** Phase seven of the minifier (`p7`): drop empty rule blocks. */
module Blocks {
  import opened Buffer

  /** An empty block `{}` whose `}` is at `i`. */
  predicate Block(t: seq<char>, i: nat) {
    1 <= i < |t| && t[i - 1] == '{' && t[i] == '}'
  }

  /** The backward scan of `p7`: from `j` down to index 1, the first `}`, or
      0 when there is none (the byte at index 0 is never looked at). */
  function LastClose(t: seq<char>, j: nat): (r: nat)
    requires j < |t|
    ensures r <= j
    ensures r == 0 || t[r] == '}'
    ensures forall m :: r < m <= j ==> t[m] != '}'
    decreases j
  {
    if j == 0 || t[j] == '}' then j else LastClose(t, j - 1)
  }

  /** What `p7` does to the buffer `t` at the empty block ending at `i`: it
      deletes the `}`, then everything after the nearest `}` before it (the
      end of the previous rule), which takes the selector and the `{` with
      it.  With no such `}` only the `}` of the block goes. */
  function Collapse(t: seq<char>, i: nat): (r: seq<char>)
    requires 1 <= i < |t|
    ensures OnlyDeletes(t, r)
    ensures r[i] == NUL
  {
    var u := t[i := NUL];
    var j := LastClose(u, i);
    if j != 0 then Fill(u, j + 1, i - j) else u
  }

  /** The buffer when the loop of `p7` reaches `i == n`. */
  function P7Upto(s: seq<char>, n: nat): (r: seq<char>)
    ensures |r| == |s|
    decreases n
  {
    if n <= 1 then s
    else
      var t := P7Upto(s, n - 1);
      if Block(t, n - 1) then Collapse(t, n - 1) else t
  }

  /** What `p7` leaves in the buffer. */
  function P7(s: seq<char>): (r: seq<char>)
    ensures |r| == |s|
  {
    P7Upto(s, |s|)
  }

  /** The step of the loop of `p7` at `i`, as the source writes it. */
  method CollapseAt(a: array<char>, i: nat)
    requires 1 <= i < a.Length
    modifies a
    ensures a[..] == Collapse(old(a[..]), i)
  {
    Elide(a, i);
    var j := i;
    while j != 0
      invariant j <= i
      invariant LastClose(a[..], j) == LastClose(a[..], i)
    {
      if a[j] == '}' {
        break;
      }
      j := j - 1;
    }
    if j != 0 {
      Memset(a, j + 1, i - j);
    }
  }

  /** `p7`. */
  method RunP7(a: array<char>)
    modifies a
    ensures a[..] == P7(old(a[..]))
  {
    ghost var s := a[..];
    var i := 1;
    while i < a.Length
      invariant 1 <= i && (a.Length >= 1 ==> i <= a.Length)
      invariant a[..] == P7Upto(s, i)
    {
      if a[i - 1] == '{' && a[i] == '}' {
        CollapseAt(a, i);
      }
      i := i + 1;
    }
    assert a.Length == 0 ==> P7Upto(s, i) == P7(s);
  }

  // ---------------------------------------------------------------------
  // What `p7` does, in terms of the buffer it starts from.
  // ---------------------------------------------------------------------

  /** A `}` at `m >= 1` that does not close an empty block: `p7` never
      deletes it, and it is where the backward scan stops. */
  predicate Fence(s: seq<char>, m: nat) {
    1 <= m < |s| && s[m] == '}' && s[m - 1] != '{'
  }

  /** The nearest fence at or before `m`, or 0 when there is none. */
  function NearestFence(s: seq<char>, m: nat): (r: nat)
    requires m < |s|
    ensures r <= m
    ensures r == 0 || Fence(s, r)
    ensures forall q :: r < q <= m ==> !Fence(s, q)
    decreases m
  {
    if m == 0 || Fence(s, m) then m else NearestFence(s, m - 1)
  }

  /** The fence nearest to `m` is the one with no fence between it and `m`. */
  lemma {:induction false} NearestFenceIs(s: seq<char>, m: nat, j: nat)
    requires j <= m < |s|
    requires j == 0 || Fence(s, j)
    requires forall q :: j < q <= m ==> !Fence(s, q)
    ensures NearestFence(s, m) == j
    decreases m
  {
    if m != j {
      assert !Fence(s, m);
      NearestFenceIs(s, m - 1, j);
    }
  }

  /** `m` lies after the fence nearest to the empty block at `k` and before
      the block's `}`: the step at `k` clears it.  Nothing is cleared when no
      fence comes before the block. */
  predicate Cleared(s: seq<char>, m: nat, k: nat) {
    Block(s, k) && m < k && NearestFence(s, k - 1) != 0 && NearestFence(s, k - 1) < m
  }

  /** `p7` deletes the byte at `m`: it is the `}` of an empty block, or some
      empty block clears it. */
  predicate Doomed(s: seq<char>, m: nat) {
    Block(s, m) || exists k :: m < k < |s| && Cleared(s, m, k)
  }

  /** What holds of the buffer `t` when the loop reaches `i`: bytes from `i`
      on are untouched, and so is the byte before unless it was a `}`; the
      `}`s left before `i` are exactly the fences; and every byte deleted is
      one `p7` deletes. */
  predicate Inv(s: seq<char>, t: seq<char>, i: nat) {
    && |t| == |s| && 1 <= i <= |s|
    && (forall m :: i <= m < |s| ==> t[m] == s[m])
    && (s[i - 1] != '}' ==> t[i - 1] == s[i - 1])
    && (forall m :: 1 <= m < i ==> (t[m] == '}' <==> Fence(s, m)))
    && OnlyDeletes(s, t)
    && (forall m :: 0 <= m < |s| && t[m] != s[m] ==> Doomed(s, m))
  }

  /** The loop finds an empty block at `i` exactly where the original buffer
      has one. */
  lemma BlockFound(s: seq<char>, t: seq<char>, i: nat)
    requires Inv(s, t, i) && i < |s|
    ensures Block(t, i) <==> Block(s, i)
  {
    assert t[i] == s[i];
    if t[i - 1] == '{' {
      assert t[i - 1] == s[i - 1];
    }
  }

  /** At an empty block the scan stops at the nearest fence before it, or at
      0 when there is none. */
  lemma {:induction false} ScanStopsAtFence(s: seq<char>, t: seq<char>, i: nat)
    requires Inv(s, t, i) && i < |s| && Block(s, i)
    ensures LastClose(t[i := NUL], i) < i
    ensures LastClose(t[i := NUL], i) == 0 || Fence(s, LastClose(t[i := NUL], i))
    ensures forall m :: LastClose(t[i := NUL], i) < m < i ==> !Fence(s, m)
  {
    var u := t[i := NUL];
    var j := LastClose(u, i);
    assert u[i] == NUL;
    forall m | j < m < i
      ensures !Fence(s, m)
    {
      assert u[m] == t[m];
    }
    if j != 0 {
      assert u[j] == t[j];
    }
  }

  /** One turn of the loop keeps `Inv`. */
  lemma {:induction false} InvStep(s: seq<char>, i: nat)
    requires 1 <= i < |s| && Inv(s, P7Upto(s, i), i)
    ensures Inv(s, P7Upto(s, i + 1), i + 1)
  {
    var t := P7Upto(s, i);
    var r := P7Upto(s, i + 1);
    BlockFound(s, t, i);
    if Block(s, i) {
      assert r == Collapse(t, i);
      var u := t[i := NUL];
      var j := LastClose(u, i);
      ScanStopsAtFence(s, t, i);
      assert forall m :: 0 <= m < |s| ==> r[m] == if m == i || (j != 0 && j < m < i) then NUL else t[m];
      NearestFenceIs(s, i - 1, j);
      forall m | 0 <= m < |s| && r[m] != s[m]
        ensures Doomed(s, m)
      {
        if t[m] == s[m] && m != i {
          assert Cleared(s, m, i);
        }
      }
      forall m | 1 <= m < i + 1
        ensures r[m] == '}' <==> Fence(s, m)
      {
        if j < m < i {
          assert u[m] == t[m];
        }
      }
    } else {
      assert r == t;
    }
  }

  /** `Inv` holds whenever the loop reaches `n`. */
  lemma {:induction false} InvHolds(s: seq<char>, n: nat)
    requires 1 <= n <= |s|
    ensures Inv(s, P7Upto(s, n), n)
    decreases n
  {
    if n > 1 {
      InvHolds(s, n - 1);
      InvStep(s, n - 1);
    }
  }

  /** A byte deleted when the loop reaches `n` stays deleted. */
  lemma {:induction false} StaysDeleted(s: seq<char>, n: nat, n': nat, m: nat)
    requires n <= n' && m < |s| && P7Upto(s, n)[m] == NUL
    ensures P7Upto(s, n')[m] == NUL
    decreases n' - n
  {
    if n < n' {
      StaysDeleted(s, n, n' - 1, m);
    }
  }

  /** `p7` only deletes, it keeps every fence, and every byte it deletes is
      the `}` of an empty block or one that an empty block clears. */
  lemma P7Deletes(s: seq<char>)
    ensures OnlyDeletes(s, P7(s))
    ensures forall m :: 0 <= m < |s| && Fence(s, m) ==> P7(s)[m] == '}'
    ensures forall m :: 0 <= m < |s| && P7(s)[m] != s[m] ==> Doomed(s, m)
  {
    if |s| >= 1 {
      InvHolds(s, |s|);
    }
  }

  /** The `}` of every empty block of the original buffer is deleted, and
      when a fence comes before it every byte after the nearest such fence
      up to the `}` is deleted. */
  lemma {:induction false} P7ClearsToFence(s: seq<char>, j: nat, k: nat)
    requires Block(s, k) && j < k
    requires j == 0 || Fence(s, j)
    requires forall m :: j < m < k ==> !Fence(s, m)
    ensures j == 0 ==> P7(s)[k] == NUL
    ensures j != 0 ==> forall m :: j < m <= k ==> P7(s)[m] == NUL
  {
    InvHolds(s, k);
    var t := P7Upto(s, k);
    BlockFound(s, t, k);
    assert P7Upto(s, k + 1) == Collapse(t, k);
    var u := t[k := NUL];
    ScanStopsAtFence(s, t, k);
    var r := LastClose(u, k);
    if j != 0 {
      assert t[j] == '}' && u[j] == '}';
      assert r == j;
      forall m | j < m <= k
        ensures P7(s)[m] == NUL
      {
        StaysDeleted(s, k + 1, |s|, m);
      }
    } else {
      StaysDeleted(s, k + 1, |s|, k);
    }
  }

  /** The `}` of every empty block of the original buffer is deleted. */
  lemma P7ClosesBlock(s: seq<char>, k: nat)
    requires Block(s, k)
    ensures P7(s)[k] == NUL
  {
    var j := NearestFence(s, k - 1);
    P7ClearsToFence(s, j, k);
  }

  /** With no fence before an empty block, `p7` deletes only the `}` there:
      the `{` and the selector before it remain (the source's own quirk). */
  lemma P7KeepsSelector(s: seq<char>, k: nat)
    requires Block(s, k)
    requires forall m :: 1 <= m < k ==> !Fence(s, m)
    ensures P7(s)[k] == NUL
    ensures forall m :: 0 <= m < k && !Block(s, m) ==> P7(s)[m] == s[m]
  {
    P7ClearsToFence(s, 0, k);
    P7Deletes(s);
  }

  /** Reference definition of `p7` on the buffer it starts from: a byte is
      deleted exactly when it is doomed. */
  function P7Ref(s: seq<char>): (r: seq<char>)
    ensures |r| == |s|
  {
    seq(|s|, m requires 0 <= m < |s| => if Doomed(s, m) then NUL else s[m])
  }

  /** The loop of `p7` and the reference definition agree on every input. */
  lemma P7IsRef(s: seq<char>)
    ensures P7(s) == P7Ref(s)
  {
    P7Deletes(s);
    var r, q := P7(s), P7Ref(s);
    forall m | 0 <= m < |s|
      ensures r[m] == q[m]
    {
      if Block(s, m) {
        P7ClosesBlock(s, m);
      } else if k :| m < k < |s| && Cleared(s, m, k) {
        P7ClearsToFence(s, NearestFence(s, k - 1), k);
      }
    }
  }

  /** A buffer without an empty block comes out of `p7` unchanged. */
  lemma P7NoBlock(s: seq<char>)
    requires forall k :: 0 <= k < |s| ==> !Block(s, k)
    ensures P7(s) == s
  {
    P7Deletes(s);
  }

  /** `p7` never increases the live count. */
  lemma P7Live(s: seq<char>)
    ensures Live(P7(s)) <= Live(s)
  {
    P7Deletes(s);
    OnlyDeletesNoResurrect(s, P7(s));
    NoResurrectLive(s, P7(s));
  }

  /** An empty rule after another rule goes entirely. */
  lemma P7DropsRule()
    ensures P7("p{c}q{}") == "p{c}" + Nuls(3)
  {
    var s := "p{c}q{}";
    assert Fence(s, 3);
    P7ClearsToFence(s, 3, 6);
    P7Deletes(s);
    NearestFenceIs(s, 5, 3);
    assert forall k :: 0 <= k < |s| && Block(s, k) ==> k == 6;
    assert !Doomed(s, 0) && !Doomed(s, 1) && !Doomed(s, 2) && !Doomed(s, 3);
    assert !Block(s, 3);
    var r := P7(s);
    assert r[0] == 'p' && r[1] == '{' && r[2] == 'c' && r[3] == '}';
  }

  /** The first empty rule of a buffer loses only its `}`. */
  lemma P7LoneBlock()
    ensures P7("a{}") == "a{" + [NUL]
  {
    var s := "a{}";
    P7KeepsSelector(s, 2);
  }

  /** A block emptied by `p7` is not looked at again: the `{` of `a{{}}`
      stays next to a `}` once compacted. */
  lemma P7NoRescan()
    ensures P7("a{{}}") == "a{{" + [NUL] + "}"
    ensures Compact(P7("a{{}}")) == "a{{}" + [NUL]
  {
    var s := "a{{}}";
    P7KeepsSelector(s, 3);
    P7Deletes(s);
    assert !Fence(s, 1) && !Fence(s, 2) && !Fence(s, 3);
    assert !Doomed(s, 4);
    var r := P7(s);
    assert r == "a{{" + [NUL] + "}";
    assert r[..4] == "a{{" + [NUL] && r[..3] == "a{{" && r[..2] == "a{" && r[..1] == "a" && r[..0] == [];
    assert Survivors(r[..1]) == "a";
    assert Survivors(r[..2]) == "a{";
    assert r[..3][..2] == r[..2];
    assert Survivors(r[..3]) == "a{{";
    assert Survivors(r[..4]) == "a{{";
  }
}
