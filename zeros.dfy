/** Phase five of the minifier (`p5`): `:0.` becomes `:.`. */
module Zeros {
  import opened Buffer

  /** The `0` at `k` is that of a `:0.`. */
  predicate LeadingZero(s: seq<char>, k: nat) {
    1 <= k && k + 1 < |s| && s[k - 1] == ':' && s[k] == '0' && s[k + 1] == '.'
  }

  /** The buffer once the loop has looked at every `i` below `n`: the `0`
      of each `:0.` whose `.` lies before `n` is deleted. */
  function P5Upto(s: seq<char>, n: nat): (r: seq<char>)
    ensures |r| == |s|
    ensures forall k {:trigger r[k]} :: 0 <= k < |s| ==>
      r[k] == if k + 1 < n && LeadingZero(s, k) then NUL else s[k]
  {
    seq(|s|, k requires 0 <= k < |s| => if k + 1 < n && LeadingZero(s, k) then NUL else s[k])
  }

  /** What `p5` leaves in the buffer. */
  function P5(s: seq<char>): (r: seq<char>)
    ensures |r| == |s|
  {
    P5Upto(s, |s|)
  }

  /** `p5`.  Deleting a `0` never hides or makes a later match: the byte
      before the next `0` would be that `0`, not `:`. */
  method RunP5(a: array<char>)
    modifies a
    ensures a[..] == P5(old(a[..]))
  {
    ghost var s := a[..];
    assert P5Upto(s, 2) == s;
    var i := 2;
    while i < a.Length
      invariant 2 <= i && (a.Length >= 2 ==> i <= a.Length)
      invariant a[..] == P5Upto(s, i)
    {
      if a[i - 2] == ':' && a[i - 1] == '0' && a[i] == '.' {
        Elide(a, i - 1);
      }
      assert a[..] == P5Upto(s, i + 1);
      i := i + 1;
    }
    assert P5Upto(s, i) == P5(s);
  }

  /** A byte changes exactly when it is the `0` of a `:0.`, and it is then
      deleted. */
  lemma P5Deletes(s: seq<char>)
    ensures forall k :: 0 <= k < |s| ==> (P5(s)[k] != s[k] <==> LeadingZero(s, k))
    ensures OnlyDeletes(s, P5(s))
  {
  }

  /** `p5` only deletes, so it never increases the live count. */
  lemma P5Live(s: seq<char>)
    ensures Live(P5(s)) <= Live(s)
  {
    P5Deletes(s);
    OnlyDeletesNoResurrect(s, P5(s));
    NoResurrectLive(s, P5(s));
  }

  /** `margin:0.5em` becomes `margin:.5em` once compacted. */
  lemma P5Example()
    ensures Compact(P5("a:0.5")) == "a:.5" + [NUL]
  {
    var s := "a:0.5";
    var r := P5(s);
    assert r == "a:" + [NUL] + ".5";
    assert r[..|r| - 1] == "a:" + [NUL] + ".";
    assert r[..|r| - 2] == "a:" + [NUL];
    assert r[..|r| - 3] == "a:";
    assert r[..|r| - 4] == "a";
    assert r[..|r| - 5] == [];
    assert Survivors(r[..1]) == "a";
    assert Survivors(r[..2]) == "a:";
    assert Survivors(r[..3]) == "a:";
    assert Survivors(r[..4]) == "a:.";
    assert Survivors(r) == "a:.5";
  }
}
