/** Phase six of the minifier (`p6`): drop a `;` that doubles another or
    closes a block. */
module Semicolons {
  import opened Buffer

  /** The `;` at `k` follows a `;` that is still there when the loop
      reaches `k`, so the first test of `p6` deletes it.  A `;` deleted this
      way no longer counts as the `;` before the next one, so in a run of
      semicolons every second one goes. */
  predicate Doubled(s: seq<char>, k: nat)
    decreases k
  {
    1 <= k < |s| && s[k - 1] == ';' && s[k] == ';' && !Doubled(s, k - 1)
  }

  /** The `;` at `k`, still there when the loop reaches `k + 1`, stands
      before a `}`, so the second test of `p6` deletes it. */
  predicate Trailing(s: seq<char>, k: nat) {
    k + 1 < |s| && s[k] == ';' && s[k + 1] == '}' && !Doubled(s, k)
  }

  /** The byte at `k` once the loop has handled every `i` below `n`. */
  function P6Byte(s: seq<char>, k: nat, n: nat): char
    requires k < |s|
  {
    if (k < n && Doubled(s, k)) || (k + 1 < n && Trailing(s, k)) then NUL else s[k]
  }

  /** The buffer once the loop has handled every `i` below `n`. */
  function P6Upto(s: seq<char>, n: nat): (r: seq<char>)
    ensures |r| == |s|
    ensures forall k {:trigger r[k]} :: 0 <= k < |s| ==> r[k] == P6Byte(s, k, n)
  {
    seq(|s|, k requires 0 <= k < |s| => P6Byte(s, k, n))
  }

  /** What `p6` leaves in the buffer. */
  function P6(s: seq<char>): (r: seq<char>)
    ensures |r| == |s|
  {
    P6Upto(s, |s|)
  }

  /** One turn of the loop at `i`, on the buffer it finds there. */
  lemma {:induction false} P6UptoNext(s: seq<char>, i: nat)
    requires 1 <= i < |s|
    ensures P6Upto(s, i)[i - 1] == (if Doubled(s, i - 1) then NUL else s[i - 1])
    ensures P6Upto(s, i)[i] == s[i]
    ensures P6Upto(s, i + 1) ==
      (var u := if Doubled(s, i) then P6Upto(s, i)[i := NUL] else P6Upto(s, i);
       if Trailing(s, i - 1) then u[i - 1 := NUL] else u)
  {
    var t, r := P6Upto(s, i), P6Upto(s, i + 1);
    var u := if Doubled(s, i) then t[i := NUL] else t;
    var v := if Trailing(s, i - 1) then u[i - 1 := NUL] else u;
    forall k | 0 <= k < |s|
      ensures r[k] == v[k]
    {
    }
  }

  /** `p6`. */
  method RunP6(a: array<char>)
    modifies a
    ensures a[..] == P6(old(a[..]))
  {
    ghost var s := a[..];
    assert P6Upto(s, 1) == s;
    var i := 1;
    while i < a.Length
      invariant 1 <= i && (a.Length >= 1 ==> i <= a.Length)
      invariant a[..] == P6Upto(s, i)
    {
      P6UptoNext(s, i);
      if a[i - 1] == ';' && a[i] == ';' {
        Elide(a, i);
      }
      if a[i - 1] == ';' && a[i] == '}' {
        Elide(a, i - 1);
      }
      i := i + 1;
    }
    assert P6Upto(s, i) == P6(s);
  }

  // ---------------------------------------------------------------------
  // What `p6` does.
  // ---------------------------------------------------------------------

  /** Only semicolons are deleted, and only one that follows a `;` or stands
      before a `}`; nothing is written but NUL. */
  lemma P6Deletes(s: seq<char>)
    ensures OnlyDeletes(s, P6(s))
    ensures forall k :: 0 <= k < |s| && P6(s)[k] != s[k] ==>
      s[k] == ';' && ((k >= 1 && s[k - 1] == ';') || (k + 1 < |s| && s[k + 1] == '}'))
  {
  }

  /** Of two adjacent semicolons at least one is deleted. */
  lemma P6Pair(s: seq<char>, k: nat)
    requires 1 <= k < |s| && s[k - 1] == ';' && s[k] == ';'
    ensures P6(s)[k - 1] == NUL || P6(s)[k] == NUL
  {
    if !Doubled(s, k) {
      assert Doubled(s, k - 1);
    }
  }

  /** A `;` right before a `}` is deleted. */
  lemma P6BeforeBrace(s: seq<char>, k: nat)
    requires k + 1 < |s| && s[k] == ';' && s[k + 1] == '}'
    ensures P6(s)[k] == NUL
  {
  }

  /** Deletions are judged on the buffer before it is compacted, so in a run
      of three semicolons the middle one goes and two stay adjacent. */
  lemma P6TripleLeavesPair()
    ensures P6(";;;") == [';', NUL, ';']
    ensures Compact(P6(";;;")) == ";;" + [NUL]
  {
    var s := ";;;";
    assert Doubled(s, 1);
    assert !Doubled(s, 2);
    var r := P6(s);
    assert r == [';', NUL, ';'];
    assert r[..2] == [';', NUL] && r[..1] == [';'] && r[..0] == [];
    assert Survivors(r[..1]) == ";";
    assert Survivors(r[..2]) == ";";
  }

  /** For the same reason `;;}` keeps a `;` before the `}`. */
  lemma P6DoubleBeforeBrace()
    ensures P6(";;}") == [';', NUL, '}']
    ensures Compact(P6(";;}")) == ";}" + [NUL]
  {
    var s := ";;}";
    assert Doubled(s, 1);
    assert !Trailing(s, 1);
    var r := P6(s);
    assert r == [';', NUL, '}'];
    assert r[..2] == [';', NUL] && r[..1] == [';'] && r[..0] == [];
    assert Survivors(r[..1]) == ";";
    assert Survivors(r[..2]) == ";";
  }

  /** `p6` only deletes, so it never increases the live count. */
  lemma P6Live(s: seq<char>)
    ensures Live(P6(s)) <= Live(s)
  {
    P6Deletes(s);
    OnlyDeletesNoResurrect(s, P6(s));
    NoResurrectLive(s, P6(s));
  }
}
