/** Phase four of the minifier (`p4`): shorten `#aabbcc` to `#abc`. */
module HexCodes {
  import opened Buffer

  /** What `p4` tests for the window of eight bytes starting at `j` (the
      loop's `i` is `j + 7`): a `#`, six hexadecimal digits, and a byte that
      is not one, where the first two digits are equal and so are the next
      two.  The third pair is only tested for being non-NUL, which every
      hexadecimal digit is, so it is never compared (the source's own
      quirk: `#aabb12` becomes `#ab1`). */
  predicate Short(s: seq<char>, j: nat) {
    && j + 7 < |s| && s[j] == '#'
    && IsHex(s[j + 1]) && IsHex(s[j + 2]) && IsHex(s[j + 3])
    && IsHex(s[j + 4]) && IsHex(s[j + 5]) && IsHex(s[j + 6]) && !IsHex(s[j + 7])
    && s[j + 1] == s[j + 2] && s[j + 3] == s[j + 4] && s[j + 5] != NUL && s[j + 6] != NUL
  }

  /** The byte at `k` once the windows starting before `n` are handled,
      each on the original buffer: a short window `#aabbcc` becomes `#abc`
      and three NULs. */
  function P4Byte(s: seq<char>, k: nat, n: nat): char
    requires k < |s|
  {
    if 2 <= k && k - 2 < n && Short(s, k - 2) then s[k + 1]
    else if 3 <= k && k - 3 < n && Short(s, k - 3) then s[k + 2]
    else if (4 <= k && k - 4 < n && Short(s, k - 4))
         || (5 <= k && k - 5 < n && Short(s, k - 5))
         || (6 <= k && k - 6 < n && Short(s, k - 6)) then NUL
    else s[k]
  }

  /** The buffer once the windows starting before `n` are handled. */
  function P4Upto(s: seq<char>, n: nat): (r: seq<char>)
    ensures |r| == |s|
    ensures forall k {:trigger r[k]} :: 0 <= k < |s| ==> r[k] == P4Byte(s, k, n)
  {
    seq(|s|, k requires 0 <= k < |s| => P4Byte(s, k, n))
  }

  /** What `p4` leaves in the buffer. */
  function P4(s: seq<char>): (r: seq<char>)
    ensures |r| == |s|
  {
    P4Upto(s, |s|)
  }

  /** Two short windows never overlap: the `#` of the later one would be
      one of the six digits of the earlier one. */
  lemma ShortIsolated(s: seq<char>, j: nat, j': nat)
    requires Short(s, j) && j' != j && j' <= j + 6 && j <= j' + 6
    ensures !Short(s, j')
  {
    if j' > j {
      assert IsHex(s[j']);
    } else {
      assert s[j] == '#' && !IsHex('#');
    }
  }

  /** The test of `p4` on the buffer as the loop finds it. */
  predicate Tested(t: seq<char>, j: nat)
    requires j + 7 < |t|
  {
    && t[j] == '#'
    && IsHex(t[j + 1]) && IsHex(t[j + 2]) && IsHex(t[j + 3])
    && IsHex(t[j + 4]) && IsHex(t[j + 5]) && IsHex(t[j + 6]) && !IsHex(t[j + 7])
    && t[j + 1] == t[j + 2] && t[j + 3] == t[j + 4] && t[j + 5] != NUL && t[j + 6] != NUL
  }

  /** Some short window starting in the six bytes before `j` covers `j`. */
  predicate Covered(s: seq<char>, j: nat) {
    || (j >= 1 && Short(s, j - 1)) || (j >= 2 && Short(s, j - 2)) || (j >= 3 && Short(s, j - 3))
    || (j >= 4 && Short(s, j - 4)) || (j >= 5 && Short(s, j - 5)) || (j >= 6 && Short(s, j - 6))
  }

  /** The window at `j` of the partly rewritten buffer holds the original
      bytes unless an earlier window rewrote some; then neither the
      original nor the current bytes pass the test. */
  lemma {:induction false} TestedIsShort(s: seq<char>, j: nat)
    requires j + 7 < |s|
    ensures Tested(P4Upto(s, j), j) <==> Short(s, j)
    ensures Short(s, j) ==> P4Upto(s, j)[j + 3] == s[j + 3] && P4Upto(s, j)[j + 5] == s[j + 5]
  {
    var t := P4Upto(s, j);
    if Covered(s, j) {
      if j >= 1 && Short(s, j - 1) {
        ShortIsolated(s, j - 1, j);
      } else if j >= 2 && Short(s, j - 2) {
        ShortIsolated(s, j - 2, j);
      } else if j >= 3 && Short(s, j - 3) {
        ShortIsolated(s, j - 3, j);
      } else if j >= 4 && Short(s, j - 4) {
        ShortIsolated(s, j - 4, j);
      } else if j >= 5 && Short(s, j - 5) {
        ShortIsolated(s, j - 5, j);
      } else {
        ShortIsolated(s, j - 6, j);
      }
      assert t[j] != '#';
    } else {
      assert t[j] == s[j] && t[j + 1] == s[j + 1] && t[j + 2] == s[j + 2] && t[j + 3] == s[j + 3];
      assert t[j + 4] == s[j + 4] && t[j + 5] == s[j + 5] && t[j + 6] == s[j + 6] && t[j + 7] == s[j + 7];
    }
  }

  /** Handling the window at `j` changes the bytes `j + 2 .. j + 6` when the
      window is short, and nothing otherwise. */
  lemma {:induction false} P4UptoNext(s: seq<char>, j: nat)
    requires j + 7 < |s|
    ensures Short(s, j) ==> (P4Upto(s, j + 1) ==
      P4Upto(s, j)[j + 2 := s[j + 3]][j + 3 := s[j + 5]][j + 4 := NUL][j + 5 := NUL][j + 6 := NUL])
    ensures !Short(s, j) ==> P4Upto(s, j + 1) == P4Upto(s, j)
  {
    var t, u := P4Upto(s, j), P4Upto(s, j + 1);
    if Short(s, j) {
      var v := t[j + 2 := s[j + 3]][j + 3 := s[j + 5]][j + 4 := NUL][j + 5 := NUL][j + 6 := NUL];
      forall k | 0 <= k < |s|
        ensures u[k] == v[k]
      {
        if j + 2 <= k <= j + 6 {
          if k - 2 != j { ShortIsolated(s, j, k - 2); }
          if k - 3 != j && k >= 3 { ShortIsolated(s, j, k - 3); }
          if k - 4 != j && k >= 4 { ShortIsolated(s, j, k - 4); }
          if k - 5 != j && k >= 5 { ShortIsolated(s, j, k - 5); }
          if k - 6 != j && k >= 6 { ShortIsolated(s, j, k - 6); }
        }
      }
    } else {
      assert forall k :: 0 <= k < |s| ==> u[k] == t[k];
    }
  }

  /** Past the last window there is nothing more to handle. */
  lemma P4UptoEnd(s: seq<char>, n: nat)
    requires n + 7 >= |s|
    ensures P4Upto(s, n) == P4(s)
  {
    var t, u := P4Upto(s, n), P4(s);
    assert forall k :: 0 <= k < |s| ==> t[k] == u[k];
  }

  // ---------------------------------------------------------------------
  // What `p4` does.
  // ---------------------------------------------------------------------

  /** No short window but the one at `j` bears on the bytes `j .. j + 7`. */
  lemma {:induction false} Alone(s: seq<char>, j: nat)
    requires Short(s, j)
    ensures forall j': nat :: j' != j && j' + 6 >= j && j' <= j + 6 ==> !Short(s, j')
  {
    forall j': nat | j' != j && j' + 6 >= j && j' <= j + 6
      ensures !Short(s, j')
    {
      ShortIsolated(s, j, j');
    }
  }

  /** A short window `#aabbcc` becomes `#abc` and three NULs. */
  lemma P4Shortens(s: seq<char>, j: nat)
    requires Short(s, j)
    ensures P4(s)[j..j + 7] == ['#', s[j + 1], s[j + 3], s[j + 5], NUL, NUL, NUL]
  {
    var r := P4(s);
    Alone(s, j);
    assert r[j] == '#';
    assert r[j + 1] == s[j + 1];
    assert r[j + 2] == s[j + 3];
    assert r[j + 3] == s[j + 5];
    assert r[j + 4] == NUL;
    assert r[j + 5] == NUL;
    assert r[j + 6] == NUL;
  }

  /** The third pair is not compared: `#aabb12` becomes `#ab1`. */
  lemma P4ThirdPairUnchecked()
    ensures P4("#aabb12;") == "#ab1" + Nuls(3) + ";"
  {
    var s := "#aabb12;";
    assert Short(s, 0);
    P4Shortens(s, 0);
    assert P4(s)[7] == ';';
  }

  /** A `#` followed by seven or more hexadecimal digits is left alone. */
  lemma P4KeepsLongHex(s: seq<char>, j: nat)
    requires j + 7 < |s| && s[j] == '#'
    requires forall m :: j + 1 <= m <= j + 7 ==> IsHex(s[m])
    ensures P4(s)[j..j + 8] == s[j..j + 8]
  {
    var r := P4(s);
    forall k | j <= k <= j + 7
      ensures r[k] == s[k]
    {
      assert IsHex(s[j + 1]) && IsHex(s[j + 2]) && IsHex(s[j + 3]);
      assert IsHex(s[j + 4]) && IsHex(s[j + 5]);
    }
  }

  /** `p4` writes live bytes only where live digits were, so it brings no
      deleted byte back and never increases the live count. */
  lemma P4Live(s: seq<char>)
    ensures NoResurrect(s, P4(s))
    ensures Live(P4(s)) <= Live(s)
  {
    var r := P4(s);
    assert forall k :: 0 <= k < |s| && r[k] != NUL ==> s[k] != NUL;
    NoResurrectLive(s, r);
  }

  /** The rewrite of a short window at `j`: `#aabbcc` becomes `#abc` and
      three NULs, the second digit taking the third's value and the third
      the fifth's. */
  method Shorten(a: array<char>, j: nat)
    requires j + 7 <= a.Length
    modifies a
    ensures a[..] == old(a[..])[j + 2 := old(a[j + 3])][j + 3 := old(a[j + 5])][j + 4 := NUL][j + 5 := NUL][j + 6 := NUL]
  {
    a[j + 2] := a[j + 3];
    a[j + 3] := a[j + 5];
    a[j + 4] := NUL;
    a[j + 5] := NUL;
    a[j + 6] := NUL;
  }

  /** `p4`. */
  method RunP4(a: array<char>)
    modifies a
    ensures a[..] == P4(old(a[..]))
  {
    ghost var s := a[..];
    assert P4Upto(s, 0) == s;
    var i := 7;
    while i < a.Length
      invariant 7 <= i && (a.Length >= 7 ==> i <= a.Length)
      invariant a[..] == P4Upto(s, i - 7)
    {
      TestedIsShort(s, i - 7);
      P4UptoNext(s, i - 7);
      if a[i - 7] == '#' {
        if IsHex(a[i - 6]) && IsHex(a[i - 5]) && IsHex(a[i - 4]) && IsHex(a[i - 3])
           && IsHex(a[i - 2]) && IsHex(a[i - 1]) && !IsHex(a[i]) {
          if a[i - 6] == a[i - 5] && a[i - 4] == a[i - 3] && a[i - 2] != NUL && a[i - 1] != NUL {
            Shorten(a, i - 7);
          }
        }
      }
      i := i + 1;
    }
    P4UptoEnd(s, i - 7);
  }
}
