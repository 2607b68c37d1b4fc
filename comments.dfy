// Phase one of the minifier (`p1`): strip comments.
module Comments {
  import opened Buffer

  // True when the two bytes at `i` are `/` `*`.
  predicate OpensAt(s: seq<char>, i: nat) {
    i + 1 < |s| && s[i] == '/' && s[i + 1] == '*'
  }

  // True when the two bytes at `i` are `*` `/`.
  predicate ClosesAt(s: seq<char>, i: nat) {
    i + 1 < |s| && s[i] == '*' && s[i + 1] == '/'
  }

  // The loop of `p1` from index `i` on, with the `in_comment` flag it
  // carries.  The loop stops before the last byte (`i < bufsz - 1`), so the
  // last byte is only ever deleted as the `/` of a closing `*/`.  Only the
  // `/` of an opener is deleted when the opener is met; its `*` is looked at
  // next, so `/*/` opens and closes at once.
  function P1From(s: seq<char>, i: nat, inComment: bool): (r: seq<char>)
    requires i <= |s|
    ensures |r| == |s|
    decreases |s| - i
  {
    if i + 1 >= |s| then s
    else if s[i] == '/' && s[i + 1] == '*' then P1From(s[i := NUL], i + 1, true)
    else if s[i] == '*' && s[i + 1] == '/' then P1From(s[i := NUL][i + 1 := NUL], i + 1, false)
    else P1From(if inComment then s[i := NUL] else s, i + 1, inComment)
  }

  // What `p1` leaves in the buffer.
  function P1(s: seq<char>): (r: seq<char>)
    ensures |r| == |s|
  {
    P1From(s, 0, false)
  }

  // The first `*/` starting at or after `j`.
  function FindClose(s: seq<char>, j: nat): (r: Option<nat>)
    requires j <= |s|
    ensures r.Some? ==> j <= r.value && ClosesAt(s, r.value)
    ensures r.Some? ==> forall k :: j <= k < r.value ==> !ClosesAt(s, k)
    ensures r.None? ==> forall k :: j <= k < |s| ==> !ClosesAt(s, k)
    decreases |s| - j
  {
    if j + 1 >= |s| then None
    else if ClosesAt(s, j) then Some(j)
    else FindClose(s, j + 1)
  }

  // Reference definition of `p1` in terms of comment spans, scanning from
  // `i` outside any comment: an opener `/*` and everything through the next
  // `*/` (searched from the opener's `*` on) is deleted; an opener without a
  // closer deletes everything up to the byte before the last; a stray `*/`
  // outside a comment is deleted too.
  function P1Ref(s: seq<char>, i: nat): (r: seq<char>)
    requires i <= |s|
    ensures |r| == |s|
    decreases |s| - i
  {
    if i + 1 >= |s| then s
    else if OpensAt(s, i) then
      match FindClose(s, i + 1)
      case Some(c) => P1Ref(Fill(s, i, c + 2 - i), c + 2)
      case None => Fill(s, i, |s| - 1 - i)
    else if ClosesAt(s, i) then P1Ref(Fill(s, i, 2), i + 2)
    else P1Ref(s, i + 1)
  }

  // `FindClose` only looks at the bytes from `j` on.
  lemma {:induction false} FindCloseFrame(s: seq<char>, t: seq<char>, j: nat)
    requires j <= |s| == |t|
    requires forall k :: j <= k < |s| ==> s[k] == t[k]
    ensures FindClose(s, j) == FindClose(t, j)
    decreases |s| - j
  {
    if j + 1 < |s| {
      FindCloseFrame(s, t, j + 1);
    }
  }

  // After the closing `*/` is deleted, the loop steps over its NUL `/`.
  lemma StepOverClosed(x: seq<char>, c: nat)
    requires c + 2 <= |x| && x[c + 1] == NUL
    ensures P1From(x, c + 1, false) == P1From(x, c + 2, false)
  {
  }

  // Inside a comment whose closer starts at `c`, the loop deletes
  // everything from `i` through the closer and leaves the comment.
  lemma {:induction false} InsideClosed(t: seq<char>, i: nat, c: nat)
    requires i <= |t| && FindClose(t, i) == Some(c)
    ensures P1From(t, i, true) == P1From(Fill(t, i, c + 2 - i), c + 2, false)
    decreases c - i
  {
    if i == c {
      var x := t[c := NUL][c + 1 := NUL];
      FillPair(t, c);
      StepOverClosed(x, c);
    } else {
      assert !ClosesAt(t, i);
      var t' := t[i := NUL];
      FindCloseFrame(t, t', i + 1);
      InsideClosed(t', i + 1, c);
      FillStep(t, i, c + 1 - i);
    }
  }

  // Inside a comment that is never closed, the loop deletes everything
  // from `i` up to the byte before the last.
  lemma {:induction false} InsideUnclosed(t: seq<char>, i: nat)
    requires i < |t| && FindClose(t, i) == None
    ensures P1From(t, i, true) == Fill(t, i, |t| - 1 - i)
    decreases |t| - i
  {
    if i + 1 >= |t| {
      assert Fill(t, i, 0) == t;
    } else {
      assert !ClosesAt(t, i);
      var t' := t[i := NUL];
      FindCloseFrame(t, t', i + 1);
      InsideUnclosed(t', i + 1);
      FillStep(t, i, |t| - 2 - i);
    }
  }

  // Meeting an opener outside a comment whose closer starts at `c`.
  lemma OpenClosed(s: seq<char>, i: nat, c: nat)
    requires OpensAt(s, i) && FindClose(s, i + 1) == Some(c)
    ensures P1From(s, i, false) == P1From(Fill(s, i, c + 2 - i), c + 2, false)
  {
    var t := s[i := NUL];
    FindCloseFrame(s, t, i + 1);
    InsideClosed(t, i + 1, c);
    FillStep(s, i, c + 1 - i);
  }

  // Meeting an opener outside a comment that is never closed.
  lemma OpenUnclosed(s: seq<char>, i: nat)
    requires OpensAt(s, i) && FindClose(s, i + 1) == None
    ensures P1From(s, i, false) == Fill(s, i, |s| - 1 - i)
  {
    var t := s[i := NUL];
    FindCloseFrame(s, t, i + 1);
    InsideUnclosed(t, i + 1);
    FillStep(s, i, |s| - 2 - i);
  }

  lemma {:induction false} P1FromRef(s: seq<char>, i: nat)
    requires i <= |s|
    ensures P1From(s, i, false) == P1Ref(s, i)
    decreases |s| - i
  {
    if i + 1 >= |s| {
    } else if OpensAt(s, i) {
      match FindClose(s, i + 1)
      case Some(c) => {
        OpenClosed(s, i, c);
        P1FromRef(Fill(s, i, c + 2 - i), c + 2);
      }
      case None => {
        OpenUnclosed(s, i);
      }
    } else if ClosesAt(s, i) {
      var x := s[i := NUL][i + 1 := NUL];
      FillPair(s, i);
      StepOverClosed(x, i);
      P1FromRef(x, i + 2);
    } else {
      P1FromRef(s, i + 1);
    }
  }

  // The loop and the comment-span reference definition agree on every input.
  lemma P1IsRef(s: seq<char>)
    ensures P1(s) == P1Ref(s, 0)
  {
    P1FromRef(s, 0);
  }

  // `p1` only deletes.
  lemma {:induction false} P1FromOnlyDeletes(s: seq<char>, i: nat, inComment: bool)
    requires i <= |s|
    ensures OnlyDeletes(s, P1From(s, i, inComment))
    decreases |s| - i
  {
    if i + 1 >= |s| {
    } else if s[i] == '/' && s[i + 1] == '*' {
      P1FromOnlyDeletes(s[i := NUL], i + 1, true);
    } else if s[i] == '*' && s[i + 1] == '/' {
      P1FromOnlyDeletes(s[i := NUL][i + 1 := NUL], i + 1, false);
    } else {
      P1FromOnlyDeletes(if inComment then s[i := NUL] else s, i + 1, inComment);
    }
  }

  lemma P1OnlyDeletes(s: seq<char>)
    ensures OnlyDeletes(s, P1(s))
  {
    P1FromOnlyDeletes(s, 0, false);
  }

  // No opener and no closer lies wholly inside `s`.
  predicate Quiet(s: seq<char>) {
    forall k :: 0 <= k < |s| ==> !OpensAt(s, k) && !ClosesAt(s, k)
  }

  // No closer lies wholly inside `s`.
  predicate Unclosed(s: seq<char>) {
    forall k :: 0 <= k < |s| ==> !ClosesAt(s, k)
  }

  // With no opener or closer from `i` to `j`, the scan just walks on.
  lemma {:induction false} RefSkip(s: seq<char>, i: nat, j: nat)
    requires i <= j <= |s|
    requires forall k :: i <= k < j ==> !OpensAt(s, k) && !ClosesAt(s, k)
    ensures P1Ref(s, i) == P1Ref(s, j)
    decreases j - i
  {
    if i < j {
      if i + 1 >= |s| {
        assert j == |s|;
      } else {
        RefSkip(s, i + 1, j);
      }
    }
  }

  // `FindClose` on a buffer with a prefix in front.
  lemma {:induction false} FindCloseShift(x: seq<char>, y: seq<char>, j: nat)
    requires j <= |y|
    ensures FindClose(x + y, |x| + j) ==
      match FindClose(y, j) case Some(c) => Some(|x| + c) case None => None
    decreases |y| - j
  {
    if j + 1 < |y| {
      assert ClosesAt(x + y, |x| + j) == ClosesAt(y, j);
      FindCloseShift(x, y, j + 1);
    }
  }

  // One step of the reference scan, case by case.
  lemma RefOpenClosed(s: seq<char>, i: nat, c: nat)
    requires OpensAt(s, i) && FindClose(s, i + 1) == Some(c)
    ensures P1Ref(s, i) == P1Ref(Fill(s, i, c + 2 - i), c + 2)
  {
  }

  lemma RefOpenUnclosed(s: seq<char>, i: nat)
    requires OpensAt(s, i) && FindClose(s, i + 1) == None
    ensures P1Ref(s, i) == Fill(s, i, |s| - 1 - i)
  {
  }

  lemma RefCloser(s: seq<char>, i: nat)
    requires !OpensAt(s, i) && ClosesAt(s, i)
    ensures P1Ref(s, i) == P1Ref(Fill(s, i, 2), i + 2)
  {
  }

  lemma RefOther(s: seq<char>, i: nat)
    requires i + 1 < |s| && !OpensAt(s, i) && !ClosesAt(s, i)
    ensures P1Ref(s, i) == P1Ref(s, i + 1)
  {
  }

  // The scan from inside `y` never touches a prefix `x` in front of it.
  lemma {:induction false} RefShift(x: seq<char>, y: seq<char>, j: nat)
    requires j <= |y|
    ensures P1Ref(x + y, |x| + j) == x + P1Ref(y, j)
    decreases |y| - j, 2
  {
    var s := x + y;
    var i := |x| + j;
    if j + 1 >= |y| {
    } else if OpensAt(y, j) {
      RefShiftOpen(x, y, j);
    } else if ClosesAt(y, j) {
      RefShiftCloser(x, y, j);
    } else {
      assert !OpensAt(s, i) && !ClosesAt(s, i);
      RefOther(y, j);
      RefOther(s, i);
      RefShift(x, y, j + 1);
    }
  }

  lemma {:induction false} RefShiftOpen(x: seq<char>, y: seq<char>, j: nat)
    requires OpensAt(y, j)
    ensures P1Ref(x + y, |x| + j) == x + P1Ref(y, j)
    decreases |y| - j, 1
  {
    FindCloseShift(x, y, j + 1);
    match FindClose(y, j + 1)
    case Some(c) => {
      RefShiftOpenClosed(x, y, j, c);
    }
    case None => {
      RefShiftOpenUnclosed(x, y, j);
    }
  }

  lemma {:induction false} RefShiftOpenClosed(x: seq<char>, y: seq<char>, j: nat, c: nat)
    requires OpensAt(y, j) && FindClose(y, j + 1) == Some(c)
    requires FindClose(x + y, |x| + j + 1) == Some(|x| + c)
    ensures P1Ref(x + y, |x| + j) == x + P1Ref(y, j)
    decreases |y| - j, 0
  {
    var s := x + y;
    var i := |x| + j;
    assert OpensAt(s, i);
    RefOpenClosed(y, j, c);
    RefOpenClosed(s, i, |x| + c);
    FillShift(x, y, j, c + 2 - j);
    RefShift(x, Fill(y, j, c + 2 - j), c + 2);
  }

  lemma RefShiftOpenUnclosed(x: seq<char>, y: seq<char>, j: nat)
    requires OpensAt(y, j) && FindClose(y, j + 1) == None
    requires FindClose(x + y, |x| + j + 1) == None
    ensures P1Ref(x + y, |x| + j) == x + P1Ref(y, j)
  {
    var s := x + y;
    var i := |x| + j;
    assert OpensAt(s, i);
    RefOpenUnclosed(y, j);
    RefOpenUnclosed(s, i);
    FillShift(x, y, j, |y| - 1 - j);
  }

  lemma {:induction false} RefShiftCloser(x: seq<char>, y: seq<char>, j: nat)
    requires !OpensAt(y, j) && ClosesAt(y, j)
    ensures P1Ref(x + y, |x| + j) == x + P1Ref(y, j)
    decreases |y| - j, 0
  {
    var s := x + y;
    var i := |x| + j;
    assert !OpensAt(s, i) && ClosesAt(s, i);
    RefCloser(y, j);
    RefCloser(s, i);
    FillShift(x, y, j, 2);
    RefShift(x, Fill(y, j, 2), j + 2);
  }

  // The reference scan never changes a byte before the index it starts at.
  lemma {:induction false} RefKeepsBefore(s: seq<char>, i: nat)
    requires i <= |s|
    ensures forall m :: 0 <= m < i ==> P1Ref(s, i)[m] == s[m]
    decreases |s| - i
  {
    if i + 1 >= |s| {
    } else if OpensAt(s, i) {
      match FindClose(s, i + 1)
      case Some(c) => {
        RefKeepsBefore(Fill(s, i, c + 2 - i), c + 2);
      }
      case None => {
      }
    } else if ClosesAt(s, i) {
      RefKeepsBefore(Fill(s, i, 2), i + 2);
    } else {
      RefKeepsBefore(s, i + 1);
    }
  }

  // The first opener or closer the reference scan meets is deleted.
  lemma RefDeletesMarker(s: seq<char>, k: nat)
    requires k < |s| && (OpensAt(s, k) || ClosesAt(s, k))
    ensures P1Ref(s, k)[k] == NUL
  {
    if OpensAt(s, k) {
      match FindClose(s, k + 1)
      case Some(c) => {
        RefKeepsBefore(Fill(s, k, c + 2 - k), c + 2);
      }
      case None => {
      }
    } else {
      RefKeepsBefore(Fill(s, k, 2), k + 2);
    }
  }

  // A buffer with an opener or a closer at or after `i` is changed by the
  // reference scan from `i`.
  lemma {:induction false} RefChanges(s: seq<char>, i: nat, k: nat)
    requires i <= k < |s| && (OpensAt(s, k) || ClosesAt(s, k))
    ensures P1Ref(s, i) != s
    decreases k - i
  {
    if OpensAt(s, i) || ClosesAt(s, i) {
      RefDeletesMarker(s, i);
    } else {
      RefChanges(s, i + 1, k);
    }
  }

  // `p1` leaves a buffer unchanged exactly when it holds no opener and no
  // closer.
  lemma P1Unchanged(s: seq<char>)
    ensures P1(s) == s <==> Quiet(s)
  {
    P1IsRef(s);
    if Quiet(s) {
      RefSkip(s, 0, |s|);
    } else {
      var k :| 0 <= k < |s| && (OpensAt(s, k) || ClosesAt(s, k));
      RefChanges(s, 0, k);
    }
  }

  // The closer of a comment whose body, read from the opener's `*`, holds
  // no closer is the one after the body.
  lemma FindCloseAfterBody(body: seq<char>, post: seq<char>)
    requires Unclosed("*" + body)
    ensures FindClose("/*" + body + "*/" + post, 1) == Some(|body| + 2)
  {
    var y := "/*" + body + "*/" + post;
    var b := "*" + body;
    var c := |body| + 2;
    assert ClosesAt(y, c);
    forall k | 1 <= k < c
      ensures !ClosesAt(y, k)
    {
      assert y[k] == b[k - 1];
      if k + 1 < c {
        assert y[k + 1] == b[k];
        assert !ClosesAt(b, k - 1);
      }
    }
  }

  // A buffer that starts with a comment.
  lemma RefLeadingComment(body: seq<char>, post: seq<char>)
    requires Unclosed("*" + body)
    ensures P1Ref("/*" + body + "*/" + post, 0) == Nuls(|body| + 4) + P1Ref(post, 0)
  {
    var y := "/*" + body + "*/" + post;
    var c := |body| + 2;
    FindCloseAfterBody(body, post);
    assert OpensAt(y, 0);
    RefOpenClosed(y, 0, c);
    var x := Nuls(|body| + 4);
    assert Fill(y, 0, c + 2) == x + post;
    RefShift(x, post, 0);
  }

  // The last byte of `pre` and the first byte of `y` make no opener or
  // closer.
  predicate Seam(pre: seq<char>, y: seq<char>) {
    |pre| > 0 && |y| > 0 ==>
      !(pre[|pre| - 1] == '/' && y[0] == '*') && !(pre[|pre| - 1] == '*' && y[0] == '/')
  }

  // No opener or closer of `pre + y` starts inside a quiet `pre`.
  lemma QuietAt(pre: seq<char>, y: seq<char>, k: nat)
    requires Quiet(pre) && Seam(pre, y) && k < |pre|
    ensures !OpensAt(pre + y, k) && !ClosesAt(pre + y, k)
  {
    var s := pre + y;
    assert s[k] == pre[k];
    if k + 1 < |pre| {
      assert s[k + 1] == pre[k + 1];
      assert !OpensAt(pre, k) && !ClosesAt(pre, k);
    } else if k + 1 < |s| {
      assert s[k + 1] == y[0];
    }
  }

  // A quiet prefix that makes no opener or closer with what follows is
  // kept, and the scan behind it is the scan of the rest.
  lemma RefQuietPrefix(pre: seq<char>, y: seq<char>)
    requires Quiet(pre) && Seam(pre, y)
    ensures P1Ref(pre + y, 0) == pre + P1Ref(y, 0)
  {
    forall k | 0 <= k < |pre|
      ensures !OpensAt(pre + y, k) && !ClosesAt(pre + y, k)
    {
      QuietAt(pre, y, k);
    }
    RefSkip(pre + y, 0, |pre|);
    RefShift(pre, y, 0);
  }

  // A terminated comment is deleted from its `/*` through its `*/`
  // inclusive, the text before it is untouched, and the scan goes on behind
  // it as on a buffer of its own.  The text before it holds no opener or
  // closer and does not end in `*`; the body, read from the opener's `*`,
  // holds no closer, so the `*/` after it is the first one.
  lemma P1Comment(pre: seq<char>, body: seq<char>, post: seq<char>)
    requires Quiet(pre) && (|pre| > 0 ==> pre[|pre| - 1] != '*')
    requires Unclosed("*" + body)
    ensures P1(pre + "/*" + body + "*/" + post) == pre + Nuls(|body| + 4) + P1(post)
  {
    var y := "/*" + body + "*/" + post;
    assert pre + "/*" + body + "*/" + post == pre + y;
    P1IsRef(pre + y);
    P1IsRef(post);
    RefQuietPrefix(pre, y);
    RefLeadingComment(body, post);
  }

  // A comment that is never closed is deleted up to the byte before the
  // last; the last byte (the padding byte, in the program) stays.  The text
  // before it is as for `P1Comment`, and from the opener's `*` to the end
  // there is no closer.
  lemma P1Unterminated(pre: seq<char>, body: seq<char>, z: char)
    requires Quiet(pre) && (|pre| > 0 ==> pre[|pre| - 1] != '*')
    requires Unclosed("*" + body + [z])
    ensures P1(pre + "/*" + body + [z]) == pre + Nuls(|body| + 2) + [z]
  {
    var s := pre + "/*" + body + [z];
    var y := "/*" + body + [z];
    var b := "*" + body + [z];
    var a := |pre|;
    assert s == pre + y;
    P1IsRef(s);
    RefQuietPrefix(pre, y);
    assert OpensAt(y, 0);
    forall k | 1 <= k < |y|
      ensures !ClosesAt(y, k)
    {
      assert y[k] == b[k - 1];
      if k + 1 < |y| {
        assert y[k + 1] == b[k];
        assert !ClosesAt(b, k - 1);
      }
    }
    assert FindClose(y, 1) == None;
    assert P1Ref(y, 0) == Fill(y, 0, |y| - 1);
    assert Fill(y, 0, |y| - 1) == Nuls(|body| + 2) + [z];
  }

  // A `*/` met outside any comment is deleted as well.  The text before it
  // holds no opener or closer and does not end in `/`.
  lemma P1StrayCloser(pre: seq<char>, post: seq<char>)
    requires Quiet(pre) && (|pre| > 0 ==> pre[|pre| - 1] != '/')
    ensures P1(pre + "*/" + post) == pre + Nuls(2) + P1(post)
  {
    var y := "*/" + post;
    assert pre + "*/" + post == pre + y;
    P1IsRef(pre + y);
    RefQuietPrefix(pre, y);
    assert !OpensAt(y, 0) && ClosesAt(y, 0);
    assert Fill(y, 0, 2) == Nuls(2) + post;
    RefShift(Nuls(2), post, 0);
    P1IsRef(post);
  }

  // `p1`.  The loop bound `bufsz - 1` would wrap for an empty buffer; here
  // the loop simply does not run then.
  method RunP1(a: array<char>)
    modifies a
    ensures a[..] == P1(old(a[..]))
  {
    ghost var s := a[..];
    var inComment := false;
    var i := 0;
    while i + 1 < a.Length
      invariant i <= a.Length
      invariant P1From(a[..], i, inComment) == P1(s)
    {
      if a[i] == '/' && a[i + 1] == '*' {
        inComment := true;
        Elide(a, i);
      } else if a[i] == '*' && a[i + 1] == '/' {
        inComment := false;
        Elide(a, i);
        Elide(a, i + 1);
      } else {
        if inComment {
          Elide(a, i);
        }
      }
      i := i + 1;
    }
  }
}
