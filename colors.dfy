/** Phase three of the minifier (`p3`): rewrite `rgb(r,g,b)` as `#rrggbb`. */
module Colors {
  import opened Buffer

  // ---------------------------------------------------------------------
  // `atoi`, read as the C library defines it: leading white space, an
  // optional sign, then decimal digits; anything else ends the number.
  // ---------------------------------------------------------------------

  /** `isspace` in the C locale. */
  predicate IsCSpace(c: char) {
    c == ' ' || c == '\t' || c == '\n' || c == 11 as char || c == 12 as char || c == '\r'
  }

  predicate IsDigit(c: char) {
    '0' <= c <= '9'
  }

  /** The index of the first byte at or after `i` that is not white space. */
  function SkipSpace(s: seq<char>, i: nat): (j: nat)
    requires i <= |s|
    ensures i <= j <= |s|
    ensures forall k :: i <= k < j ==> IsCSpace(s[k])
    ensures j == |s| || !IsCSpace(s[j])
    decreases |s| - i
  {
    if i < |s| && IsCSpace(s[i]) then SkipSpace(s, i + 1) else i
  }

  /** The length of the run of digits starting at `i`. */
  function DigitRun(s: seq<char>, i: nat): (n: nat)
    requires i <= |s|
    ensures i + n <= |s|
    ensures forall k :: i <= k < i + n ==> IsDigit(s[k])
    ensures i + n == |s| || !IsDigit(s[i + n])
    decreases |s| - i
  {
    if i < |s| && IsDigit(s[i]) then 1 + DigitRun(s, i + 1) else 0
  }

  /** The value of the `n` decimal digits from `i` on. */
  function DecValue(s: seq<char>, i: nat, n: nat): nat
    requires i + n <= |s|
    requires forall k :: i <= k < i + n ==> IsDigit(s[k])
  {
    if n == 0 then 0
    else
      assert IsDigit(s[i + n - 1]);
      10 * DecValue(s, i, n - 1) + (s[i + n - 1] as int - '0' as int)
  }

  /** `atoi(buf + i)`.  The value is not bounded: an `int` overflow, which
      the C library leaves undefined, is not modelled. */
  function Atoi(s: seq<char>, i: nat): (v: int)
    requires i <= |s|
    ensures i < |s| && !IsCSpace(s[i]) && !IsDigit(s[i]) && s[i] != '-' && s[i] != '+' ==> v == 0
  {
    var j := SkipSpace(s, i);
    if j < |s| && (s[j] == '-' || s[j] == '+') then
      var n: int := DecValue(s, j + 1, DigitRun(s, j + 1));
      if s[j] == '-' then -n else n
    else DecValue(s, j, DigitRun(s, j))
  }

  /** The decimal rendering of `n`, without leading zeros. */
  function Decimal(n: nat): (d: seq<char>)
    ensures 0 < |d| && forall k :: 0 <= k < |d| ==> IsDigit(d[k])
  {
    var last := ('0' as int + n % 10) as char;
    if n < 10 then [last] else Decimal(n / 10) + [last]
  }

  /** The digits of a rendering read back as the number. */
  lemma {:induction false} DecValueOfDecimal(n: nat, tail: seq<char>)
    ensures forall k :: 0 <= k < |Decimal(n)| ==> IsDigit((Decimal(n) + tail)[k])
    ensures DecValue(Decimal(n) + tail, 0, |Decimal(n)|) == n
  {
    var d := Decimal(n);
    var s := d + tail;
    if n >= 10 {
      var p := Decimal(n / 10);
      DecValueOfDecimal(n / 10, [d[|d| - 1]] + tail);
      assert p + ([d[|d| - 1]] + tail) == s;
    }
  }

  /** `atoi` recovers a number from its rendering, whatever follows it that
      is not a digit. */
  lemma AtoiOfDecimal(n: nat, tail: seq<char>)
    requires |tail| == 0 || !IsDigit(tail[0])
    ensures Atoi(Decimal(n) + tail, 0) == n
  {
    var s := Decimal(n) + tail;
    assert SkipSpace(s, 0) == 0;
    DecValueOfDecimal(n, tail);
    DigitRunTo(s, 0, |Decimal(n)|);
  }

  /** The digit run from `i` ends where the digits end. */
  lemma {:induction false} DigitRunTo(s: seq<char>, i: nat, n: nat)
    requires i <= n <= |s|
    requires forall k :: i <= k < n ==> IsDigit(s[k])
    requires n == |s| || !IsDigit(s[n])
    ensures DigitRun(s, i) == n - i
    decreases n - i
  {
    if i < n {
      DigitRunTo(s, i + 1, n);
    }
  }

  // ---------------------------------------------------------------------
  // `snprintf(buf + k, 3, "%02x", v)`: the first two characters of the
  // lower-case hexadecimal rendering of `v` as an `unsigned int`, padded to
  // two digits.
  // ---------------------------------------------------------------------

  predicate IsLowerHex(c: char) {
    ('0' <= c <= '9') || ('a' <= c <= 'f')
  }

  function HexDigit(d: nat): (c: char)
    requires d < 16
    ensures IsLowerHex(c)
  {
    if d < 10 then ('0' as int + d) as char else ('a' as int + d - 10) as char
  }

  /** The value of a lower-case hexadecimal digit. */
  function HexVal(c: char): (d: nat)
    requires IsLowerHex(c)
    ensures d < 16
  {
    if c <= '9' then c as int - '0' as int else c as int - 'a' as int + 10
  }

  /** The number the two leading hexadecimal digits of `u` make; for `u`
      below 256 that is `u` itself. */
  function Lead(u: nat): (l: nat)
    ensures l < 256
    decreases u
  {
    if u < 256 then u else Lead(u / 16)
  }

  /** What `snprintf(…, 3, "%02x", v)` leaves in the two bytes it may
      fill before its terminating NUL. */
  function Hex2(v: int): (h: seq<char>)
    ensures |h| == 2 && IsLowerHex(h[0]) && IsLowerHex(h[1])
  {
    var l := Lead(v % 0x1_0000_0000);
    [HexDigit(l / 16), HexDigit(l % 16)]
  }

  /** For a value of one byte the two digits read back as the value. */
  lemma Hex2RoundTrip(v: int)
    requires 0 <= v < 256
    ensures 16 * HexVal(Hex2(v)[0]) + HexVal(Hex2(v)[1]) == v
  {
    assert v % 0x1_0000_0000 == v;
  }

  /** Zero is written `00`. */
  lemma Hex2Zero()
    ensures Hex2(0) == "00"
  {
    assert Lead(0) == 0;
  }

  // ---------------------------------------------------------------------
  // The pass.
  // ---------------------------------------------------------------------

  /** `memcmp(buf + i, "rgb(", 4) == 0`, for a match that lies inside the
      buffer; the source reads past the end when `i` is within four bytes
      of it, which is not modelled. */
  predicate RgbAt(s: seq<char>, i: nat) {
    i + 4 <= |s| && s[i] == 'r' && s[i + 1] == 'g' && s[i + 2] == 'b' && s[i + 3] == '('
  }

  /** `while (buf[i] != c) i++`, bounded by the end of the buffer: the first
      index at or after `i` holding `c`, or `|s|` when there is none.  NUL
      does not stop it. */
  function Seek(s: seq<char>, i: nat, c: char): (n: nat)
    requires i <= |s|
    ensures i <= n <= |s|
    ensures forall k :: i <= k < n ==> s[k] != c
    ensures n == |s| || s[n] == c
    decreases |s| - i
  {
    if i == |s| || s[i] == c then i else Seek(s, i + 1, c)
  }

  /** What the source reads of a call `rgb(` at `start`: the index of the
      closing parenthesis and the three numbers. */
  datatype RgbCall = RgbCall(close: nat, red: int, green: int, blue: int)

  /** The three scans of `p3` after a match at `start`.  Red is read after
      `rgb(`; green and blue are read starting AT the comma the scan stops
      on (the second scan does not move, as it starts on that comma), so
      both are 0 (the source's own quirk).  `None` is a missing `,` or `)`,
      where the source scans past the end of the buffer. */
  function ParseRgb(s: seq<char>, start: nat): (r: Option<RgbCall>)
    requires RgbAt(s, start)
    ensures r.Some? ==> start + 5 <= r.value.close < |s| && s[r.value.close] == ')'
    ensures r.Some? ==> r.value.red == Atoi(s, start + 4)
    ensures r.Some? ==> r.value.green == 0 && r.value.blue == 0
    ensures r.Some? ==> r.value.close == Seek(s, Seek(s, start, ','), ')')
    ensures r.None? <==> Seek(s, start, ',') == |s| || Seek(s, Seek(s, start, ','), ')') == |s|
  {
    var red := Atoi(s, start + 4);
    var c1 := Seek(s, start, ',');
    if c1 == |s| then None
    else
      var green := Atoi(s, c1);
      var c2 := Seek(s, c1, ',');
      var blue := Atoi(s, c2);
      var p := Seek(s, c2, ')');
      if p == |s| then None else Some(RgbCall(p, red, green, blue))
  }

  /** `#` and the three two-digit fields. */
  function Color(red: int, green: int, blue: int): (w: seq<char>)
    ensures |w| == 7 && w[0] == '#'
    ensures forall k :: 0 <= k < 7 ==> w[k] != NUL
  {
    ['#'] + Hex2(red) + Hex2(green) + Hex2(blue)
  }

  /** The span `[start, end)` cleared by `memset` and `w` written from
      `start` on; `w` may reach past `end`. */
  function Recolor(s: seq<char>, start: nat, end: nat, w: seq<char>): (r: seq<char>)
    requires start <= end <= |s| && start + |w| <= |s|
    ensures |r| == |s|
    ensures forall k {:trigger r[k]} :: 0 <= k < |s| ==> (r[k] ==
      if start <= k < start + |w| then w[k - start] else if start <= k < end then NUL else s[k])
  {
    seq(|s|, k requires 0 <= k < |s| =>
      if start <= k < start + |w| then w[k - start] else if start <= k < end then NUL else s[k])
  }

  /** The loop of `p3` from `i` on, AS WRITTEN. */
  function P3AsWrittenFrom(s: seq<char>, i: nat): (r: seq<char>)
    ensures |r| == |s|
    decreases |s| - i, 1
  {
    if i >= |s| then s
    else if RgbAt(s, i) then P3AsWrittenCall(s, i)
    else P3AsWrittenFrom(s, i + 1)
  }

  /** A call at `i`, AS WRITTEN: after the span is cleared the source
      writes `#`, three fields, and the terminating NUL of the last
      `snprintf` at `i + 7`, whatever the length of the span.  For spans of
      6 or 7 bytes that NUL, and for 6 bytes the last digit too, land
      beyond the span.  A write past the end of the buffer (undefined in the
      source) stops the model.  After the call the loop resumes two bytes
      past the `)`: `i` is moved onto the byte after it and the loop's own
      increment skips that byte. */
  function P3AsWrittenCall(s: seq<char>, i: nat): (r: seq<char>)
    requires RgbAt(s, i)
    ensures |r| == |s|
    decreases |s| - i, 0
  {
    match ParseRgb(s, i)
    case None => s
    case Some(call) =>
      if i + 8 > |s| then s
      else P3AsWrittenFrom(Recolor(s, i, call.close + 1, Color(call.red, call.green, call.blue) + [NUL]), call.close + 2)
  }

  function P3AsWritten(s: seq<char>): (r: seq<char>)
    ensures |r| == |s|
  {
    P3AsWrittenFrom(s, 0)
  }

  /** The loop of `p3` from `i` on, corrected. */
  function P3From(s: seq<char>, i: nat): (r: seq<char>)
    ensures |r| == |s|
    decreases |s| - i, 1
  {
    if i >= |s| then s
    else if RgbAt(s, i) then P3Call(s, i)
    else P3From(s, i + 1)
  }

  /** A call at `i`, corrected: a span of at least 7 bytes is cleared and
      its first 7 bytes become `#rrggbb`, nothing past the span is written;
      a shorter span, which cannot hold the colour, is left as it is.  The
      loop resumes two bytes past the `)`. */
  function P3Call(s: seq<char>, i: nat): (r: seq<char>)
    requires RgbAt(s, i)
    ensures |r| == |s|
    decreases |s| - i, 0
  {
    match ParseRgb(s, i)
    case None => s
    case Some(call) => P3From(Rewrite(s, i, call), call.close + 2)
  }

  /** The corrected rewrite of one call. */
  function Rewrite(s: seq<char>, i: nat, call: RgbCall): (r: seq<char>)
    requires i < call.close < |s|
    ensures |r| == |s|
  {
    if call.close + 1 - i >= 7 then Recolor(s, i, call.close + 1, Color(call.red, call.green, call.blue)) else s
  }

  function P3(s: seq<char>): (r: seq<char>)
    ensures |r| == |s|
  {
    P3From(s, 0)
  }

  /** Every call the loop of `p3` meets from `i` on, in the buffer as the
      loop finds it, spans at least 8 bytes through its `)`, or ends the
      loop for want of a `,` or `)`. */
  predicate LongCalls(s: seq<char>, i: nat)
    decreases |s| - i
  {
    if i >= |s| then true
    else if !RgbAt(s, i) then LongCalls(s, i + 1)
    else match ParseRgb(s, i)
      case None => true
      case Some(call) => call.close + 1 - i >= 8 && LongCalls(Rewrite(s, i, call), call.close + 2)
  }

  // ---------------------------------------------------------------------
  // One step of the loop each.
  // ---------------------------------------------------------------------

  /** At `i` the loop looks at the next byte. */
  lemma {:induction false} P3FromNext(t: seq<char>, i: nat)
    requires i < |t| && !RgbAt(t, i)
    ensures P3From(t, i) == P3From(t, i + 1)
  {
  }

  /** A call whose `,` or `)` is missing ends the loop. */
  lemma {:induction false} P3CallStop(t: seq<char>, i: nat)
    requires i < |t| && RgbAt(t, i) && ParseRgb(t, i).None?
    ensures P3From(t, i) == t
  {
    assert P3From(t, i) == P3Call(t, i);
  }

  /** One call handled by the loop. */
  lemma {:induction false} P3CallStep(t: seq<char>, i: nat, call: RgbCall, u: seq<char>, next: nat)
    requires i < |t| && RgbAt(t, i) && ParseRgb(t, i) == Some(call)
    requires next == call.close + 2
    requires u == Rewrite(t, i, call)
    ensures P3From(t, i) == P3From(u, next)
  {
    assert P3From(t, i) == P3Call(t, i);
  }

  // ---------------------------------------------------------------------
  // What `p3` does to each call it finds.
  // ---------------------------------------------------------------------

  /** The loop never changes a byte before the index it starts at. */
  lemma {:induction false} P3FromPrefix(t: seq<char>, i: nat)
    ensures forall k :: 0 <= k < i && k < |t| ==> P3From(t, i)[k] == t[k]
    decreases |t| - i
  {
    if i >= |t| {
    } else if !RgbAt(t, i) {
      P3FromNext(t, i);
      P3FromPrefix(t, i + 1);
    } else if ParseRgb(t, i).None? {
      P3CallStop(t, i);
    } else {
      var call := ParseRgb(t, i).value;
      var u := Rewrite(t, i, call);
      P3CallStep(t, i, call, u, call.close + 2);
      P3FromPrefix(u, call.close + 2);
    }
  }

  /** Scanning over bytes where no `rgb(` starts changes nothing. */
  lemma {:induction false} P3Skip(t: seq<char>, i: nat, j: nat)
    requires i <= j <= |t|
    requires forall k :: i <= k < j ==> !RgbAt(t, k)
    ensures P3From(t, i) == P3From(t, j)
    decreases j - i
  {
    if i < j {
      P3FromNext(t, i);
      P3Skip(t, i + 1, j);
    }
  }

  /** With no `rgb(` in the buffer, `p3` changes nothing. */
  lemma P3NoCall(s: seq<char>)
    requires forall k :: 0 <= k < |s| ==> !RgbAt(s, k)
    ensures P3(s) == s
  {
    P3Skip(s, 0, |s|);
  }

  /** A call the loop reaches, of at least 7 bytes up to its `)`: its first
      7 bytes become `#`, the red field and `0000`, the rest of it NUL, and
      nothing before it changes. */
  lemma {:induction false} P3Rewrites(t: seq<char>, i: nat)
    requires RgbAt(t, i) && ParseRgb(t, i).Some?
    requires ParseRgb(t, i).value.close + 1 - i >= 7
    ensures var close := ParseRgb(t, i).value.close;
      && P3From(t, i)[..i] == t[..i]
      && P3From(t, i)[i..i + 7] == ['#'] + Hex2(Atoi(t, i + 4)) + "0000"
      && forall k :: i + 7 <= k <= close ==> P3From(t, i)[k] == NUL
  {
    var call := ParseRgb(t, i).value;
    var u := Rewrite(t, i, call);
    P3CallStep(t, i, call, u, call.close + 2);
    P3FromPrefix(u, call.close + 2);
    Hex2Zero();
    var w := Color(call.red, 0, 0);
    assert w == ['#'] + Hex2(Atoi(t, i + 4)) + "0000";
    assert u[i..i + 7] == w;
  }

  /** A call shorter than 7 bytes up to its `)` is kept as it is. */
  lemma {:induction false} P3KeepsShortCall(t: seq<char>, i: nat)
    requires RgbAt(t, i) && ParseRgb(t, i).Some?
    requires ParseRgb(t, i).value.close + 1 - i < 7
    ensures P3From(t, i)[..ParseRgb(t, i).value.close + 1] == t[..ParseRgb(t, i).value.close + 1]
  {
    var call := ParseRgb(t, i).value;
    P3CallStep(t, i, call, t, call.close + 2);
    P3FromPrefix(t, call.close + 2);
  }

  /** The first call in the buffer, of at least 7 bytes, becomes `#`, the
      red value in two digits, and `0000`; nothing before it changes. */
  lemma P3FirstCall(s: seq<char>, i: nat)
    requires forall k :: 0 <= k < i ==> !RgbAt(s, k)
    requires RgbAt(s, i) && ParseRgb(s, i).Some?
    requires ParseRgb(s, i).value.close + 1 - i >= 7
    ensures P3(s)[..i] == s[..i]
    ensures P3(s)[i..i + 7] == ['#'] + Hex2(Atoi(s, i + 4)) + "0000"
  {
    P3Skip(s, 0, i);
    P3Rewrites(s, i);
  }

  /** `LongCalls` past a byte where no call starts. */
  lemma LongCallsNext(t: seq<char>, i: nat)
    requires i < |t| && !RgbAt(t, i) && LongCalls(t, i)
    ensures LongCalls(t, i + 1)
  {
  }

  /** `LongCalls` past a call. */
  lemma LongCallsCall(t: seq<char>, i: nat, call: RgbCall, u: seq<char>)
    requires i < |t| && RgbAt(t, i) && ParseRgb(t, i) == Some(call) && LongCalls(t, i)
    requires u == Rewrite(t, i, call)
    ensures call.close + 1 - i >= 8 && LongCalls(u, call.close + 2)
  {
  }

  /** A NUL written inside the cleared span changes nothing. */
  lemma RecolorNulInside(s: seq<char>, start: nat, end: nat, w: seq<char>)
    requires start + |w| < end <= |s|
    ensures Recolor(s, start, end, w + [NUL]) == Recolor(s, start, end, w)
  {
    var a, b := Recolor(s, start, end, w + [NUL]), Recolor(s, start, end, w);
    assert forall k :: 0 <= k < |s| ==> a[k] == b[k];
  }

  /** A call of at least 8 bytes handled by the loop as written. */
  lemma AsWrittenCallStep(t: seq<char>, i: nat, call: RgbCall, u: seq<char>)
    requires i < |t| && RgbAt(t, i) && ParseRgb(t, i) == Some(call)
    requires call.close + 1 - i >= 8
    requires u == Rewrite(t, i, call)
    ensures P3AsWrittenFrom(t, i) == P3AsWrittenFrom(u, call.close + 2)
  {
    var w := Color(call.red, call.green, call.blue);
    RecolorNulInside(t, i, call.close + 1, w);
    assert P3AsWrittenFrom(t, i) == P3AsWrittenCall(t, i);
  }

  /** Where every call the loop meets spans at least 8 bytes, the NUL the
      source writes at `start + 7` lands inside the cleared span, and `p3`
      as written is the corrected pass. */
  lemma {:induction false} P3AsWrittenAgrees(t: seq<char>, i: nat)
    requires LongCalls(t, i)
    ensures P3AsWrittenFrom(t, i) == P3From(t, i)
    decreases |t| - i, 1
  {
    if i >= |t| {
    } else if !RgbAt(t, i) {
      LongCallsNext(t, i);
      P3FromNext(t, i);
      P3AsWrittenAgrees(t, i + 1);
    } else if ParseRgb(t, i).None? {
      P3CallStop(t, i);
      assert P3AsWrittenFrom(t, i) == P3AsWrittenCall(t, i);
    } else {
      AgreesAtCall(t, i, ParseRgb(t, i).value);
    }
  }

  /** The same, at a call the loop meets. */
  lemma {:induction false} AgreesAtCall(t: seq<char>, i: nat, call: RgbCall)
    requires i < |t| && RgbAt(t, i) && ParseRgb(t, i) == Some(call) && LongCalls(t, i)
    ensures P3AsWrittenFrom(t, i) == P3From(t, i)
    decreases |t| - i, 0
  {
    var u := Rewrite(t, i, call);
    LongCallsCall(t, i, call, u);
    AsWrittenCallStep(t, i, call, u);
    P3CallStep(t, i, call, u, call.close + 2);
    P3AsWrittenAgrees(u, call.close + 2);
  }

  /** The whole pass: on such a buffer `p3` as written leaves what the
      corrected `p3` leaves. */
  lemma P3AsWrittenIsP3(s: seq<char>)
    requires LongCalls(s, 0)
    ensures P3AsWritten(s) == P3(s)
  {
    P3AsWrittenAgrees(s, 0);
  }

  lemma CompactedBefore(s: seq<char>, k: nat, p: nat)
    requires IsCompacted(s) && k < p < |s| && s[p] != NUL
    ensures s[k] != NUL
  {
  }

  /** On a compacted buffer a call lies among live bytes, and the
      corrected rewrite writes live bytes only inside it. */
  lemma {:induction false} RewriteNoResurrect(s: seq<char>, t: seq<char>, i: nat)
    requires IsCompacted(s) && NoResurrect(s, t)
    requires forall k :: i <= k < |s| ==> t[k] == s[k]
    requires i < |t| && RgbAt(t, i) && ParseRgb(t, i).Some?
    ensures NoResurrect(s, Rewrite(t, i, ParseRgb(t, i).value))
  {
    var call := ParseRgb(t, i).value;
    var u := Rewrite(t, i, call);
    assert s[call.close] != NUL;
    forall k | 0 <= k < |s| && u[k] != NUL
      ensures s[k] != NUL
    {
      if i <= k < i + 7 && call.close + 1 - i >= 7 {
        if k < call.close {
          CompactedBefore(s, k, call.close);
        }
      } else {
        assert u[k] == t[k];
      }
    }
  }

  lemma {:induction false} P3FromNoResurrect(s: seq<char>, t: seq<char>, i: nat)
    requires IsCompacted(s) && NoResurrect(s, t)
    requires forall k :: i <= k < |s| ==> t[k] == s[k]
    ensures NoResurrect(s, P3From(t, i))
    decreases |s| - i, 1
  {
    if i >= |s| {
    } else if !RgbAt(t, i) {
      P3FromNext(t, i);
      P3FromNoResurrect(s, t, i + 1);
    } else if ParseRgb(t, i).None? {
      P3CallStop(t, i);
    } else {
      P3CallNoResurrect(s, t, i);
    }
  }

  lemma {:induction false} P3CallNoResurrect(s: seq<char>, t: seq<char>, i: nat)
    requires IsCompacted(s) && NoResurrect(s, t)
    requires forall k :: i <= k < |s| ==> t[k] == s[k]
    requires i < |t| && RgbAt(t, i) && ParseRgb(t, i).Some?
    ensures NoResurrect(s, P3From(t, i))
    decreases |s| - i, 0
  {
    var call := ParseRgb(t, i).value;
    var u := Rewrite(t, i, call);
    P3CallStep(t, i, call, u, call.close + 2);
    RewriteNoResurrect(s, t, i);
    P3FromNoResurrect(s, u, call.close + 2);
  }

  /** On a compacted buffer `p3` brings no deleted byte back, so it never
      increases the live count. */
  lemma P3Live(s: seq<char>)
    requires IsCompacted(s)
    ensures NoResurrect(s, P3(s))
    ensures Live(P3(s)) <= Live(s)
  {
    P3FromNoResurrect(s, s, 0);
    NoResurrectLive(s, P3(s));
  }

  /** As written, `p3` turns the 6-byte call `rgb(,)`, followed by four
      deleted bytes, into `#000000` and a NUL: its last `0` lands on the
      first deleted byte after the span. */
  lemma P3AsWrittenShortCall()
    ensures P3AsWritten("rgb(,)" + Nuls(4)) == "#000000" + Nuls(3)
  {
    var s := "rgb(,)" + Nuls(4);
    assert RgbAt(s, 0);
    assert Seek(s, 4, ',') == 4;
    assert Seek(s, 3, ',') == 4;
    assert Seek(s, 2, ',') == 4;
    assert Seek(s, 1, ',') == 4;
    assert Seek(s, 0, ',') == 4;
    assert Seek(s, 5, ')') == 5;
    assert Seek(s, 4, ')') == 5;
    assert Atoi(s, 4) == 0;
    assert ParseRgb(s, 0) == Some(RgbCall(5, 0, 0, 0));
    Hex2Zero();
    var u := Recolor(s, 0, 6, Color(0, 0, 0) + [NUL]);
    assert u == "#000000" + Nuls(3);
    assert P3AsWrittenFrom(u, 10) == u;
    assert P3AsWrittenFrom(u, 9) == u;
    assert P3AsWrittenFrom(u, 8) == u;
    assert P3AsWrittenFrom(u, 7) == u;
    assert P3AsWrittenCall(s, 0) == u;
  }

  /** So, as written, `p3` can increase the live count of a compacted
      buffer, from 6 to 7. */
  lemma P3AsWrittenGrows()
    ensures var s := "rgb(,)" + Nuls(4);
      IsCompacted(s) && Live(s) == 6 && Live(P3AsWritten(s)) == 7
  {
    P3AsWrittenShortCall();
    SurvivorsAppend("rgb(,)", Nuls(4));
    SurvivorsAppend("#000000", Nuls(3));
    SurvivorsOfLive("rgb(,)");
    SurvivorsOfLive("#000000");
    SurvivorsNuls(4);
    SurvivorsNuls(3);
  }

  // ---------------------------------------------------------------------
  // The method.
  // ---------------------------------------------------------------------

  /** `while (buf[i] != c) i++`, stopping at the end of the buffer. */
  method SeekFrom(a: array<char>, i: nat, c: char) returns (n: nat)
    requires i <= a.Length
    ensures n == Seek(a[..], i, c)
  {
    n := i;
    while n < a.Length && a[n] != c
      invariant i <= n <= a.Length
      invariant Seek(a[..], i, c) == Seek(a[..], n, c)
      decreases a.Length - n
    {
      n := n + 1;
    }
  }

  /** `memset` over the span, then `#` and the three `snprintf` calls, the
      NUL each of them writes being overwritten by the next field. */
  method WriteColor(a: array<char>, start: nat, end: nat, red: int, green: int, blue: int)
    requires start + 7 <= end <= a.Length
    modifies a
    ensures a[..] == Recolor(old(a[..]), start, end, Color(red, green, blue))
  {
    Memset(a, start, end - start);
    var h0, h1, h2 := Hex2(red), Hex2(green), Hex2(blue);
    a[start] := '#';
    a[start + 1], a[start + 2] := h0[0], h0[1];
    a[start + 3], a[start + 4] := h1[0], h1[1];
    a[start + 5], a[start + 6] := h2[0], h2[1];
    var w := Color(red, green, blue);
    assert forall k :: 0 <= k < 7 ==> a[start + k] == w[k];
  }

  /** The scans of the method find what `ParseRgb` finds. */
  lemma {:induction false} ParseRgbSome(t: seq<char>, start: nat, c1: nat, c2: nat, call: RgbCall)
    requires RgbAt(t, start)
    requires c1 == Seek(t, start, ',') && c1 < |t|
    requires c2 == Seek(t, c1, ',') && call.close == Seek(t, c2, ')') && call.close < |t|
    requires call.red == Atoi(t, start + 4) && call.green == Atoi(t, c1) && call.blue == Atoi(t, c2)
    ensures ParseRgb(t, start) == Some(call)
  {
  }

  lemma {:induction false} ParseRgbNone(t: seq<char>, start: nat, c1: nat, p: nat)
    requires RgbAt(t, start)
    requires c1 == Seek(t, start, ',')
    requires c1 == |t| || (p == Seek(t, Seek(t, c1, ','), ')') && p == |t|)
    ensures ParseRgb(t, start).None?
  {
  }

  /** The body of the `memcmp` branch of `p3` for a call at `start`: the
      three scans, then the rewrite.  `stop` is a missing `,` or `)`;
      otherwise `next` is where the loop goes on. */
  method RecolorCall(a: array<char>, start: nat) returns (stop: bool, next: nat)
    requires RgbAt(a[..], start)
    modifies a
    ensures stop <==> ParseRgb(old(a[..]), start).None?
    ensures stop ==> a[..] == old(a[..])
    ensures !stop ==> next == ParseRgb(old(a[..]), start).value.close + 2
    ensures !stop ==> a[..] == Rewrite(old(a[..]), start, ParseRgb(old(a[..]), start).value)
    ensures stop ==> P3From(old(a[..]), start) == a[..]
    ensures !stop ==> P3From(old(a[..]), start) == P3From(a[..], next)
  {
    ghost var t := a[..];
    var red := Atoi(a[..], start + 4);
    var i := SeekFrom(a, start, ',');
    ghost var c1 := i;
    if i == a.Length {
      ParseRgbNone(t, start, c1, c1);
      P3CallStop(t, start);
      return true, 0;
    }
    var green := Atoi(a[..], i);
    i := SeekFrom(a, i, ',');
    ghost var c2 := i;
    var blue := Atoi(a[..], i);
    i := SeekFrom(a, i, ')');
    if i == a.Length {
      ParseRgbNone(t, start, c1, i);
      P3CallStop(t, start);
      return true, 0;
    }
    ghost var call := RgbCall(i, red, green, blue);
    ParseRgbSome(t, start, c1, c2, call);
    i := i + 1;
    if i - start >= 7 {
      WriteColor(a, start, i, red, green, blue);
    }
    stop, next := false, i + 1;
    P3CallStep(t, start, call, a[..], next);
  }

  /** `p3`, with the span-length check of the corrected definition.  The
      source moves `i` onto the byte after the `)` and the loop's own
      increment moves it once more; `next` is that index. */
  method RunP3(a: array<char>)
    modifies a
    ensures a[..] == P3(old(a[..]))
  {
    ghost var s := a[..];
    var i := 0;
    while i < a.Length
      invariant P3From(a[..], i) == P3(s)
      decreases a.Length - i
    {
      ghost var t := a[..];
      if i + 4 <= a.Length && a[i] == 'r' && a[i + 1] == 'g' && a[i + 2] == 'b' && a[i + 3] == '(' {
        assert RgbAt(t, i);
        var stop, next := RecolorCall(a, i);
        if stop {
          break;
        }
        i := next;
      } else {
        assert !RgbAt(t, i);
        P3FromNext(t, i);
        i := i + 1;
      }
    }
  }
}
