# turbougly in Dafny

turbougly is a CSS minifier. It reads a stylesheet into a buffer with one
extra byte, a trailing NUL, and runs eight phases over it in place. A phase
deletes a byte by writing NUL over it. After each phase, `shuffle` moves the
surviving bytes to the front and NUL-fills the tail. The result is what
precedes the first NUL.

The eight phases are:
- p0: tabs, newlines and runs of spaces;
- p1: comments;
- p2: spaces around `{ : ; ,`;
- p3: `rgb(…)` becomes a `#rrggbb` colour;
- p4: `#aabbcc` becomes `#abc`;
- p5: `:0.` becomes `:.`;
- p6: doubled semicolons and a semicolon before `}`;
- p7: empty rules.

A small Python script from the same repository is modelled too. It builds a
26-way prefix tree over the lower-case colour names before it prints a C
matcher for them.

The model follows the source's own form:

- `buffer.dfy` (module `Buffer`) holds the helpers and `shuffle`.
  - A buffer is a `seq<char>` in specifications and an `array<char>` in methods.
  - NUL is the deletion marker. `Survivors` and `Live` are the bytes a buffer
    still holds, and `Compact` is what `shuffle` leaves.
  - `space` and `hex` are the predicates `IsSpace` and `IsHex`.
  - `s(buf, i)` is the method `Elide`. `memset` is `Memset` and `strspn` is
    `Strspn`; `strcspn` is `Symbols.Strcspn`.
- Each phase is a method over the array, shaped like the source's loop.
  - Each is proved to leave exactly a specification function of the old
    buffer.
  - Each specification function is then related to a byte-by-byte
    reference definition or to the properties the phase promises.
  - The files are `whitespace.dfy` (p0), `comments.dfy` (p1), `symbols.dfy`
    (p2), `colors.dfy` (p3), `hexcodes.dfy` (p4), `zeros.dfy` (p5),
    `semicolons.dfy` (p6) and `blocks.dfy` (p7).
- `minify.dfy` (module `Minify`) is `main`'s sequence: each phase followed by
  `shuffle`. The buffer keeps its size, the live byte count never grows, and
  the live bytes stay at the front.
- `trie.dfy` (module `ColNames`) models the classes `Node` and `Trie` of
  `lib/colnames.py`.
  - They are Dafny classes whose methods update the fields in place.
  - Ghost state carries the node set, a key index and the list of words
    inserted.
  - `Insert` is proved against that ghost state: which nodes exist, which
    are word ends, and what each counter holds.

The model follows the code in these quirks:
- p0 keeps a space at index 0, because of the `i > 0` guard. A leading run of
  spaces keeps one space.
- p1 treats an unterminated comment this way: the loop stops before the last
  byte, so the last byte (the trailing NUL in `main`) is never deleted by it.
- p3 reads green and blue with `atoi` starting on the `,` where the scans
  stop, so both are always 0. See `Colors.ParseRgb`.
- p4 tests the third pair of digits only for being non-NUL, not for
  equality. `#aabb12` becomes `#ab1`.
- p6 judges deletions on the buffer before it is compacted. `;;;` keeps two
  semicolons, and `;;}` keeps one before the `}`. So `a{color:red;;}`
  becomes `a{color:red;}`, not `a{color:red}`.
- p7 does not rescan. A rule with no `}` at index 1 or later before it loses
  only its `}`: its `{` and selector stay. A block emptied by p7 is not removed in the same
  run.
- p3 as the code writes it can write past the matched span. The pipeline
  uses a corrected p3, described under "Findings".

## Model

| member | source | states |
|---|---|---|
| Buffer.Shuffle | turbougly.c:47-61 | the array afterwards is `Compact` of the old one: the live bytes in order, then NULs |
| Buffer.CompactShape | turbougly.c:50-60 | after compaction the first `Live(s)` bytes are exactly the survivors and all later bytes are NUL |
| Buffer.CompactSurvivors | turbougly.c:50-58 | compaction keeps the sequence of live bytes and their number |
| Buffer.CompactIdempotent | turbougly.c:47-61 | shuffling a shuffled buffer changes nothing |
| Buffer.SurvivorsArePicked | turbougly.c:50-58 | the survivors are exactly the non-NUL bytes, taken in increasing position: none is lost and none is reordered |
| Buffer.NoResurrectLive | turbougly.c:273-280 | a pass that makes no deleted byte live again never increases the live count |
| Buffer.Elide | turbougly.c:64-66 | `s(buf, i)` sets byte `i` to NUL and changes nothing else |
| Buffer.Memset | turbougly.c:60 | `memset(buf + at, 0, len)` clears exactly that range |
| Buffer.SpaceRun | turbougly.c:109 | `strspn(…, " ")` is the length of the maximal run of spaces from `i`, which the end of the buffer also ends |
| Buffer.Strspn | turbougly.c:152 | the loop computes `SpaceRun` |
| Whitespace.RunP0 | turbougly.c:100-114 | the loop, stepping back after each deletion, leaves `P0` of the old buffer |
| Whitespace.P0IsRef | turbougly.c:100-114 | the loop agrees on every input with the byte-by-byte reference definition |
| Whitespace.P0NoTabs | turbougly.c:102-107 | no tab or newline is left anywhere |
| Whitespace.P0Spaces | turbougly.c:108-110 | a space survives exactly when it is at index 0 or follows a byte that is neither whitespace nor NUL; every non-space byte is kept |
| Whitespace.P0OnlyDeletes | turbougly.c:100-114 | every byte is kept or becomes NUL |
| Whitespace.P0ThenCompactNoDoubleSpace | turbougly.c:108-110 | after p0 and `shuffle` no two spaces are adjacent |
| Comments.RunP1 | turbougly.c:118-137 | the loop with its `in_comment` flag leaves `P1` of the old buffer |
| Comments.P1IsRef | turbougly.c:118-137 | the loop agrees with a reference definition that finds each opener's closer and deletes the span between them |
| Comments.P1OnlyDeletes | turbougly.c:118-137 | every byte is kept or becomes NUL |
| Comments.P1Unchanged | turbougly.c:118-137 | the buffer comes out unchanged exactly when it holds no `/*` and no `*/` |
| Comments.P1Comment | turbougly.c:122-130 | a comment is deleted from its `/*` through its `*/`, and the text after it is handled as if alone; required: the text before it holds no `/*` or `*/` and does not end in `*`, and the body read from the opener's `*` holds no `*/`, which is what makes that `*/` the comment's closer |
| Comments.P1Unterminated | turbougly.c:121-133 | an unterminated comment is deleted up to, but not including, the last byte; required: the text before it as for `P1Comment`, and no `*/` from the opener's `*` to the end |
| Comments.P1StrayCloser | turbougly.c:126-130 | a `*/` outside a comment is deleted; required: the text before it holds no `/*` or `*/` and does not end in `/` |
| Symbols.RunP2 | turbougly.c:141-168 | the delimiter-to-delimiter loop leaves `P2` of the old buffer |
| Symbols.DelimDist | turbougly.c:146-147 | `strcspn(…, "{:;,")` is the distance to the first delimiter or NUL |
| Symbols.Strcspn | turbougly.c:146 | the loop computes `DelimDist` |
| Symbols.PreRun | turbougly.c:157-159 | the backward count is the run of spaces before the delimiter, never reaching index 0 |
| Symbols.HandleAt | turbougly.c:152-161 | handling one delimiter returns the length of the run of spaces after it and leaves `Handle` of the buffer |
| Symbols.P2IsRef | turbougly.c:141-168 | the loop agrees with a byte-by-byte reference definition on every input |
| Symbols.P2OnlySpaces | turbougly.c:141-168 | only spaces are deleted, byte 0 is kept, and nothing from the first NUL on changes |
| Symbols.P2OnlyDeletes | turbougly.c:141-168 | every byte is kept or becomes NUL |
| Symbols.P2AfterDelim | turbougly.c:152-153 | the spaces after a delimiter are deleted |
| Symbols.P2BeforeDelim | turbougly.c:156-161 | from index 1 on, the spaces directly before `{`, `;` or `,` are deleted; the space directly before a `:` is kept unless its run follows another delimiter, whose trailing spaces are deleted instead |
| Colors.RunP3 | turbougly.c:172-194 | the loop leaves `P3` of the old buffer |
| Colors.RecolorCall | turbougly.c:174-190 | a call stops the pass exactly when its `,` or `)` is missing; otherwise it is rewritten and the loop resumes two bytes past the `)` |
| Colors.Seek | turbougly.c:177-181 | the scan finds the first index at or after `i` that holds `c`, or the end |
| Colors.SeekFrom | turbougly.c:177 | the loop computes `Seek` |
| Colors.Atoi | turbougly.c:176 | a byte that cannot start a number reads as 0 |
| Colors.AtoiOfDecimal | turbougly.c:176 | `atoi` reads back a number from its decimal rendering |
| Colors.ParseRgb | turbougly.c:176-181 | the call ends at the first `)` at or after the first `,` after `rgb(`; the result is missing exactly when that `,` or that `)` is; red is `atoi` after `rgb(`, and green and blue are 0 |
| Colors.Hex2 | turbougly.c:187-189 | each field is two lower-case hexadecimal digits |
| Colors.Hex2RoundTrip | turbougly.c:187-189 | for a value of one byte the two digits read back as the value |
| Colors.Hex2Zero | turbougly.c:188-189 | zero is written `00` |
| Colors.Color | turbougly.c:186-189 | the colour is 7 bytes, starts with `#` and contains no NUL |
| Colors.WriteColor | turbougly.c:183-189 | `memset` over the span followed by the `#` and three `snprintf` writes leaves `Recolor`, the colour written over the cleared span |
| Colors.P3NoCall | turbougly.c:173-174 | with no `rgb(` the buffer is unchanged |
| Colors.P3FromPrefix | turbougly.c:173 | the loop never changes a byte before the index it starts at |
| Colors.P3Rewrites | turbougly.c:182-189 | a call of at least 7 bytes starts with `#`, red in two digits and `0000`, and the rest of its span becomes NUL |
| Colors.P3KeepsShortCall | turbougly.c:183-189 | in the corrected pass a call shorter than 7 bytes is kept |
| Colors.P3FirstCall | turbougly.c:172-189 | the first call in the buffer is rewritten that way and nothing before it changes |
| Buffer.CompactIsCompacted | turbougly.c:47-61 | `shuffle` leaves no live byte after a deleted one |
| Colors.P3Live | turbougly.c:183-189 | on a compacted buffer the corrected p3 makes no deleted byte live and never increases the live count |
| Colors.P3AsWrittenFrom | turbougly.c:172-194 | the loop as the source writes it, with the NUL of the last `snprintf` at `start + 7` and a stop where a write would pass the end; the buffer keeps its size |
| Colors.P3AsWrittenAgrees | turbougly.c:183-189 | when every call the loop meets spans at least 8 bytes through its `)`, the loop as written leaves what the corrected loop leaves |
| Colors.P3AsWrittenIsP3 | turbougly.c:172-194 | the same for the whole pass |
| Colors.P3AsWrittenShortCall | turbougly.c:183-189 | as written, `rgb(,)` followed by NULs becomes `#000000`, one byte longer than the span |
| Colors.P3AsWrittenGrows | turbougly.c:183-189 | as written, p3 raises the live count of a compacted buffer from 6 to 7 |
| HexCodes.RunP4 | turbougly.c:198-215 | the loop leaves `P4` of the old buffer |
| HexCodes.Shorten | turbougly.c:203-208 | the rewrite moves the third and fifth digits down and clears three bytes |
| HexCodes.TestedIsShort | turbougly.c:199-202 | the test on the partly rewritten buffer passes exactly where the original buffer has a short window |
| HexCodes.ShortIsolated | turbougly.c:200-202 | two short windows never overlap |
| HexCodes.P4Shortens | turbougly.c:202-208 | a short window `#aabbcc` becomes `#abc` and three NULs |
| HexCodes.P4ThirdPairUnchecked | turbougly.c:202 | the third pair is not compared: `#aabb12;` becomes `#ab1`, three NULs and `;` |
| HexCodes.P4KeepsLongHex | turbougly.c:201 | a `#` followed by seven hexadecimal digits is left alone |
| HexCodes.P4Live | turbougly.c:198-215 | no deleted byte becomes live, and the live count does not grow |
| Zeros.RunP5 | turbougly.c:219-224 | the loop leaves `P5` of the old buffer |
| Zeros.P5Deletes | turbougly.c:221 | a byte changes exactly when it is the `0` of `:0.`, and then it becomes NUL |
| Zeros.P5Live | turbougly.c:219-224 | the live count does not grow |
| Zeros.P5Example | turbougly.c:221 | `a:0.5` becomes `a:.5` once compacted |
| Semicolons.RunP6 | turbougly.c:228-235 | the loop with its two tests leaves `P6` of the old buffer |
| Semicolons.P6Deletes | turbougly.c:230-231 | only a `;` after a `;` or before a `}` is deleted, and only to NUL |
| Semicolons.P6Pair | turbougly.c:230 | of two adjacent semicolons at least one goes |
| Semicolons.P6BeforeBrace | turbougly.c:231 | a `;` right before `}` goes |
| Semicolons.P6TripleLeavesPair | turbougly.c:229-232 | `;;;` keeps two adjacent semicolons once compacted |
| Semicolons.P6DoubleBeforeBrace | turbougly.c:229-232 | `;;}` becomes `;}` once compacted |
| Semicolons.P6Live | turbougly.c:228-235 | the live count does not grow |
| Blocks.RunP7 | turbougly.c:239-253 | the loop leaves `P7` of the old buffer |
| Blocks.CollapseAt | turbougly.c:241-249 | one step deletes the `}` and then every byte after the nearest `}` before it |
| Blocks.LastClose | turbougly.c:244-246 | the backward scan stops at the nearest `}` at or after index 1, or at 0 |
| Blocks.Collapse | turbougly.c:241-249 | a step only deletes, and it always deletes the `}` |
| Blocks.BlockFound | turbougly.c:241 | the loop sees an empty block exactly where the original buffer has one |
| Blocks.NearestFence | turbougly.c:244-246 | the nearest `}` at or before `m`, at index 1 or later, that does not close an empty block, or 0 |
| Blocks.P7Deletes | turbougly.c:239-253 | p7 only deletes, keeps every `}` that does not close an empty block, and deletes only the `}` of an empty block or a byte after the fence nearest to an empty block and before that block's `}` |
| Blocks.P7IsRef | turbougly.c:239-253 | the loop agrees on every input with a reference definition on the original buffer: a byte is deleted exactly when it is such a `}` or such a byte |
| Blocks.P7NoBlock | turbougly.c:241-242 | a buffer without `{}` comes out unchanged |
| Blocks.P7ClearsToFence | turbougly.c:244-248 | everything after the nearest earlier kept `}`, up to the empty block's `}`, is deleted |
| Blocks.P7ClosesBlock | turbougly.c:241-242 | the `}` of every empty block goes |
| Blocks.P7KeepsSelector | turbougly.c:248 | with no earlier kept `}`, only the block's `}` goes and the selector and `{` stay |
| Blocks.P7DropsRule | turbougly.c:239-253 | `p{c}q{}` becomes `p{c}` and three NULs |
| Blocks.P7LoneBlock | turbougly.c:248 | `a{}` loses only its `}` |
| Blocks.P7NoRescan | turbougly.c:240-250 | `a{{}}` becomes `a{{}` once compacted: an emptied block is not looked at again |
| Blocks.P7Live | turbougly.c:239-253 | the live count does not grow |
| Minify.Run | turbougly.c:273-280 | the eight phases, each followed by `shuffle`, leave `Minified` of the old buffer |
| Minify.PhasesShrink | turbougly.c:273-280 | after every phase and its `shuffle` the size is the same, the live count has not grown, and the buffer is compacted |
| Minify.MinifiedShrinks | turbougly.c:273-283 | the printed text is never longer than the input's live bytes, and it sits at the front followed only by NULs |
| Minify.PipelineAgrees | turbougly.c:273-280 | when `p3` as written and the corrected `p3` agree on the buffer the first three phases leave, every stage of `main` as written equals that of `Run` |
| Minify.MinifiedAsWrittenAgrees | turbougly.c:273-280 | when every call `p3` meets spans at least 8 bytes, `main` as written leaves what `Run` leaves and never grows the text |
| ColNames.Node.constructor | lib/colnames.py:8-13 | a new node has the given flag, by default not a word end, the given parent and letter, a zero count and 26 empty slots |
| ColNames.Node.Parents | lib/colnames.py:31-38 | the ancestors, closest first: as many as the node is deep, none for the head, the head last, the `k`-th ending the key less `k + 1` letters |
| ColNames.Node.Key | lib/colnames.py:40-47 | the letters along the parent chain are the node's key, `""` for the head, and the key indexes back to the node |
| ColNames.Trie.constructor | lib/colnames.py:50-51 | the new tree is only the head, with no words |
| ColNames.Trie.AddChild | lib/colnames.py:59-60 | a child is created only in an empty slot, fresh, with a zero count, and the tree keeps its shape |
| ColNames.Trie.Descend | lib/colnames.py:56-63 | the child in the letter's slot is reused or created, and only it gains one in its count |
| ColNames.Trie.Step | lib/colnames.py:56-63 | one turn of the loop extends the set of counted prefix nodes by one letter |
| ColNames.Trie.Follow | lib/colnames.py:55-63 | the walk ends on the node of the word; nodes are created only along it, and none when the word's node existed |
| ColNames.Trie.MarkEnd | lib/colnames.py:64 | the word's node becomes a word end, and no other flag changes |
| ColNames.Trie.Insert | lib/colnames.py:53-64 | following the word's letters reaches a word-end node for it; on the path, each node other than the head counts one more word; re-inserting adds no node; no other flag changes; only empty slots are filled, so a child already in a slot stays there; every key keeps its node, and old nodes keep their parent, letter and key (the lemma `SlotsKept` derives the slots from the shape) |
| ColNames.Trie.WalkAt | lib/colnames.py:56-61 | following the letters of a key reaches its node, and an empty slot when no node has that key |
| ColNames.Trie.Reach | lib/colnames.py:40-47 | following the letters of a node's key from the head reaches that node, so `Key` and the walk of `insert` are inverse |
| ColNames.Slot | lib/colnames.py:57 | a lower-case letter's slot is one of the 26 |

## Left out

- Reading and printing the file: `fopen`, `ftell`, `calloc`, `fread`, `fputs` and `fclose` in `main`. `Minify.Run` takes the buffer as an array; what `main` prints is the part of `Minified` before its first NUL.
- `error` and the error branches of `main` are not modelled. Every phase returns `true`, so those branches are never taken, and the phase methods return nothing.
- The model works on an unbounded array and does not model `unsigned int` widths. The wrap-arounds that matter are written out:
  - p0 steps `i` back from 0 and then increments it, so the same index is examined again;
  - p1's `bufsz - 1` is guarded for an empty buffer;
  - p2 gives a delimiter at index 0 no run of spaces before it.
- Reads the source makes past the end of the buffer are undefined behaviour. Each becomes a bound or a stop:
  - p0 reads `buf[bufsz]`, so the model stops at the last byte;
  - `strcspn` and `strspn` treat the end like a NUL;
  - p3's `memcmp` near the end does not match;
  - a p3 scan for a missing `,` or `)` ends the pass.
- Colors.Atoi: `atoi` overflow and locale are not modelled. The value is an unbounded integer, and `%02x` is taken of the value modulo 2^32.
- Colors.RunP3: it runs the corrected p3, which rewrites only a span of at least 7 bytes. The as-written behaviour is modelled by `Colors.P3AsWritten`, as a function only, and described under "Findings". `Colors.P3AsWrittenIsP3` shows the two agree when every call spans at least 8 bytes.
- Colors.RecolorCall: it skips a call shorter than 7 bytes, where the source writes past the span, and so models the corrected p3.
- Colors.WriteColor: it does not write the NUL the last `snprintf` puts at `start + 7`. It is called only on spans of at least 7 bytes, where that byte is NUL after the `memset` or lies past the span.
- Minify.Run: it runs the corrected p3. `Minify.MinifiedAsWrittenAgrees` states when `main` as written leaves the same buffer.
- The whole pipeline is not claimed to be idempotent. `Blocks.P7NoRescan` shows that a second run can remove more.
- `Node.dump`, the `yaml` loading, the global `repl` and the script body of `lib/colnames.py`. These print C source and do I/O.
- ColNames.Trie.Insert: it requires every letter in `a`..`z`. Python would raise an error or index from the end for other characters, and that is not modelled.
- ColNames.Trie.Insert: it states the change to each count in one call. The meaning of a count across many calls, the number of inserted words having the node's key as a prefix, is not stated as an invariant.
- ColNames.Node.Parents and ColNames.Node.Key take the tree as a ghost parameter. The tree is needed only to state what the parent chain is.

## Findings

| source | as written | input that shows it | evidently intended | confidence | as-written member | corrected member |
|---|---|---|---|---|---|---|
| turbougly.c:183-189 | `memset` clears the span through the `)`. Then `#`, three two-digit fields and the final `snprintf`'s NUL are written from `start`, 8 bytes, whatever the span's length. A 6-byte span gets bytes written 2 past its end, and a 7-byte span loses the byte after the `)`. | the compacted buffer `rgb(,)` followed by four NULs becomes `#000000` and three NULs, so the live count goes from 6 to 7 | a call is rewritten only inside its own span, so a phase never makes the text longer | not executed | Colors.P3AsWrittenGrows | Colors.P3Live |
