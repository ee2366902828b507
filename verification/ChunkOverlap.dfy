/**
 Which chunks of a text carry an overlap with the chunk before: exactly when all do, and a text where one
 does not.
 */
module ChunkOverlap {
  import opened Chunk
  import opened Text

  /** Chunk k starts with the tail of the chunk before it. */
  predicate Shares(chunks: seq<string>, k: nat)
    requires k < |chunks|
  {
    OverlapTail(chunks[..k]) <= chunks[k]
  }

  lemma {:induction false} EmittedGrows(block: string, pos: nat, chunks: seq<string>)
    requires pos <= |block|
    ensures chunks <= Emitted(block, pos, chunks)
    decreases |block| - pos
  {
    if pos < |block| {
      var next, more, all := EmitTurn(block, pos, chunks);
      EmittedGrows(block, next, more);
      assert chunks <= more <= all;
    }
  }

  lemma SharesInPrefix(part: seq<string>, all: seq<string>, k: nat)
    requires part <= all && k < |part|
    ensures Shares(part, k) <==> Shares(all, k)
  {
    assert part[..k] == all[..k];
  }

  /** Every chunk the window loop adds starts with the tail of the chunk before it. */
  lemma {:induction false} WindowsShare(block: string, pos: nat, chunks: seq<string>, k: nat)
    requires pos <= |block| && |chunks| <= k < |Emitted(block, pos, chunks)|
    ensures Shares(Emitted(block, pos, chunks), k)
    decreases |block| - pos
  {
    var next, more, all := EmitTurn(block, pos, chunks);
    if k == |chunks| {
      EmittedGrows(block, next, more);
      WindowShares(block, pos, chunks, more);
      SharesInPrefix(more, all, k);
    } else {
      WindowsShare(block, next, more, k);
    }
  }

  lemma WindowShares(block: string, pos: nat, chunks: seq<string>, more: seq<string>)
    requires pos < |block| && more == chunks + [Window(block, pos, chunks)]
    ensures Shares(more, |chunks|)
  {
    assert more[..|chunks|] == chunks;
  }

  // ---------------------------------------------------------------------------------------------
  // When every chunk carries the tail of the one before
  // ---------------------------------------------------------------------------------------------

  /** Every chunk but the first has been given the whole tail of the chunk before as its overlap. */
  ghost predicate AllCarried(chunks: seq<string>, cuts: seq<nat>) {
    |cuts| == |chunks| && forall k :: 1 <= k < |chunks| ==> cuts[k] == |OverlapTail(chunks[..k])|
  }

  lemma CarrySnoc(chunks: seq<string>, cuts: seq<nat>, chunk: string, cut: nat)
    requires |cuts| == |chunks|
    ensures AllCarried(chunks + [chunk], cuts + [cut])
            <==> AllCarried(chunks, cuts) && (chunks == [] || cut == |OverlapTail(chunks)|)
  {
    var all, n := chunks + [chunk], |chunks|;
    assert forall k :: 0 <= k <= n ==> all[..k] == chunks[..k];
    assert chunks[..n] == chunks;
    if AllCarried(all, cuts + [cut]) {
      assert forall k :: 1 <= k < n ==> (cuts + [cut])[k] == cuts[k];
      if n > 0 {
        assert (cuts + [cut])[n] == cut;
      }
    }
  }

  /** Windows carry what they should. */
  lemma {:induction false} EmittedCarries(block: string, pos: nat, chunks: seq<string>, cuts: seq<nat>)
    requires pos <= |block| && |cuts| == |chunks|
    ensures |EmittedCuts(block, pos, chunks, cuts)| == |Emitted(block, pos, chunks)|
    ensures AllCarried(Emitted(block, pos, chunks), EmittedCuts(block, pos, chunks, cuts)) <==> AllCarried(chunks, cuts)
    decreases |block| - pos
  {
    if pos < |block| {
      var end, next, nextCuts := WindowCarries(block, pos, chunks, cuts);
      EmittedCarries(block, end, next, nextCuts);
    }
  }

  lemma WindowCarries(block: string, pos: nat, chunks: seq<string>, cuts: seq<nat>)
    returns (end: nat, next: seq<string>, nextCuts: seq<nat>)
    requires pos < |block| && |cuts| == |chunks|
    ensures pos < end <= |block| && |nextCuts| == |next|
    ensures Emitted(block, pos, chunks) == Emitted(block, end, next)
    ensures EmittedCuts(block, pos, chunks, cuts) == EmittedCuts(block, end, next, nextCuts)
    ensures AllCarried(next, nextCuts) <==> AllCarried(chunks, cuts)
  {
    var chunk, cut: nat := Window(block, pos, chunks), |OverlapTail(chunks)|;
    end := pos + Taken(block, pos, chunks);
    next, nextCuts := chunks + [chunk], cuts + [cut];
    EmittedStep(block, pos, chunks, end, next, cuts, nextCuts);
    CarrySnoc(chunks, cuts, chunk, cut);
  }

  /** A flushed chunk carries nothing, so it keeps the promise only as the first chunk. */
  lemma FlushedCarries(current: string, chunks: seq<string>, cuts: seq<nat>)
    requires Sized(chunks) && |cuts| == |chunks|
    ensures |FlushedCuts(current, cuts)| == |Flushed(current, chunks)|
    ensures AllCarried(Flushed(current, chunks), FlushedCuts(current, cuts))
            <==> AllCarried(chunks, cuts) && (chunks == [] || current == "")
  {
    if current != "" {
      CarrySnoc(chunks, cuts, current, 0);
      assert chunks != [] ==> chunks[|chunks| - 1] in chunks;
    }
  }

  ghost predicate NoneEmpty(blocks: seq<string>) {
    forall j :: 0 <= j < |blocks| ==> blocks[j] != ""
  }

  ghost predicate Oversized(blocks: seq<string>) {
    forall j :: 0 <= j < |blocks| ==> |blocks[j]| > BUDGET
  }

  lemma OversizedRest(block: string, rest: seq<string>)
    ensures Oversized(rest) <==> forall j :: 0 < j < |[block] + rest| ==> |([block] + rest)[j]| > BUDGET
  {
    var blocks := [block] + rest;
    if forall j :: 0 < j < |blocks| ==> |blocks[j]| > BUDGET {
      forall j | 0 <= j < |rest| ensures |rest[j]| > BUDGET {
        assert rest[j] == blocks[j + 1];
      }
    }
  }

  lemma FirstAndRest(blocks: seq<string>)
    requires blocks != []
    ensures NoneEmpty(blocks) <==> blocks[0] != "" && NoneEmpty(blocks[1..])
    ensures Oversized(blocks) <==> |blocks[0]| > BUDGET && Oversized(blocks[1..])
  {
    assert blocks == [blocks[0]] + blocks[1..];
    OversizedRest(blocks[0], blocks[1..]);
  }

  /** Once there is a chunk, everything after it must be windowed. */
  lemma {:induction false} PackedCarries(blocks: seq<string>, current: string, chunks: seq<string>, cuts: seq<nat>)
    requires Sized(chunks) && chunks != [] && |cuts| == |chunks| && |current| <= BUDGET
    requires NoneEmpty(blocks)
    ensures AllCarried(Packed(blocks, current, chunks), PackedCuts(blocks, current, chunks, cuts))
            <==> AllCarried(chunks, cuts) && current == "" && Oversized(blocks)
    decreases |blocks|
  {
    FlushedCarries(current, chunks, cuts);
    if blocks != [] {
      var block, rest := blocks[0], blocks[1..];
      FirstAndRest(blocks);
      if |Joined(current, block)| <= BUDGET {
        PackedCarries(rest, Joined(current, block), chunks, cuts);
      } else {
        var emitted, emittedCuts := MisfitCarries(block, current, chunks, cuts);
        MisfitPacked(blocks, current, chunks, cuts, emitted, emittedCuts);
        PackedCarries(rest, "", emitted, emittedCuts);
      }
    }
  }

  /** A block that does not fit is windowed after what was packed is flushed. */
  lemma MisfitCarries(block: string, current: string, chunks: seq<string>, cuts: seq<nat>)
    returns (emitted: seq<string>, emittedCuts: seq<nat>)
    requires Sized(chunks) && |cuts| == |chunks| && |current| <= BUDGET && block != ""
    ensures emitted == Emitted(block, 0, Flushed(current, chunks))
    ensures emittedCuts == EmittedCuts(block, 0, Flushed(current, chunks), FlushedCuts(current, cuts))
    ensures Sized(emitted) && emitted != [] && |emittedCuts| == |emitted|
    ensures AllCarried(emitted, emittedCuts) <==> AllCarried(chunks, cuts) && (chunks == [] || current == "")
  {
    var flushed, flushedCuts := Flushed(current, chunks), FlushedCuts(current, cuts);
    emitted, emittedCuts := Emitted(block, 0, flushed), EmittedCuts(block, 0, flushed, flushedCuts);
    FlushedCarries(current, chunks, cuts);
    EmittedCarries(block, 0, flushed, flushedCuts);
    EmittedBounds(block, 0, flushed);
    EmittedSomething(block, flushed);
  }

  lemma MisfitPacked(blocks: seq<string>, current: string, chunks: seq<string>, cuts: seq<nat>,
                     emitted: seq<string>, emittedCuts: seq<nat>)
    requires blocks != [] && |Joined(current, blocks[0])| > BUDGET
    requires emitted == Emitted(blocks[0], 0, Flushed(current, chunks))
    requires emittedCuts == EmittedCuts(blocks[0], 0, Flushed(current, chunks), FlushedCuts(current, cuts))
    ensures Packed(blocks, current, chunks) == Packed(blocks[1..], "", emitted)
    ensures PackedCuts(blocks, current, chunks, cuts) == PackedCuts(blocks[1..], "", emitted, emittedCuts)
  {
  }

  /** The first block that does not fit into what is packed before it, or the number of blocks. */
  function FirstMisfit(blocks: seq<string>, current: string): (i: nat)
    ensures i <= |blocks|
  {
    if blocks == [] || |Joined(current, blocks[0])| > BUDGET then 0
    else 1 + FirstMisfit(blocks[1..], Joined(current, blocks[0]))
  }

  ghost predicate LaterOversized(blocks: seq<string>, current: string) {
    forall j :: FirstMisfit(blocks, current) < j < |blocks| ==> |blocks[j]| > BUDGET
  }

  lemma {:induction false} FirstChunksCarry(blocks: seq<string>, current: string)
    requires |current| <= BUDGET && NoneEmpty(blocks)
    ensures AllCarried(Packed(blocks, current, []), PackedCuts(blocks, current, [], [])) <==>
            LaterOversized(blocks, current)
    decreases |blocks|
  {
    FlushedCarries(current, [], []);
    if blocks != [] {
      var block, rest := blocks[0], blocks[1..];
      if |Joined(current, block)| <= BUDGET {
        FirstChunksCarry(rest, Joined(current, block));
        assert blocks == [block] + rest;
        LaterShift(blocks, current);
      } else {
        assert blocks == [block] + rest;
        FirstWindows(block, rest, current);
      }
    }
  }

  lemma LaterShift(blocks: seq<string>, current: string)
    requires blocks != [] && |Joined(current, blocks[0])| <= BUDGET
    ensures LaterOversized(blocks, current) <==> LaterOversized(blocks[1..], Joined(current, blocks[0]))
  {
    var rest, first := blocks[1..], FirstMisfit(blocks, current);
    if LaterOversized(blocks, current) {
      forall j | first - 1 < j < |rest| ensures |rest[j]| > BUDGET {
        assert rest[j] == blocks[j + 1];
      }
    }
    if LaterOversized(rest, Joined(current, blocks[0])) {
      forall j | first < j < |blocks| ensures |blocks[j]| > BUDGET {
        assert blocks[j] == rest[j - 1];
      }
    }
  }

  lemma FirstWindows(block: string, rest: seq<string>, current: string)
    requires |current| <= BUDGET && block != "" && |Joined(current, block)| > BUDGET
    requires NoneEmpty(rest)
    ensures AllCarried(Packed([block] + rest, current, []), PackedCuts([block] + rest, current, [], []))
            <==> LaterOversized([block] + rest, current)
  {
    var blocks := [block] + rest;
    assert blocks[1..] == rest;
    var emitted, emittedCuts := MisfitCarries(block, current, [], []);
    PackedCarries(rest, "", emitted, emittedCuts);
    OversizedRest(block, rest);
  }

  lemma EmittedSomething(block: string, chunks: seq<string>)
    requires block != ""
    ensures Emitted(block, 0, chunks) != []
  {
    EmittedGrows(block, Taken(block, 0, chunks), chunks + [Window(block, 0, chunks)]);
  }

  /**
   For every text, every chunk after the first carries the tail of the chunk before if and only if all
   blocks after the first misfit are longer than the budget: a short block there starts a chunk afresh.
   */
  lemma OverlapEverywhereIff(text: string)
    ensures var chunks := Packed(SplitIntoBlocks(text), "", []);
            Cuts(chunks, CutsOf(text))
            && (AllCarried(chunks, CutsOf(text)) <==> LaterOversized(SplitIntoBlocks(text), ""))
  {
    var blocks := SplitIntoBlocks(text);
    SplitIntoBlocksKeepsVisible(text);
    assert forall j :: 0 <= j < |blocks| ==> blocks[j] in blocks;
    FirstChunksCarry(blocks, "");
    var cuts := PackedFresh(SplitIntoBlocks(text), "", [], []);
  }

  /** Carrying is sharing. */
  lemma CarriedIsShared(chunks: seq<string>, cuts: seq<nat>, k: nat)
    requires Cuts(chunks, cuts) && 1 <= k < |chunks| && cuts[k] == |OverlapTail(chunks[..k])|
    ensures Shares(chunks, k)
  {
    assert ProperCut(chunks[..k], chunks[k], cuts[k]);
    if cuts[k] > 0 {
      assert chunks[k][..cuts[k]] == OverlapTail(chunks[..k]);
    }
  }

  // ---------------------------------------------------------------------------------------------
  // A text where one does not
  // ---------------------------------------------------------------------------------------------

  /** A last block that is packed right after a windowed one becomes a chunk by itself, with nothing put before it. */
  lemma {:induction false} PackedLastStartsAfresh(blocks: seq<string>, last: string, current: string,
                                                  chunks: seq<string>)
    requires last != "" && |last| <= BUDGET
    requires PackedCurrent(blocks, current) == ""
    ensures var all := Packed(blocks + [last], current, chunks);
            all != [] && all[|all| - 1] == last
    decreases |blocks|
  {
    if blocks == [] {
      assert (blocks + [last])[0] == last && (blocks + [last])[1..] == [];
    } else {
      var b := blocks[0];
      assert (blocks + [last])[0] == b && (blocks + [last])[1..] == blocks[1..] + [last];
      if |Joined(current, b)| <= BUDGET {
        PackedLastStartsAfresh(blocks[1..], last, Joined(current, b), chunks);
      } else {
        PackedLastStartsAfresh(blocks[1..], last, "", Emitted(b, 0, Flushed(current, chunks)));
      }
    }
  }

  /** What is packed but not finished after the blocks: empty right after a windowed block. */
  function PackedCurrent(blocks: seq<string>, current: string): string
    decreases |blocks|
  {
    if blocks == [] then current
    else PackedCurrent(blocks[1..], if |Joined(current, blocks[0])| <= BUDGET then Joined(current, blocks[0]) else "")
  }

  /** After a block that did not fit, a short third one is a chunk of its own; it may begin like the tail by chance. */
  lemma ThirdBlockStandsAlone(x: string, y: string, z: string)
    requires x != "" && |x| <= BUDGET && |x| + 2 + |y| > BUDGET && z != "" && |z| <= BUDGET
    ensures var all := Packed([x, y, z], "", []); all != [] && all[|all| - 1] == z
  {
    assert [x, y] + [z] == [x, y, z];
    assert [x, y][1..] == [y] && [y][1..] == [];
    assert PackedCurrent([y], x) == "";
    PackedLastStartsAfresh([x, y], z, "", []);
  }

  lemma {:induction false} SplitPlain(s: string, sep: string)
    requires sep != "" && sep[0] !in s
    ensures Split(s, sep) == [s]
  {
    if |s| >= |sep| {
      assert s[..|sep|][0] == s[0];
      SplitPlain(s[1..], sep);
      assert s == [s[0]] + s[1..];
    }
  }

  lemma {:induction false} SplitAtFirst(a: string, sep: string, b: string)
    requires sep != "" && sep[0] !in a
    ensures Split(a + sep + b, sep) == [a] + Split(b, sep)
  {
    var s := a + sep + b;
    if a == "" {
      assert s[..|sep|] == sep && s[|sep|..] == b;
    } else {
      assert s[..|sep|][0] == a[0] && s[1..] == a[1..] + sep + b;
      SplitAtFirst(a[1..], sep, b);
      assert a == [a[0]] + a[1..];
    }
  }

  predicate IsWord(s: string) {
    s != "" && forall i :: 0 <= i < |s| ==> !IsWhitespace(s[i])
  }

  lemma WordIsTrimmed(s: string)
    requires IsWord(s)
    ensures Trim(s) == s
  {
  }

  lemma TwoBlocks(x: string, z: string)
    requires Trim(x) == x != "" && Trim(z) == z != ""
    ensures Blocks([x, z]) == [x, z]
  {
    assert [z][1..] == [] && Blocks([z]) == [Trim(z)] + Blocks([z][1..]);
    assert [x, z][1..] == [z] && Blocks([x, z]) == [Trim(x)] + Blocks([x, z][1..]);
  }

  /** Two words with a blank line between them are two blocks. */
  lemma TwoParagraphs(x: string, z: string)
    requires IsWord(x) && IsWord(z)
    ensures SplitIntoBlocks(x + SEPARATOR + z) == [x, z]
  {
    assert SEPARATOR[0] == '\n' && CRLF_BLANK[0] == '\r';
    SplitAtFirst(x, SEPARATOR, z);
    SplitPlain(z, SEPARATOR);
    SplitPlain(x, CRLF_BLANK);
    SplitPlain(z, CRLF_BLANK);
    assert [x, z][1..] == [z] && [z][1..] == [];
    assert SplitEach([z], CRLF_BLANK) == [z];
    assert SplitEach([x, z], CRLF_BLANK) == [x] + [z];
    WordIsTrimmed(x);
    WordIsTrimmed(z);
    TwoBlocks(x, z);
  }

  function Repeat(c: char, n: nat): (s: string)
    ensures |s| == n && forall i :: 0 <= i < n ==> s[i] == c
  {
    if n == 0 then "" else Repeat(c, n - 1) + [c]
  }

  ghost predicate OnlyOf(chunks: seq<string>, c: char) {
    forall k, i :: 0 <= k < |chunks| && 0 <= i < |chunks[k]| ==> chunks[k][i] == c
  }

  lemma {:induction false} EmittedOnly(block: string, pos: nat, chunks: seq<string>, c: char)
    requires pos <= |block| && OnlyOf(chunks, c) && OnlyOf([block], c)
    ensures OnlyOf(Emitted(block, pos, chunks), c)
    decreases |block| - pos
  {
    if pos < |block| {
      var next := WindowOnly(block, pos, chunks, c);
      EmittedOnly(block, pos + Taken(block, pos, chunks), next, c);
    }
  }

  lemma WindowOnly(block: string, pos: nat, chunks: seq<string>, c: char) returns (next: seq<string>)
    requires pos < |block| && OnlyOf(chunks, c) && OnlyOf([block], c)
    ensures next == chunks + [Window(block, pos, chunks)] && OnlyOf(next, c)
  {
    var tail, w := OverlapTail(chunks), Window(block, pos, chunks);
    next := chunks + [w];
    assert forall i :: 0 <= i < |block| ==> [block][0][i] == block[i];
    assert forall i :: 0 <= i < |w| ==> w[i] == if i < |tail| then tail[i] else block[pos + i - |tail|];
    assert forall i :: 0 <= i < |tail| ==> tail[i] == c;
  }

  /**
   The promise fails on a text: a long paragraph of `a`, a blank line and a short `b` end in a chunk with no
   overlap.
   */
  lemma OverlapPromiseFails(text: string)
    requires text == Repeat('a', 601) + SEPARATOR + "b"
    ensures |text| > BUDGET && !Blank(text)
    ensures var all := Packed(SplitIntoBlocks(text), "", []);
            |all| > 1 && all[|all| - 1] == "b" && !Shares(all, |all| - 1)
  {
    var x := Repeat('a', 601);
    assert text[0] == 'a' && IsWord(x) && IsWord("b");
    TwoParagraphs(x, "b");
    LongThenShort(x, "b");
    EmittedOnly(x, 0, [], 'a');
    TailOnly(Emitted(x, 0, []), 'a');
  }

  /** A long block and then a short one: the windows of the first, and the second by itself. */
  lemma LongThenShort(x: string, z: string)
    requires |x| > BUDGET && 0 < |z| <= BUDGET
    ensures var windows := Emitted(x, 0, []);
            windows != [] && Sized(windows) && Packed([x, z], "", []) == windows + [z]
    ensures Shares(Emitted(x, 0, []) + [z], |Emitted(x, 0, [])|) <==> OverlapTail(Emitted(x, 0, [])) <= z
  {
    var windows := Emitted(x, 0, []);
    EmittedSomething(x, []);
    EmittedBounds(x, 0, []);
    assert [x, z][1..] == [z] && [z][1..] == [];
    assert Packed([z], "", windows) == windows + [z];
    assert (windows + [z])[..|windows|] == windows;
  }

  lemma TailOnly(chunks: seq<string>, c: char)
    requires OnlyOf(chunks, c) && chunks != [] && Sized(chunks)
    ensures OverlapTail(chunks) != "" && OverlapTail(chunks)[0] == c
  {
    assert chunks[|chunks| - 1] in chunks;
    assert OverlapTail(chunks)[0] in chunks[|chunks| - 1];
  }
}
