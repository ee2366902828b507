/** Heading/paragraph-aware chunking: block split, greedy packing, and overlapping hard-split windows. */
module Chunk {
  import opened Seqs
  import opened Text

  const BUDGET: nat := 600
  const OVERLAP: nat := 100
  const SEPARATOR := "\n\n"
  const CRLF_BLANK := "\r\n\r\n"

  // ---------------------------------------------------------------------------------------------
  // Blocks
  // ---------------------------------------------------------------------------------------------

  /** `text.split(sep)`: cut at every leftmost, non-overlapping occurrence. */
  function Split(text: string, sep: string): (parts: seq<string>)
    requires sep != ""
    ensures parts != []
    decreases |text|
  {
    if |text| < |sep| then [text]
    else if text[..|sep|] == sep then [""] + Split(text[|sep|..], sep)
    else
      var rest := Split(text[1..], sep);
      [[text[0]] + rest[0]] + rest[1..]
  }

  function SplitEach(parts: seq<string>, sep: string): seq<string>
    requires sep != ""
  {
    if parts == [] then [] else Split(parts[0], sep) + SplitEach(parts[1..], sep)
  }

  /** Trim every part and drop the ones that are blank. */
  function Blocks(parts: seq<string>): (blocks: seq<string>)
    ensures forall b :: b in blocks ==> b != ""
  {
    if parts == [] then []
    else if Trim(parts[0]) == "" then Blocks(parts[1..])
    else [Trim(parts[0])] + Blocks(parts[1..])
  }

  function SplitIntoBlocks(text: string): seq<string> {
    Blocks(SplitEach(Split(text, SEPARATOR), CRLF_BLANK))
  }

  lemma {:induction false} SplitKeepsVisible(text: string, sep: string)
    requires sep != "" && Blank(sep)
    ensures Visible(Concat(Split(text, sep))) == Visible(text)
    decreases |text|
  {
    if |text| < |sep| {
      assert Concat([text]) == text + Concat([]);
      assert text + "" == text;
    } else if text[..|sep|] == sep {
      var rest := text[|sep|..];
      SplitKeepsVisible(rest, sep);
      assert ([""] + Split(rest, sep))[1..] == Split(rest, sep);
      assert Concat([""] + Split(rest, sep)) == "" + Concat(Split(rest, sep)) == Concat(Split(rest, sep));
      assert text == sep + rest;
      VisibleConcat(sep, rest);
      VisibleBlank(sep);
    } else {
      var rest := Split(text[1..], sep);
      SplitKeepsVisible(text[1..], sep);
      var parts := [[text[0]] + rest[0]] + rest[1..];
      assert parts[1..] == rest[1..];
      assert Concat(parts) == [text[0]] + Concat(rest);
      VisibleConcat([text[0]], Concat(rest));
      VisibleConcat([text[0]], text[1..]);
      assert text == [text[0]] + text[1..];
    }
  }

  lemma {:induction false} SplitEachKeepsVisible(parts: seq<string>, sep: string)
    requires sep != "" && Blank(sep)
    ensures Visible(Concat(SplitEach(parts, sep))) == Visible(Concat(parts))
  {
    if parts != [] {
      SplitKeepsVisible(parts[0], sep);
      SplitEachKeepsVisible(parts[1..], sep);
      ConcatAppend(Split(parts[0], sep), SplitEach(parts[1..], sep));
      VisibleConcat(Concat(Split(parts[0], sep)), Concat(SplitEach(parts[1..], sep)));
      VisibleConcat(parts[0], Concat(parts[1..]));
    }
  }

  lemma {:induction false} BlocksKeepVisible(parts: seq<string>)
    ensures Visible(Concat(Blocks(parts))) == Visible(Concat(parts))
  {
    if parts != [] {
      var b, rest := Trim(parts[0]), Blocks(parts[1..]);
      TrimKeepsVisible(parts[0]);
      BlocksKeepVisible(parts[1..]);
      VisibleConcat(parts[0], Concat(parts[1..]));
      VisibleConcat(b, Concat(rest));
      assert b != "" ==> ([b] + rest)[1..] == rest && Concat([b] + rest) == b + Concat(rest);
    }
  }

  lemma TrimIsTrimmed(s: string)
    ensures Trim(Trim(s)) == Trim(s)
  {
    var t := Trim(s);
    if t != "" {
      assert t[0] == TrimStart(s)[0];
      assert TrimStart(t) == t && TrimEnd(t) == t;
    }
  }

  lemma {:induction false} BlocksAreTrimmed(parts: seq<string>)
    ensures forall b :: b in Blocks(parts) ==> b != "" && Trim(b) == b
  {
    if parts != [] {
      TrimIsTrimmed(parts[0]);
      BlocksAreTrimmed(parts[1..]);
    }
  }

  /** Splitting into blocks drops whitespace only, and every block is trimmed and not empty. */
  lemma SplitIntoBlocksKeepsVisible(text: string)
    ensures Visible(Concat(SplitIntoBlocks(text))) == Visible(text)
    ensures forall b :: b in SplitIntoBlocks(text) ==> b != "" && Trim(b) == b
  {
    BlocksAreTrimmed(SplitEach(Split(text, SEPARATOR), CRLF_BLANK));
    var parts := Split(text, SEPARATOR);
    SplitKeepsVisible(text, SEPARATOR);
    SplitEachKeepsVisible(parts, CRLF_BLANK);
    BlocksKeepVisible(SplitEach(parts, CRLF_BLANK));
  }

  // ---------------------------------------------------------------------------------------------
  // Windows and packing
  // ---------------------------------------------------------------------------------------------

  /** The trailing `OVERLAP` characters of the last chunk, or nothing. */
  function OverlapTail(chunks: seq<string>): (tail: string)
    ensures |tail| <= OVERLAP
  {
    if chunks == [] then "" else
      var prev := chunks[|chunks| - 1];
      prev[if |prev| <= OVERLAP then 0 else |prev| - OVERLAP..]
  }

  function Least(a: nat, b: nat): nat {
    if a <= b then a else b
  }

  /** How much of the block, from `pos` on, the next chunk takes after its overlap. */
  function Taken(block: string, pos: nat, chunks: seq<string>): (take: nat)
    requires pos < |block|
    ensures 1 <= take <= |block| - pos
    ensures take == |block| - pos || take >= BUDGET - OVERLAP
    ensures |OverlapTail(chunks)| + take <= BUDGET
  {
    Least(BUDGET - |OverlapTail(chunks)|, |block| - pos)
  }

  function Window(block: string, pos: nat, chunks: seq<string>): (chunk: string)
    requires pos < |block|
    ensures 1 <= |chunk| <= BUDGET
  {
    OverlapTail(chunks) + block[pos..pos + Taken(block, pos, chunks)]
  }

  /** The chunks after placing `block` from `pos` on. */
  function Emitted(block: string, pos: nat, chunks: seq<string>): seq<string>
    requires pos <= |block|
    decreases |block| - pos
  {
    if pos == |block| then chunks
    else Emitted(block, pos + Taken(block, pos, chunks), chunks + [Window(block, pos, chunks)])
  }

  /** One turn of the window loop. */
  lemma EmitTurn(block: string, pos: nat, chunks: seq<string>) returns (next: nat, more: seq<string>, all: seq<string>)
    requires pos < |block|
    ensures pos < next == pos + Taken(block, pos, chunks) <= |block|
    ensures more == chunks + [Window(block, pos, chunks)] && chunks <= more
    ensures all == Emitted(block, pos, chunks) && all == Emitted(block, next, more)
  {
    next, more := pos + Taken(block, pos, chunks), chunks + [Window(block, pos, chunks)];
    all := Emitted(block, next, more);
  }

  method EmitBlockWithOverlap(block: string, before: seq<string>) returns (chunks: seq<string>)
    ensures chunks == Emitted(block, 0, before)
  {
    chunks := before;
    ghost var whole := Emitted(block, 0, before);
    var pos := 0;
    while pos < |block|
      invariant pos <= |block| && Emitted(block, pos, chunks) == whole
    {
      var overlap := OverlapTail(chunks);
      var room := BUDGET - |overlap|;
      var take := if room <= |block| - pos then room else |block| - pos;
      var chunk := overlap + block[pos..pos + take];
      assert take == Taken(block, pos, chunks) && chunk == Window(block, pos, chunks);
      ghost var next, more, all := EmitTurn(block, pos, chunks);
      pos := pos + take;
      chunks := chunks + [chunk];
      assert pos == next && chunks == more && all == whole;
    }
  }

  function Flushed(current: string, chunks: seq<string>): seq<string> {
    if current == "" then chunks else chunks + [current]
  }

  /** `current` with `block` joined on, as if it fitted. */
  function Joined(current: string, block: string): string {
    if current == "" then block else current + SEPARATOR + block
  }

  /** The chunks of `blocks`, given what is packed and finished already. */
  function Packed(blocks: seq<string>, current: string, chunks: seq<string>): seq<string>
    decreases |blocks|
  {
    if blocks == [] then Flushed(current, chunks)
    else if |Joined(current, blocks[0])| <= BUDGET then Packed(blocks[1..], Joined(current, blocks[0]), chunks)
    else Packed(blocks[1..], "", Emitted(blocks[0], 0, Flushed(current, chunks)))
  }

  /** One turn of the packing loop. */
  lemma PackTurn(blocks: seq<string>, i: nat, current: string, chunks: seq<string>)
    returns (next: string, more: seq<string>, all: seq<string>)
    requires i < |blocks|
    ensures all == Packed(blocks[i..], current, chunks) && all == Packed(blocks[i + 1..], next, more)
    ensures if |Joined(current, blocks[i])| <= BUDGET then next == Joined(current, blocks[i]) && more == chunks
            else next == "" && more == Emitted(blocks[i], 0, Flushed(current, chunks))
  {
    assert blocks[i..][0] == blocks[i] && blocks[i..][1..] == blocks[i + 1..];
    next, more := Joined(current, blocks[i]), chunks;
    if |next| > BUDGET {
      next, more := "", Emitted(blocks[i], 0, Flushed(current, chunks));
    }
    all := Packed(blocks[i + 1..], next, more);
  }

  method Pack(blocks: seq<string>) returns (chunks: seq<string>)
    ensures chunks == Packed(blocks, "", [])
  {
    chunks := [];
    var current := "";
    ghost var whole := Packed(blocks, "", []);
    for i := 0 to |blocks|
      invariant Packed(blocks[i..], current, chunks) == whole
    {
      ghost var next, more, all := PackTurn(blocks, i, current, chunks);
      ghost var was, flushed := current, Flushed(current, chunks);
      var joined := |current| + (if current == "" then 0 else |SEPARATOR|) + |blocks[i]|;
      if joined <= BUDGET {
        if current != "" {
          current := current + SEPARATOR;
        }
        current := current + blocks[i];
        assert current == Joined(was, blocks[i]) == next && all == whole;
        continue;
      }
      if current != "" {
        chunks := chunks + [current];
        current := "";
      }
      assert chunks == flushed;
      chunks := EmitBlockWithOverlap(blocks[i], chunks);
      assert chunks == more && all == whole;
    }
    assert blocks[|blocks|..] == [];
    if current != "" {
      chunks := chunks + [current];
    }
  }

  // ---------------------------------------------------------------------------------------------
  // What chunking keeps
  // ---------------------------------------------------------------------------------------------

  /**
   Every chunk is an overlap followed by a non-empty fresh part; the overlap is empty or exactly the last
   `OVERLAP` characters (all of them, if fewer) of the chunk before.
   */
  ghost predicate Cuts(chunks: seq<string>, cuts: seq<nat>) {
    && |cuts| == |chunks|
    && forall i :: 0 <= i < |chunks| ==> ProperCut(chunks[..i], chunks[i], cuts[i])
  }

  ghost predicate ProperCut(before: seq<string>, chunk: string, cut: nat) {
    cut < |chunk| && (cut == 0 || (before != [] && chunk[..cut] == OverlapTail(before)))
  }

  /** The fresh parts in order. */
  ghost function Fresh(chunks: seq<string>, cuts: seq<nat>): string
    requires Cuts(chunks, cuts)
  {
    if chunks == [] then "" else
      var n := |chunks| - 1;
      CutsPrefix(chunks, cuts);
      Fresh(chunks[..n], cuts[..n]) + chunks[n][cuts[n]..]
  }

  lemma CutsPrefix(chunks: seq<string>, cuts: seq<nat>)
    requires Cuts(chunks, cuts) && chunks != []
    ensures Cuts(chunks[..|chunks| - 1], cuts[..|chunks| - 1])
  {
    var n := |chunks| - 1;
    assert forall i :: 0 <= i < n ==> chunks[..n][..i] == chunks[..i];
  }

  lemma CutsAppend(chunks: seq<string>, cuts: seq<nat>, chunk: string, cut: nat)
    requires Cuts(chunks, cuts) && ProperCut(chunks, chunk, cut)
    ensures Cuts(chunks + [chunk], cuts + [cut])
    ensures Fresh(chunks + [chunk], cuts + [cut]) == Fresh(chunks, cuts) + chunk[cut..]
  {
    var all, n := chunks + [chunk], |chunks|;
    assert all[..n] == chunks && (cuts + [cut])[..n] == cuts;
    assert forall i :: 0 <= i < n ==> all[..i] == chunks[..i];
  }

  /** Nothing visible is lost, added or reordered. */
  ghost predicate Lossless(text: string, chunks: seq<string>) {
    exists cuts :: Cuts(chunks, cuts) && Visible(Fresh(chunks, cuts)) == Visible(text)
  }

  lemma WindowCut(block: string, pos: nat, chunks: seq<string>)
    requires pos < |block|
    ensures var chunk, cut := Window(block, pos, chunks), |OverlapTail(chunks)|;
            ProperCut(chunks, chunk, cut) && chunk[cut..] == block[pos..pos + Taken(block, pos, chunks)]
  {
    var chunk, cut := Window(block, pos, chunks), |OverlapTail(chunks)|;
    assert chunk[..cut] == OverlapTail(chunks);
  }

  lemma SliceSplits(before: string, block: string, i: nat, j: nat)
    requires i <= j <= |block|
    ensures before + block[i..j] + block[j..] == before + block[i..]
  {
  }

  /** The overlaps of the chunks of `Emitted`, by construction. */
  function EmittedCuts(block: string, pos: nat, chunks: seq<string>, cuts: seq<nat>): seq<nat>
    requires pos <= |block|
    decreases |block| - pos
  {
    if pos == |block| then cuts
    else
      EmittedCuts(block, pos + Taken(block, pos, chunks), chunks + [Window(block, pos, chunks)],
        cuts + [|OverlapTail(chunks)|])
  }

  function FlushedCuts(current: string, cuts: seq<nat>): seq<nat> {
    if current == "" then cuts else cuts + [0]
  }

  /** The overlaps of the chunks of `Packed`: windows carry one, flushed chunks do not. */
  function PackedCuts(blocks: seq<string>, current: string, chunks: seq<string>, cuts: seq<nat>): seq<nat>
    decreases |blocks|
  {
    if blocks == [] then FlushedCuts(current, cuts)
    else if |Joined(current, blocks[0])| <= BUDGET then
      PackedCuts(blocks[1..], Joined(current, blocks[0]), chunks, cuts)
    else
      var flushed := Flushed(current, chunks);
      PackedCuts(blocks[1..], "", Emitted(blocks[0], 0, flushed),
        EmittedCuts(blocks[0], 0, flushed, FlushedCuts(current, cuts)))
  }

  /** How much of each chunk of a long text is overlap. */
  function CutsOf(text: string): seq<nat> {
    PackedCuts(SplitIntoBlocks(text), "", [], [])
  }

  lemma {:induction false} EmittedFresh(block: string, pos: nat, chunks: seq<string>, cuts: seq<nat>)
    returns (more: seq<nat>)
    requires pos <= |block| && Cuts(chunks, cuts)
    ensures more == EmittedCuts(block, pos, chunks, cuts) && Cuts(Emitted(block, pos, chunks), more)
    ensures Fresh(Emitted(block, pos, chunks), more) == Fresh(chunks, cuts) + block[pos..]
    decreases |block| - pos
  {
    if pos == |block| {
      more := cuts;
      NothingLeft(Fresh(chunks, cuts), block);
    } else {
      var end, next, nextCuts := WindowFresh(block, pos, chunks, cuts);
      EmittedStep(block, pos, chunks, end, next, cuts, nextCuts);
      more := EmittedFresh(block, end, next, nextCuts);
    }
  }

  lemma NothingLeft(before: string, block: string)
    ensures before + block[|block|..] == before
  {
  }

  lemma EmittedStep(block: string, pos: nat, chunks: seq<string>, end: nat, next: seq<string>, cuts: seq<nat>,
                    nextCuts: seq<nat>)
    requires pos < |block| && end == pos + Taken(block, pos, chunks) && next == chunks + [Window(block, pos, chunks)]
    requires nextCuts == cuts + [|OverlapTail(chunks)|]
    ensures Emitted(block, pos, chunks) == Emitted(block, end, next)
    ensures EmittedCuts(block, pos, chunks, cuts) == EmittedCuts(block, end, next, nextCuts)
  {
  }

  /** One window moves text from the block to the fresh parts. */
  lemma WindowFresh(block: string, pos: nat, chunks: seq<string>, cuts: seq<nat>)
    returns (end: nat, next: seq<string>, nextCuts: seq<nat>)
    requires pos < |block| && Cuts(chunks, cuts)
    ensures pos < end <= |block| && Cuts(next, nextCuts)
    ensures end == pos + Taken(block, pos, chunks) && next == chunks + [Window(block, pos, chunks)]
    ensures nextCuts == cuts + [|OverlapTail(chunks)|]
    ensures Fresh(next, nextCuts) + block[end..] == Fresh(chunks, cuts) + block[pos..]
  {
    var chunk, cut: nat := Window(block, pos, chunks), |OverlapTail(chunks)|;
    end := pos + Taken(block, pos, chunks);
    next, nextCuts := chunks + [chunk], cuts + [cut];
    WindowCut(block, pos, chunks);
    CutsAppend(chunks, cuts, chunk, cut);
    FreshAdvances(Fresh(chunks, cuts), chunk[cut..], Fresh(next, nextCuts), block, pos, end);
  }

  lemma FreshAdvances(before: string, taken: string, after: string, block: string, i: nat, j: nat)
    requires i <= j <= |block| && taken == block[i..j] && after == before + taken
    ensures after + block[j..] == before + block[i..]
  {
    SliceSplits(before, block, i, j);
  }

  lemma FlushedFresh(current: string, chunks: seq<string>, cuts: seq<nat>) returns (more: seq<nat>)
    requires Cuts(chunks, cuts)
    ensures more == FlushedCuts(current, cuts) && Cuts(Flushed(current, chunks), more)
    ensures Fresh(Flushed(current, chunks), more) == Fresh(chunks, cuts) + current
  {
    more := cuts;
    if current != "" {
      CutsAppend(chunks, cuts, current, 0);
      more := cuts + [0];
    }
  }

  lemma JoinedVisible(current: string, block: string)
    ensures Visible(Joined(current, block)) == Visible(current) + Visible(block)
  {
    if current != "" {
      VisibleConcat(current + SEPARATOR, block);
      VisibleConcat(current, SEPARATOR);
      VisibleBlank(SEPARATOR);
    }
  }

  lemma {:induction false} PackedFresh(blocks: seq<string>, current: string, chunks: seq<string>, cuts: seq<nat>)
    returns (more: seq<nat>)
    requires Cuts(chunks, cuts)
    ensures more == PackedCuts(blocks, current, chunks, cuts) && Cuts(Packed(blocks, current, chunks), more)
    ensures Visible(Fresh(Packed(blocks, current, chunks), more)) ==
            Visible(Fresh(chunks, cuts)) + (Visible(current) + Visible(Concat(blocks)))
    decreases |blocks|
  {
    if blocks == [] {
      more := FlushedFresh(current, chunks, cuts);
      VisibleConcat(Fresh(chunks, cuts), current);
    } else {
      var block, rest := blocks[0], blocks[1..];
      VisibleConcat(block, Concat(rest));
      if |Joined(current, block)| <= BUDGET {
        JoinedVisible(current, block);
        more := PackedFresh(rest, Joined(current, block), chunks, cuts);
        Regroup(Visible(Fresh(chunks, cuts)), Visible(current), Visible(block), Visible(Concat(rest)));
      } else {
        var emitted, emittedCuts := FlushAndEmit(block, current, chunks, cuts);
        more := PackedFresh(rest, "", emitted, emittedCuts);
        Regroup(Visible(Fresh(chunks, cuts)), Visible(current), Visible(block), Visible(Concat(rest)));
        assert Visible("") + Visible(Concat(rest)) == Visible(Concat(rest));
      }
    }
  }

  lemma FlushAndEmit(block: string, current: string, chunks: seq<string>, cuts: seq<nat>)
    returns (emitted: seq<string>, more: seq<nat>)
    requires Cuts(chunks, cuts)
    ensures emitted == Emitted(block, 0, Flushed(current, chunks)) && Cuts(emitted, more)
    ensures more == EmittedCuts(block, 0, Flushed(current, chunks), FlushedCuts(current, cuts))
    ensures Visible(Fresh(emitted, more)) == Visible(Fresh(chunks, cuts)) + (Visible(current) + Visible(block))
  {
    var flushed := Flushed(current, chunks);
    var flushedCuts := FlushedFresh(current, chunks, cuts);
    emitted := Emitted(block, 0, flushed);
    more := EmittedFresh(block, 0, flushed, flushedCuts);
    assert block[0..] == block;
    VisibleConcat(Fresh(flushed, flushedCuts), block);
    VisibleConcat(Fresh(chunks, cuts), current);
    Regroup([], Visible(Fresh(chunks, cuts)), Visible(current), Visible(block));
  }

  lemma PackedIsLossless(text: string)
    ensures Lossless(text, Packed(SplitIntoBlocks(text), "", []))
  {
    var cuts := PackedFresh(SplitIntoBlocks(text), "", [], []);
    SplitIntoBlocksKeepsVisible(text);
  }

  lemma WholeIsLossless(text: string)
    ensures Blank(text) ==> Lossless(text, [])
    ensures text != "" ==> Lossless(text, [text])
  {
    VisibleBlank(text);
    IsLossless(text, [], []);
    if text != "" {
      SingleFresh(text);
      IsLossless(text, [text], [0]);
    }
  }

  lemma IsLossless(text: string, chunks: seq<string>, cuts: seq<nat>)
    requires Cuts(chunks, cuts)
    ensures Visible(Fresh(chunks, cuts)) == Visible(text) ==> Lossless(text, chunks)
  {
  }

  lemma SingleFresh(text: string)
    requires text != ""
    ensures Cuts([text], [0]) && Fresh([text], [0]) == text
  {
    var chunks, cuts: seq<nat> := [text], [0];
    assert ProperCut(chunks[..0], chunks[0], cuts[0]);
    assert Cuts(chunks, cuts);
    assert chunks[..0] == [] && cuts[..0] == [] && chunks[0][cuts[0]..] == text;
  }

  // ---------------------------------------------------------------------------------------------
  // Sizes and number of chunks
  // ---------------------------------------------------------------------------------------------

  predicate Sized(chunks: seq<string>) {
    forall c :: c in chunks ==> 1 <= |c| <= BUDGET
  }

  lemma {:induction false} EmittedBounds(block: string, pos: nat, chunks: seq<string>)
    requires pos <= |block|
    ensures Sized(chunks) ==> Sized(Emitted(block, pos, chunks))
    ensures (BUDGET - OVERLAP) * (|Emitted(block, pos, chunks)| - |chunks|) <= |block| - pos + (BUDGET - OVERLAP) - 1
    decreases |block| - pos
  {
    if pos < |block| {
      var next, more, all := EmitTurn(block, pos, chunks);
      assert Sized(chunks) ==> Sized(more);
      EmittedBounds(block, next, more);
      assert |more| == |chunks| + 1 && (next == |block| || next >= pos + (BUDGET - OVERLAP));
      assert (BUDGET - OVERLAP) * (|all| - |chunks|) == (BUDGET - OVERLAP) * (|all| - |more|) + (BUDGET - OVERLAP);
    }
  }

  lemma {:induction false} PackedBounded(blocks: seq<string>, current: string, chunks: seq<string>)
    requires Sized(chunks) && |current| <= BUDGET
    ensures Sized(Packed(blocks, current, chunks))
    ensures 500 * |Packed(blocks, current, chunks)| <=
            500 * |chunks| + (if current == "" then 0 else 500) + 500 * |blocks| + |Concat(blocks)|
    decreases |blocks|
  {
    if blocks != [] {
      var block, rest, flushed := blocks[0], blocks[1..], Flushed(current, chunks);
      if |Joined(current, block)| <= BUDGET {
        PackedBounded(rest, Joined(current, block), chunks);
      } else {
        EmittedBounds(block, 0, flushed);
        PackedBounded(rest, "", Emitted(block, 0, flushed));
      }
    }
  }

  /** At most one chunk per block, plus one for every 500 characters of block text. */
  lemma PackedBounds(text: string)
    ensures Sized(Packed(SplitIntoBlocks(text), "", []))
    ensures |Packed(SplitIntoBlocks(text), "", [])| <=
            |SplitIntoBlocks(text)| + |Concat(SplitIntoBlocks(text))| / (BUDGET - OVERLAP)
  {
    PackedBounded(SplitIntoBlocks(text), "", []);
  }

  lemma HasBlocks(text: string)
    ensures !Blank(text) ==> SplitIntoBlocks(text) != []
  {
    SplitIntoBlocksKeepsVisible(text);
    VisibleBlank(text);
  }

  /** `chunk_text` */
  method ChunkText(text: string) returns (chunks: seq<string>)
    ensures Blank(text) ==> chunks == []
    ensures !Blank(text) && |text| <= BUDGET ==> chunks == [text]
    ensures |text| > BUDGET && !Blank(text) ==> chunks == Packed(SplitIntoBlocks(text), "", [])
    ensures Lossless(text, chunks)
    ensures Sized(chunks)
    ensures |chunks| <= |SplitIntoBlocks(text)| + |Concat(SplitIntoBlocks(text))| / (BUDGET - OVERLAP)
  {
    TrimKeepsVisible(text);
    WholeIsLossless(text);
    HasBlocks(text);
    if Trim(text) == "" {
      return [];
    }
    if |text| <= BUDGET {
      return [text];
    }
    chunks := Pack(SplitIntoBlocks(text));
    PackedIsLossless(text);
    PackedBounds(text);
  }
}
