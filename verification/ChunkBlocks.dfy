/**
 Where the chunks of a long text come from: which blocks a text has, that packed blocks split back, and which
 blocks or pieces of a block each chunk holds.
 */
module ChunkBlocks {
  import opened Chunk
  import opened Text

  // ---------------------------------------------------------------------------------------------
  // No block holds a blank line
  // ---------------------------------------------------------------------------------------------

  ghost predicate Holds(s: string, t: string) {
    exists i :: 0 <= i <= |s| && t <= s[i..]
  }

  ghost predicate NoneHolds(parts: seq<string>, t: string) {
    forall p :: p in parts ==> !Holds(p, t)
  }

  lemma SliceHolds(s: string, i: nat, j: nat, t: string)
    requires i <= j <= |s|
    ensures Holds(s[i..j], t) ==> Holds(s, t)
  {
    if Holds(s[i..j], t) {
      var k :| 0 <= k <= |s[i..j]| && t <= s[i..j][k..];
      assert s[i..j][k..] <= s[i + k..];
    }
  }

  lemma {:induction false} SplitStarts(text: string, sep: string)
    requires sep != ""
    ensures Split(text, sep)[0] <= text
    decreases |text|
  {
    if |text| >= |sep| && text[..|sep|] != sep {
      SplitStarts(text[1..], sep);
    }
  }

  lemma SliceAfter(text: string, first: string)
    requires text != "" && first <= text[1..]
    ensures [text[0]] + first == text[0..1 + |first|]
  {
  }

  /** The parts between the separators are slices of the text. */
  lemma {:induction false} SplitSlices(text: string, sep: string, part: string) returns (i: nat, j: nat)
    requires sep != "" && part in Split(text, sep)
    ensures i <= j <= |text| && part == text[i..j]
    decreases |text|
  {
    i, j := 0, 0;
    if |text| < |sep| {
      j := |text|;
    } else if text[..|sep|] == sep {
      if part != "" {
        i, j := SplitSlices(text[|sep|..], sep, part);
        i, j := SliceOf(text, |sep|, i, j);
      }
    } else {
      var rest := Split(text[1..], sep);
      if part in rest[1..] {
        i, j := SplitSlices(text[1..], sep, part);
        i, j := SliceOf(text, 1, i, j);
      } else {
        SplitStarts(text[1..], sep);
        SliceAfter(text, rest[0]);
        j := 1 + |rest[0]|;
      }
    }
  }

  lemma SliceOf(text: string, from: nat, i: nat, j: nat) returns (k: nat, l: nat)
    requires from <= |text| && i <= j <= |text| - from
    ensures k <= l <= |text| && text[k..l] == text[from..][i..j]
  {
    k, l := from + i, from + j;
  }

  lemma SplitKeepsNone(text: string, sep: string, t: string)
    requires sep != "" && !Holds(text, t)
    ensures NoneHolds(Split(text, sep), t)
  {
    forall p | p in Split(text, sep) ensures !Holds(p, t) {
      var i, j := SplitSlices(text, sep, p);
      SliceHolds(text, i, j, t);
    }
  }

  lemma {:induction false} SplitLeavesNone(text: string, sep: string)
    requires sep != ""
    ensures NoneHolds(Split(text, sep), sep)
    decreases |text|
  {
    if |text| < |sep| {
    } else if text[..|sep|] == sep {
      SplitLeavesNone(text[|sep|..], sep);
    } else {
      var rest := Split(text[1..], sep);
      SplitLeavesNone(text[1..], sep);
      assert !Holds(rest[0], sep);
      FirstLeavesNone(text, sep, rest[0]);
    }
  }

  lemma FirstLeavesNone(text: string, sep: string, first: string)
    requires sep != "" && |text| >= |sep| && text[..|sep|] != sep
    requires first == Split(text[1..], sep)[0] && !Holds(first, sep)
    ensures !Holds([text[0]] + first, sep)
  {
    var all := [text[0]] + first;
    SplitStarts(text[1..], sep);
    forall k | 0 <= k <= |all| ensures !(sep <= all[k..]) {
      if k == 0 {
        assert all <= text;
      } else {
        assert all[k..] == first[k - 1..];
      }
    }
  }

  lemma {:induction false} SplitEachLeavesNone(parts: seq<string>, sep: string, t: string)
    requires sep != "" && NoneHolds(parts, t)
    ensures NoneHolds(SplitEach(parts, sep), t) && NoneHolds(SplitEach(parts, sep), sep)
  {
    if parts != [] {
      SplitKeepsNone(parts[0], sep, t);
      SplitLeavesNone(parts[0], sep);
      SplitEachLeavesNone(parts[1..], sep, t);
    }
  }

  lemma {:induction false} TrimStartIsSlice(s: string) returns (i: nat)
    ensures i <= |s| && TrimStart(s) == s[i..]
  {
    i := 0;
    if s != [] && IsWhitespace(s[0]) {
      i := TrimStartIsSlice(s[1..]);
      i := i + 1;
    }
  }

  lemma TrimHolds(s: string, t: string)
    ensures Holds(Trim(s), t) ==> Holds(s, t)
  {
    var i := TrimStartIsSlice(s);
    assert Trim(s) == s[i..i + |Trim(s)|];
    SliceHolds(s, i, i + |Trim(s)|, t);
  }

  lemma {:induction false} BlocksHoldNone(parts: seq<string>, t: string)
    requires NoneHolds(parts, t)
    ensures NoneHolds(Blocks(parts), t)
  {
    if parts != [] {
      TrimHolds(parts[0], t);
      BlocksHoldNone(parts[1..], t);
    }
  }

  /** A text without a blank line in it, of either kind, that neither begins nor ends with whitespace. */
  ghost predicate IsBlock(b: string) {
    b != "" && Trim(b) == b && !Holds(b, "\n\n") && !Holds(b, "\r\n\r\n")
  }

  ghost predicate AreBlocks(blocks: seq<string>) {
    forall i :: 0 <= i < |blocks| ==> IsBlock(blocks[i])
  }

  /** No block of a text has a blank line left in it, whichever line ends the text uses. */
  lemma BlocksOfText(text: string)
    ensures AreBlocks(SplitIntoBlocks(text))
  {
    var parts := Split(text, SEPARATOR);
    SplitLeavesNone(text, SEPARATOR);
    SplitEachLeavesNone(parts, CRLF_BLANK, SEPARATOR);
    BlocksHoldNone(SplitEach(parts, CRLF_BLANK), SEPARATOR);
    BlocksHoldNone(SplitEach(parts, CRLF_BLANK), CRLF_BLANK);
    SplitIntoBlocksKeepsVisible(text);
    forall i | 0 <= i < |SplitIntoBlocks(text)| ensures IsBlock(SplitIntoBlocks(text)[i]) {
      assert SplitIntoBlocks(text)[i] in SplitIntoBlocks(text);
    }
  }

  // ---------------------------------------------------------------------------------------------
  // Packed blocks split back
  // ---------------------------------------------------------------------------------------------

  /** The blocks with a blank line between every two. */
  function Paragraphs(blocks: seq<string>): string {
    if blocks == [] then ""
    else if |blocks| == 1 then blocks[0]
    else Paragraphs(blocks[..|blocks| - 1]) + "\n\n" + blocks[|blocks| - 1]
  }

  lemma {:induction false} ParagraphsFirst(blocks: seq<string>)
    requires |blocks| > 1
    ensures Paragraphs(blocks) == blocks[0] + "\n\n" + Paragraphs(blocks[1..])
  {
    var n := |blocks| - 1;
    assert blocks[..n][1..] == blocks[1..][..n - 1] && blocks[1..][n - 1] == blocks[n];
    if n > 1 {
      ParagraphsFirst(blocks[..n]);
      assert Paragraphs(blocks[1..]) == Paragraphs(blocks[..n][1..]) + "\n\n" + blocks[n];
      Around(blocks[0], Paragraphs(blocks[..n][1..]), blocks[n]);
    }
  }

  lemma Around(a: string, b: string, c: string)
    ensures (a + "\n\n" + b) + "\n\n" + c == a + "\n\n" + (b + "\n\n" + c)
  {
  }

  /** Nothing is cut inside a block, nor across its end. */
  lemma {:induction false} SplitAfterBlock(a: string, b: string)
    requires !Holds(a, "\n\n") && (a != "" ==> a[|a| - 1] != '\n')
    ensures Split(a + "\n\n" + b, "\n\n") == [a] + Split(b, "\n\n")
  {
    var s, sep := a + "\n\n" + b, "\n\n";
    if a == "" {
      assert s[..2] == sep && s[2..] == b;
    } else {
      assert s[..2] != sep by {
        assert !(sep <= a[0..]) && a[0..] == a;
        assert s[..2][0] == a[0] && (|a| > 1 ==> s[..2] == a[..2]);
      }
      SliceHolds(a, 1, |a|, sep);
      assert a[1..] == a[1..|a|];
      SplitAfterBlock(a[1..], b);
      assert s[1..] == a[1..] + "\n\n" + b;
      assert a == [a[0]] + a[1..];
    }
  }

  lemma BlockEnds(b: string)
    requires IsBlock(b)
    ensures b[|b| - 1] != '\n'
  {
    assert Trim(b)[|b| - 1] == b[|b| - 1];
  }

  lemma {:induction false} SplitHoldsNone(s: string, sep: string)
    requires sep != "" && !Holds(s, sep)
    ensures Split(s, sep) == [s]
    decreases |s|
  {
    if |s| >= |sep| {
      assert !(sep <= s[0..]) && s[0..] == s;
      SliceHolds(s, 1, |s|, sep);
      assert s[1..|s|] == s[1..];
      SplitHoldsNone(s[1..], sep);
      assert s == [s[0]] + s[1..];
    }
  }

  lemma {:induction false} SplitEachHoldsNone(parts: seq<string>, sep: string)
    requires sep != "" && NoneHolds(parts, sep)
    ensures SplitEach(parts, sep) == parts
  {
    if parts != [] {
      SplitHoldsNone(parts[0], sep);
      SplitEachHoldsNone(parts[1..], sep);
      assert parts == [parts[0]] + parts[1..];
    }
  }

  lemma {:induction false} BlocksOfBlocks(blocks: seq<string>)
    requires AreBlocks(blocks)
    ensures Blocks(blocks) == blocks
  {
    if blocks != [] {
      assert IsBlock(blocks[0]);
      BlocksOfBlocks(blocks[1..]);
      assert blocks == [blocks[0]] + blocks[1..];
    }
  }

  lemma {:induction false} SplitParagraphs(blocks: seq<string>)
    requires blocks != [] && AreBlocks(blocks)
    ensures Split(Paragraphs(blocks), "\n\n") == blocks
  {
    assert IsBlock(blocks[0]);
    BlockEnds(blocks[0]);
    if |blocks| == 1 {
      SplitHoldsNone(blocks[0], "\n\n");
    } else {
      ParagraphsFirst(blocks);
      SplitAfterBlock(blocks[0], Paragraphs(blocks[1..]));
      SplitParagraphs(blocks[1..]);
      assert blocks == [blocks[0]] + blocks[1..];
    }
  }

  /** Blocks with a blank line between every two split back into exactly these blocks. */
  lemma ParagraphsSplitBack(blocks: seq<string>)
    requires AreBlocks(blocks)
    ensures SplitIntoBlocks(Paragraphs(blocks)) == blocks
  {
    if blocks == [] {
      assert Split("", SEPARATOR) == [""] && Split("", CRLF_BLANK) == [""];
      assert [""][1..] == [];
      assert SplitEach([""], CRLF_BLANK) == [""];
      assert Trim("") == "";
    } else {
      SplitParagraphs(blocks);
      forall p | p in blocks ensures !Holds(p, CRLF_BLANK) {
        var i :| 0 <= i < |blocks| && blocks[i] == p;
        assert IsBlock(blocks[i]);
      }
      SplitEachHoldsNone(blocks, CRLF_BLANK);
      BlocksOfBlocks(blocks);
    }
  }

  // ---------------------------------------------------------------------------------------------
  // What each chunk holds
  // ---------------------------------------------------------------------------------------------

  /** What a chunk holds: the blocks from one to before another, or a piece of one block. */
  datatype Source = Whole(from: nat, to: nat) | Piece(block: nat, start: nat, end: nat)

  /** A place between characters of the blocks. */
  datatype Place = Place(block: nat, pos: nat)

  function Begin(s: Source): Place {
    match s
    case Whole(i, _) => Place(i, 0)
    case Piece(i, p, _) => Place(i, p)
  }

  function After(blocks: seq<string>, s: Source): Place {
    match s
    case Whole(_, j) => Place(j, 0)
    case Piece(i, _, q) => if i < |blocks| && q < |blocks[i]| then Place(i, q) else Place(i + 1, 0)
  }

  /** How the chunks made so far end: with which text, at which place, and whether with whole blocks. */
  datatype End = End(text: string, place: Place, whole: bool)

  function EndOf(blocks: seq<string>, chunks: seq<string>, sources: seq<Source>): End {
    if chunks == [] || sources == [] then End("", Place(0, 0), false)
    else
      var s := sources[|sources| - 1];
      End(chunks[|chunks| - 1], After(blocks, s), s.Whole?)
  }

  /**
   The next chunk begins where the ones before end. Whole blocks have a blank line between every two, and the
   next block would not fit. A piece follows the last 100 characters of the chunk before, or all of them if
   fewer, and it fills its chunk unless the block ends; a block is cut only if it fits neither with what is
   packed before it nor by itself.
   */
  ghost predicate Made(blocks: seq<string>, before: End, chunk: string, s: Source) {
    && Begin(s) == before.place && |chunk| <= 600
    && match s
       case Whole(i, j) => IsRun(blocks, i, j, chunk)
       case Piece(i, p, q) =>
         IsPiece(blocks, i, p, q, before.text, chunk) && (p == 0 && !before.whole ==> |blocks[i]| > 600)
  }

  ghost predicate IsRun(blocks: seq<string>, i: nat, j: nat, chunk: string) {
    i < j <= |blocks| && chunk == Paragraphs(blocks[i..j]) && (j < |blocks| ==> |chunk| + 2 + |blocks[j]| > 600)
  }

  ghost predicate IsPiece(blocks: seq<string>, i: nat, p: nat, q: nat, before: string, chunk: string) {
    && i < |blocks| && p < q <= |blocks[i]| && q - p <= |chunk|
    && IsTail(before, chunk[..|chunk| - (q - p)]) && chunk[|chunk| - (q - p)..] == blocks[i][p..q]
    && (q < |blocks[i]| ==> |chunk| == 600)
  }

  /** The last 100 characters. */
  ghost predicate IsTail(s: string, tail: string) {
    |tail| == (if |s| < 100 then |s| else 100) && s[|s| - |tail|..] == tail
  }

  ghost predicate AllMade(blocks: seq<string>, chunks: seq<string>, sources: seq<Source>) {
    && |sources| == |chunks|
    && forall k :: 0 <= k < |chunks| ==> Made(blocks, EndOf(blocks, chunks[..k], sources[..k]), chunks[k], sources[k])
  }

  lemma MadeSnoc(blocks: seq<string>, chunks: seq<string>, sources: seq<Source>, chunk: string, s: Source)
    returns (all: seq<string>, from: seq<Source>)
    requires AllMade(blocks, chunks, sources) && Made(blocks, EndOf(blocks, chunks, sources), chunk, s)
    ensures all == chunks + [chunk] && from == sources + [s]
    ensures AllMade(blocks, all, from) && EndOf(blocks, all, from) == End(chunk, After(blocks, s), s.Whole?)
  {
    all, from := chunks + [chunk], sources + [s];
    forall k | 0 <= k < |all| ensures Made(blocks, EndOf(blocks, all[..k], from[..k]), all[k], from[k]) {
      SnocAt(blocks, chunks, sources, chunk, s, k);
    }
  }

  lemma SnocAt(blocks: seq<string>, chunks: seq<string>, sources: seq<Source>, chunk: string, s: Source, k: nat)
    requires |chunks| == |sources| && k <= |chunks|
    ensures EndOf(blocks, (chunks + [chunk])[..k], (sources + [s])[..k]) == EndOf(blocks, chunks[..k], sources[..k])
    ensures k == |chunks| ==> chunks[..k] == chunks && sources[..k] == sources
  {
  }

  lemma TailOfLast(chunks: seq<string>)
    ensures IsTail(if chunks == [] then "" else chunks[|chunks| - 1], OverlapTail(chunks))
  {
  }

  lemma TailAndPart(tail: string, part: string) returns (chunk: string)
    ensures chunk == tail + part && |chunk| == |tail| + |part|
    ensures chunk[..|chunk| - |part|] == tail && chunk[|chunk| - |part|..] == part
  {
    chunk := tail + part;
  }

  lemma WindowReads(block: string, pos: nat, chunks: seq<string>) returns (window: string, end: nat)
    requires pos < |block|
    ensures window == Window(block, pos, chunks) && end == pos + Taken(block, pos, chunks)
    ensures pos < end <= |block| && end - pos <= |window| <= 600 && (end < |block| ==> |window| == 600)
    ensures IsTail(if chunks == [] then "" else chunks[|chunks| - 1], window[..|window| - (end - pos)])
    ensures window[|window| - (end - pos)..] == block[pos..end]
  {
    end := pos + Taken(block, pos, chunks);
    window := TailAndPart(OverlapTail(chunks), block[pos..end]);
    TailOfLast(chunks);
  }

  /** The window loop has reached `pos` in block `i`. */
  ghost predicate Windowing(blocks: seq<string>, i: nat, pos: nat, chunks: seq<string>, sources: seq<Source>) {
    && i < |blocks| && pos < |blocks[i]|
    && AllMade(blocks, chunks, sources) && EndOf(blocks, chunks, sources).place == Place(i, pos)
    && (pos == 0 && !EndOf(blocks, chunks, sources).whole ==> |blocks[i]| > 600)
  }

  lemma WindowMade(blocks: seq<string>, i: nat, pos: nat, chunks: seq<string>, before: End)
    returns (window: string, s: Source)
    requires i < |blocks| && pos < |blocks[i]| && before.place == Place(i, pos)
    requires pos == 0 && !before.whole ==> |blocks[i]| > 600
    requires before.text == if chunks == [] then "" else chunks[|chunks| - 1]
    ensures window == Window(blocks[i], pos, chunks) && s == Piece(i, pos, pos + Taken(blocks[i], pos, chunks))
    ensures Made(blocks, before, window, s)
  {
    var end;
    window, end := WindowReads(blocks[i], pos, chunks);
    s := Piece(i, pos, end);
  }

  lemma WindowTurn(blocks: seq<string>, i: nat, pos: nat, chunks: seq<string>, sources: seq<Source>)
    returns (next: nat, all: seq<string>, more: seq<Source>)
    requires Windowing(blocks, i, pos, chunks, sources)
    ensures pos < next <= |blocks[i]| && Emitted(blocks[i], pos, chunks) == Emitted(blocks[i], next, all)
    ensures if next < |blocks[i]| then Windowing(blocks, i, next, all, more)
            else AllMade(blocks, all, more) && EndOf(blocks, all, more).place == Place(i + 1, 0)
    ensures !EndOf(blocks, all, more).whole
  {
    var window, s := WindowMade(blocks, i, pos, chunks, EndOf(blocks, chunks, sources));
    var whole;
    next, all, whole := EmitTurn(blocks[i], pos, chunks);
    all, more := MadeSnoc(blocks, chunks, sources, window, s);
  }

  lemma {:induction false} WindowsMade(blocks: seq<string>, i: nat, pos: nat, chunks: seq<string>,
                                       sources: seq<Source>) returns (all: seq<string>, more: seq<Source>)
    requires Windowing(blocks, i, pos, chunks, sources)
    ensures all == Emitted(blocks[i], pos, chunks)
    ensures AllMade(blocks, all, more) && EndOf(blocks, all, more).place == Place(i + 1, 0)
    ensures !EndOf(blocks, all, more).whole
    decreases |blocks[i]| - pos
  {
    var next;
    next, all, more := WindowTurn(blocks, i, pos, chunks, sources);
    if next < |blocks[i]| {
      all, more := WindowsMade(blocks, i, next, all, more);
    }
  }

  /** What is being packed: the blocks from `from` to before `i`, which fit together. */
  ghost predicate Packing(blocks: seq<string>, from: nat, i: nat, current: string) {
    from <= i <= |blocks| && current == Paragraphs(blocks[from..i]) && |current| <= 600
  }

  lemma PackOne(blocks: seq<string>, from: nat, i: nat, current: string)
    requires AreBlocks(blocks) && i < |blocks| && Packing(blocks, from, i, current)
    ensures current == "" <==> from == i
    ensures |Joined(current, blocks[i])| <= 600 ==> Packing(blocks, from, i + 1, Joined(current, blocks[i]))
  {
    PackingSome(blocks, from, i, current);
    var group := blocks[from..i + 1];
    assert group[..|group| - 1] == blocks[from..i];
  }

  lemma PackingSome(blocks: seq<string>, from: nat, i: nat, current: string)
    requires AreBlocks(blocks) && Packing(blocks, from, i, current)
    ensures current == "" <==> from == i
  {
    assert from < i ==> IsBlock(blocks[from]) && blocks[from..i][0] == blocks[from];
  }

  /** Between two turns of the packing loop: only a windowed block leaves a chunk behind. */
  ghost predicate Turn(blocks: seq<string>, from: nat, i: nat, current: string, chunks: seq<string>,
                       sources: seq<Source>) {
    && Packing(blocks, from, i, current)
    && AllMade(blocks, chunks, sources) && EndOf(blocks, chunks, sources).place == Place(from, 0)
    && !EndOf(blocks, chunks, sources).whole
  }

  lemma FlushMade(blocks: seq<string>, from: nat, i: nat, current: string, chunks: seq<string>, sources: seq<Source>)
    returns (flushed: seq<string>, more: seq<Source>)
    requires AreBlocks(blocks) && Turn(blocks, from, i, current, chunks, sources)
    requires i < |blocks| ==> |Joined(current, blocks[i])| > 600
    ensures flushed == Flushed(current, chunks) && AllMade(blocks, flushed, more)
    ensures EndOf(blocks, flushed, more).place == Place(i, 0)
    ensures i < |blocks| && !EndOf(blocks, flushed, more).whole ==> |blocks[i]| > 600
  {
    PackingSome(blocks, from, i, current);
    flushed, more := Flushed(current, chunks), sources;
    if from < i {
      flushed, more := MadeSnoc(blocks, chunks, sources, current, Whole(from, i));
    }
  }

  lemma JoinMade(blocks: seq<string>, from: nat, i: nat, current: string, chunks: seq<string>, sources: seq<Source>)
    returns (next: string)
    requires AreBlocks(blocks) && Turn(blocks, from, i, current, chunks, sources)
    requires i < |blocks| && |Joined(current, blocks[i])| <= BUDGET
    ensures Turn(blocks, from, i + 1, next, chunks, sources)
    ensures Packed(blocks[i..], current, chunks) == Packed(blocks[i + 1..], next, chunks)
  {
    var done, all;
    next, done, all := PackTurn(blocks, i, current, chunks);
    PackOne(blocks, from, i, current);
  }

  lemma CutMade(blocks: seq<string>, from: nat, i: nat, current: string, chunks: seq<string>, sources: seq<Source>)
    returns (done: seq<string>, more: seq<Source>)
    requires AreBlocks(blocks) && Turn(blocks, from, i, current, chunks, sources)
    requires i < |blocks| && |Joined(current, blocks[i])| > BUDGET
    ensures Turn(blocks, i + 1, i + 1, "", done, more)
    ensures Packed(blocks[i..], current, chunks) == Packed(blocks[i + 1..], "", done)
  {
    var next, all;
    next, done, all := PackTurn(blocks, i, current, chunks);
    var flushed;
    flushed, more := FlushMade(blocks, from, i, current, chunks, sources);
    done, more := BlockMade(blocks, i, flushed, more);
  }

  lemma BlockMade(blocks: seq<string>, i: nat, chunks: seq<string>, sources: seq<Source>)
    returns (done: seq<string>, more: seq<Source>)
    requires AreBlocks(blocks) && i < |blocks| && AllMade(blocks, chunks, sources)
    requires EndOf(blocks, chunks, sources).place == Place(i, 0)
    requires !EndOf(blocks, chunks, sources).whole ==> |blocks[i]| > 600
    ensures done == Emitted(blocks[i], 0, chunks) && Turn(blocks, i + 1, i + 1, "", done, more)
  {
    assert IsBlock(blocks[i]);
    done, more := WindowsMade(blocks, i, 0, chunks, sources);
    assert blocks[i + 1..i + 1] == [];
  }

  lemma {:induction false} PackedMade(blocks: seq<string>, from: nat, i: nat, current: string, chunks: seq<string>,
                                      sources: seq<Source>) returns (all: seq<string>, more: seq<Source>)
    requires AreBlocks(blocks) && Turn(blocks, from, i, current, chunks, sources)
    ensures all == Packed(blocks[i..], current, chunks)
    ensures AllMade(blocks, all, more) && EndOf(blocks, all, more).place == Place(|blocks|, 0)
    decreases |blocks| - i
  {
    if i == |blocks| {
      assert blocks[i..] == [];
      all, more := FlushMade(blocks, from, i, current, chunks, sources);
    } else if |Joined(current, blocks[i])| <= BUDGET {
      var next := JoinMade(blocks, from, i, current, chunks, sources);
      all, more := PackedMade(blocks, from, i + 1, next, chunks, sources);
    } else {
      var done, upTo := CutMade(blocks, from, i, current, chunks, sources);
      all, more := PackedMade(blocks, i + 1, i + 1, "", done, upTo);
    }
  }

  /** A chunk of whole blocks splits back into exactly these blocks. */
  lemma RunSplitsBack(blocks: seq<string>, i: nat, j: nat, chunk: string)
    requires AreBlocks(blocks) && IsRun(blocks, i, j, chunk)
    ensures SplitIntoBlocks(chunk) == blocks[i..j]
  {
    var run := blocks[i..j];
    forall k | 0 <= k < |run| ensures IsBlock(run[k]) {
      assert run[k] == blocks[i + k];
    }
    ParagraphsSplitBack(run);
  }

  /**
   The chunks of a text go through its blocks from the first to the last without a gap: every chunk is the
   longest run of whole blocks that fits, or the next piece of a block that does not fit.
   */
  lemma ChunksTakeBlocksInOrder(text: string) returns (sources: seq<Source>)
    ensures var blocks := SplitIntoBlocks(text);
            && AreBlocks(blocks) && AllMade(blocks, Packed(blocks, "", []), sources)
            && EndOf(blocks, Packed(blocks, "", []), sources).place == Place(|blocks|, 0)
  {
    var blocks := SplitIntoBlocks(text);
    BlocksOfText(text);
    assert blocks[0..] == blocks && blocks[0..0] == [];
    var all;
    all, sources := PackedMade(blocks, 0, 0, "", [], []);
  }
}
