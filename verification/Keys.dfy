/** Index keys: decimal chunk keys, note keys, and the identities of conflict references and pairs. */
module Keys {
  import opened Text
  import opened Wrappers

  const CHUNK_SEP := '\U{001F}'
  const NOTE_SENTINEL := '\U{001E}'
  const PAIR_SEP := '\U{001E}'
  const USIZE_MAX: nat := 0xFFFF_FFFF_FFFF_FFFF

  // ---------------------------------------------------------------------------------------------
  // Decimal numbers
  // ---------------------------------------------------------------------------------------------

  predicate IsDigit(c: char) {
    '0' <= c <= '9'
  }

  function DigitValue(c: char): (d: nat)
    requires IsDigit(c)
    ensures d < 10
  {
    (c as int) - ('0' as int)
  }

  function DigitChar(d: nat): (c: char)
    requires d < 10
    ensures IsDigit(c) && DigitValue(c) == d
  {
    (d + ('0' as int)) as char
  }

  /** A number as `format!` prints it. */
  function Decimal(n: nat): (s: string)
    ensures s != "" && forall i :: 0 <= i < |s| ==> IsDigit(s[i])
    ensures |s| > 1 ==> s[0] != '0'
  {
    if n < 10 then [DigitChar(n)] else Decimal(n / 10) + [DigitChar(n % 10)]
  }

  predicate Digits(s: string) {
    forall i :: 0 <= i < |s| ==> IsDigit(s[i])
  }

  function Value(s: string): nat
    requires Digits(s)
  {
    if s == "" then 0 else 10 * Value(s[..|s| - 1]) + DigitValue(s[|s| - 1])
  }

  /** `str::parse::<usize>`: an optional `+`, at least one digit, and no overflow. */
  function ParseUsize(s: string): Option<nat> {
    var digits := if s != "" && s[0] == '+' then s[1..] else s;
    if digits != "" && Digits(digits) && Value(digits) <= USIZE_MAX then Some(Value(digits)) else None
  }

  lemma {:induction false} ValueOfDecimal(n: nat)
    ensures Value(Decimal(n)) == n
  {
    if n < 10 {
      assert Decimal(n)[..0] == "";
    } else {
      ValueOfDecimal(n / 10);
      assert Decimal(n)[..|Decimal(n)| - 1] == Decimal(n / 10);
    }
  }

  lemma {:induction false} DecimalOfValue(s: string)
    requires s != "" && Digits(s) && (|s| > 1 ==> s[0] != '0')
    ensures Decimal(Value(s)) == s
    ensures s[0] != '0' ==> Value(s) > 0
  {
    var init, d := s[..|s| - 1], DigitValue(s[|s| - 1]);
    assert s == init + [s[|s| - 1]];
    if init == "" {
      assert Value(s) == d;
    } else {
      DecimalOfValue(init);
      assert Value(s) / 10 == Value(init) && Value(s) % 10 == d;
    }
  }

  // ---------------------------------------------------------------------------------------------
  // Splitting
  // ---------------------------------------------------------------------------------------------

  function SplitOnce(s: string, c: char): Option<(string, string)> {
    var i := IndexOf(s, c);
    if i < |s| then Some((s[..i], s[i + 1..])) else None
  }

  lemma {:induction false} IndexOfFirst(a: string, c: char, b: string)
    requires c !in a
    ensures IndexOf(a + [c] + b, c) == |a|
  {
    if a != "" {
      assert a == [a[0]] + a[1..];
      assert (a + [c] + b)[1..] == a[1..] + [c] + b;
      IndexOfFirst(a[1..], c, b);
    }
  }

  lemma SplitOnceOf(a: string, c: char, b: string)
    requires c !in a
    ensures SplitOnce(a + [c] + b, c) == Some((a, b))
  {
    IndexOfFirst(a, c, b);
    assert (a + [c] + b)[..|a|] == a && (a + [c] + b)[|a| + 1..] == b;
  }

  /** The last separator splits a text in one way. */
  lemma LastSplitUnique(a: string, b: string, c: char, x: string, y: string)
    requires a + [c] + x == b + [c] + y && c !in x && c !in y
    ensures a == b && x == y
  {
    TailNotLonger(a, b, c, x, y);
    TailNotLonger(b, a, c, y, x);
    var s := a + [c] + x;
    assert a == s[..|a|] && b == s[..|b|] && x == s[|a| + 1..] && y == s[|b| + 1..];
  }

  lemma TailNotLonger(a: string, b: string, c: char, x: string, y: string)
    requires a + [c] + x == b + [c] + y && c !in x
    ensures |x| <= |y|
  {
    var s := a + [c] + x;
    assert s[|b|] == c;
    assert forall j :: |a| < j < |s| ==> s[j] == x[j - |a| - 1];
  }

  // ---------------------------------------------------------------------------------------------
  // Chunk and note keys
  // ---------------------------------------------------------------------------------------------

  function EncodeChunkKey(eventId: string, chunkIx: nat): string {
    eventId + [CHUNK_SEP] + Decimal(chunkIx)
  }

  function DecodeChunkKey(key: string): Option<(string, nat)> {
    match SplitOnce(key, CHUNK_SEP)
    case None => None
    case Some((id, text)) =>
      var ix := ParseUsize(text);
      if ix.Some? then Some((id, ix.value)) else None
  }

  function EventIdOf(key: string): string {
    match SplitOnce(key, CHUNK_SEP)
    case None => key
    case Some((id, _)) => id
  }

  function EncodeNoteKey(eventId: string): string {
    [NOTE_SENTINEL] + eventId
  }

  function DecodeNoteKey(key: string): Option<string> {
    if key != "" && key[0] == NOTE_SENTINEL then Some(key[1..]) else None
  }

  /** Encoding then decoding gives the pair back, for every separator-free id and every index. */
  lemma ChunkKeyRoundTrip(eventId: string, chunkIx: nat)
    requires CHUNK_SEP !in eventId && chunkIx <= USIZE_MAX
    ensures DecodeChunkKey(EncodeChunkKey(eventId, chunkIx)) == Some((eventId, chunkIx))
    ensures EventIdOf(EncodeChunkKey(eventId, chunkIx)) == eventId
  {
    SplitOnceOf(eventId, CHUNK_SEP, Decimal(chunkIx));
    ValueOfDecimal(chunkIx);
  }

  /** Where a key decodes, the fold-back key is the decoded id. */
  lemma EventIdAgrees(key: string)
    requires DecodeChunkKey(key).Some?
    ensures EventIdOf(key) == DecodeChunkKey(key).value.0
  {
  }

  predicate PlainIndex(key: string) {
    var text := key[IndexOf(key, CHUNK_SEP)..];
    |text| > 1 && text[1] != '+' && (|text| > 2 ==> text[1] != '0')
  }

  /** Decoding then encoding gives the key back exactly when its index has no `+` and no leading zero. */
  lemma DecodeThenEncode(key: string)
    requires DecodeChunkKey(key).Some?
    ensures var (id, ix) := DecodeChunkKey(key).value;
            EncodeChunkKey(id, ix) == key <==> PlainIndex(key)
  {
    var id, ix, text := KeyParts(key);
    if PlainIndex(key) {
      DecimalOfValue(text);
    } else {
      assert Decimal(ix) != text;
      assert (id + [CHUNK_SEP] + Decimal(ix))[|id| + 1..] == Decimal(ix);
      assert (id + [CHUNK_SEP] + text)[|id| + 1..] == text;
    }
  }

  /** The parts of a key that decodes. */
  lemma KeyParts(key: string) returns (id: string, ix: nat, text: string)
    requires DecodeChunkKey(key).Some?
    ensures DecodeChunkKey(key) == Some((id, ix)) && ParseUsize(text) == Some(ix)
    ensures key == id + [CHUNK_SEP] + text && key[IndexOf(key, CHUNK_SEP)..] == [CHUNK_SEP] + text
  {
    id, text := SplitParts(key, CHUNK_SEP);
    ix := ParseUsize(text).value;
  }

  lemma SplitParts(s: string, c: char) returns (a: string, b: string)
    requires SplitOnce(s, c).Some?
    ensures SplitOnce(s, c) == Some((a, b)) && s == a + [c] + b && |a| == IndexOf(s, c)
    ensures s[IndexOf(s, c)..] == [c] + b
  {
    var i := IndexOf(s, c);
    a, b := s[..i], s[i + 1..];
    assert s[i..] == [s[i]] + s[i + 1..];
  }

  // ---------------------------------------------------------------------------------------------
  // Conflict references
  // ---------------------------------------------------------------------------------------------

  datatype ConflictRef = Note(eventId: string) | Passage(sessionId: string, passageId: nat)

  function DecodeKey(key: string): Option<ConflictRef> {
    match DecodeNoteKey(key)
    case Some(id) => Some(Note(id))
    case None =>
      match DecodeChunkKey(key)
      case Some((session, ix)) => Some(Passage(session, ix))
      case None => None
  }

  function IndexKey(r: ConflictRef): string {
    match r
    case Note(id) => EncodeNoteKey(id)
    case Passage(session, ix) => EncodeChunkKey(session, ix)
  }

  /** Every note id, and passages whose session id neither holds the separator nor starts like a note key. */
  predicate Keyable(r: ConflictRef) {
    match r
    case Note(_) => true
    case Passage(session, ix) => CHUNK_SEP !in session && DecodeNoteKey(session).None? && ix <= USIZE_MAX
  }

  /** One index holds note keys and passage keys; a key decodes to its own reference exactly for these. */
  lemma IndexKeyRoundTrip(r: ConflictRef)
    ensures DecodeKey(IndexKey(r)) == Some(r) <==> Keyable(r)
  {
    if r.Passage? {
      PassageKeyRoundTrip(r.sessionId, r.passageId);
    }
  }

  lemma PassageKeyRoundTrip(session: string, ix: nat)
    ensures var key := EncodeChunkKey(session, ix);
            DecodeNoteKey(key).None? <==> DecodeNoteKey(session).None?
    ensures DecodeChunkKey(EncodeChunkKey(session, ix)) == Some((session, ix)) <==>
            CHUNK_SEP !in session && ix <= USIZE_MAX
  {
    var key := EncodeChunkKey(session, ix);
    assert key[0] == if session == "" then CHUNK_SEP else session[0];
    if CHUNK_SEP !in session {
      SplitOnceOf(session, CHUNK_SEP, Decimal(ix));
      ValueOfDecimal(ix);
    } else if DecodeChunkKey(key).Some? {
      var id, _, _ := KeyParts(key);
      assert CHUNK_SEP !in id;
    }
  }

  function PairKey(r: ConflictRef): string {
    match r
    case Note(id) => "N" + [CHUNK_SEP] + id
    case Passage(session, ix) => "P" + [CHUNK_SEP] + session + [CHUNK_SEP] + Decimal(ix)
  }

  /** Distinct references never share a pair key, whatever characters their ids contain. */
  lemma PairKeyInjective(a: ConflictRef, b: ConflictRef)
    requires PairKey(a) == PairKey(b)
    ensures a == b
  {
    assert PairKey(a)[0] == PairKey(b)[0];
    if a.Note? {
      assert PairKey(a)[2..] == a.eventId && PairKey(b)[2..] == b.eventId;
    } else {
      var x, y := Decimal(a.passageId), Decimal(b.passageId);
      LastSplitUnique("P" + [CHUNK_SEP] + a.sessionId, "P" + [CHUNK_SEP] + b.sessionId, CHUNK_SEP, x, y);
      assert ("P" + [CHUNK_SEP] + a.sessionId)[2..] == a.sessionId;
      assert ("P" + [CHUNK_SEP] + b.sessionId)[2..] == b.sessionId;
      ValueOfDecimal(a.passageId);
      ValueOfDecimal(b.passageId);
    }
  }

  // ---------------------------------------------------------------------------------------------
  // Text order and unordered pairs
  // ---------------------------------------------------------------------------------------------

  /** The order of `str`: bytewise on UTF-8, which is by code point. */
  predicate LexLe(a: string, b: string) {
    a == "" || (b != "" && (a[0] < b[0] || (a[0] == b[0] && LexLe(a[1..], b[1..]))))
  }

  lemma {:induction false} LexTotal(a: string, b: string)
    ensures LexLe(a, b) || LexLe(b, a)
    ensures LexLe(a, b) && LexLe(b, a) ==> a == b
  {
    if a != "" && b != "" && a[0] == b[0] {
      LexTotal(a[1..], b[1..]);
      assert a == [a[0]] + a[1..] && b == [b[0]] + b[1..];
    }
  }

  lemma {:induction false} LexTransitive(a: string, b: string, c: string)
    requires LexLe(a, b) && LexLe(b, c)
    ensures LexLe(a, c)
  {
    if a != "" && a[0] == b[0] == c[0] {
      LexTransitive(a[1..], b[1..], c[1..]);
    }
  }

  /** The order looks at the first character in which the texts differ; a beginning comes before the whole. */
  lemma {:induction false} LexAtFirstDifference(a: string, b: string) returns (i: nat)
    ensures i <= |a| && i <= |b| && a[..i] == b[..i] && (i < |a| && i < |b| ==> a[i] != b[i])
    ensures LexLe(a, b) <==> i == |a| || (i < |b| && a[i] < b[i])
  {
    i := 0;
    if a != "" && b != "" && a[0] == b[0] {
      i := LexAtFirstDifference(a[1..], b[1..]);
      assert a[..i + 1] == [a[0]] + a[1..][..i] && b[..i + 1] == [b[0]] + b[1..][..i];
      i := i + 1;
    }
  }

  function UnorderedPairKey(a: ConflictRef, b: ConflictRef): string {
    var ka, kb := PairKey(a), PairKey(b);
    if LexLe(ka, kb) then ka + [PAIR_SEP] + kb else kb + [PAIR_SEP] + ka
  }

  /** The key of a pair is the key that comes first, U+001E, and the other; notes come before passages. */
  lemma UnorderedPairKeyReads(a: ConflictRef, b: ConflictRef) returns (lo: string, hi: string)
    ensures UnorderedPairKey(a, b) == lo + "\U{001E}" + hi && LexLe(lo, hi)
    ensures (lo == PairKey(a) && hi == PairKey(b)) || (lo == PairKey(b) && hi == PairKey(a))
    ensures a.Note? && b.Passage? ==> lo == PairKey(a) && hi == PairKey(b) && lo != hi
  {
    LexTotal(PairKey(a), PairKey(b));
    lo, hi := PairKey(a), PairKey(b);
    if !LexLe(lo, hi) {
      lo, hi := hi, lo;
    }
    assert a.Note? ==> PairKey(a)[0] == 'N';
    assert b.Passage? ==> PairKey(b)[0] == 'P';
  }

  /** The reference's id does not contain the character that joins two keys. */
  predicate PairSepFree(r: ConflictRef) {
    match r
    case Note(id) => PAIR_SEP !in id
    case Passage(session, _) => PAIR_SEP !in session
  }

  lemma PairKeySepFree(r: ConflictRef)
    requires PairSepFree(r)
    ensures PAIR_SEP !in PairKey(r)
  {
    if r.Passage? {
      assert forall c :: c in Decimal(r.passageId) ==> IsDigit(c);
    }
  }

  /** Both orders give one key, and a key names one unordered pair as long as no id holds the joining character. */
  lemma UnorderedPairKeyExact(a: ConflictRef, b: ConflictRef, c: ConflictRef, d: ConflictRef)
    requires PairSepFree(a) && PairSepFree(b) && PairSepFree(c) && PairSepFree(d)
    ensures UnorderedPairKey(a, b) == UnorderedPairKey(c, d) <==> (a == c && b == d) || (a == d && b == c)
  {
    LexTotal(PairKey(a), PairKey(b));
    if UnorderedPairKey(a, b) == UnorderedPairKey(c, d) {
      var lo := if LexLe(PairKey(a), PairKey(b)) then (a, b) else (b, a);
      var hi := if LexLe(PairKey(c), PairKey(d)) then (c, d) else (d, c);
      PairKeySepFree(lo.0);
      PairKeySepFree(hi.0);
      SplitOnceOf(PairKey(lo.0), PAIR_SEP, PairKey(lo.1));
      SplitOnceOf(PairKey(hi.0), PAIR_SEP, PairKey(hi.1));
      PairKeyInjective(lo.0, hi.0);
      PairKeyInjective(lo.1, hi.1);
    }
  }

  /** An id that does hold it can make two different pairs share a key. */
  lemma PairKeysCollide()
    ensures var a, b := Note("x" + [PAIR_SEP] + "N" + [CHUNK_SEP] + "y"), Note("z");
            var c, d := Note("x"), Note("y" + [PAIR_SEP] + "N" + [CHUNK_SEP] + "z");
            UnorderedPairKey(a, b) == UnorderedPairKey(c, d) && {a, b} !! {c, d}
  {
    var a, b := Note("x" + [PAIR_SEP] + "N" + [CHUNK_SEP] + "y"), Note("z");
    var c, d := Note("x"), Note("y" + [PAIR_SEP] + "N" + [CHUNK_SEP] + "z");
    LexAfterCommon("N" + [CHUNK_SEP], a.eventId, b.eventId);
    LexAfterCommon("N" + [CHUNK_SEP], c.eventId, d.eventId);
    assert UnorderedPairKey(a, b) == PairKey(a) + [PAIR_SEP] + PairKey(b);
    assert UnorderedPairKey(c, d) == PairKey(c) + [PAIR_SEP] + PairKey(d);
    assert a.eventId[1] != d.eventId[0];
    assert |a.eventId| == 5 && |d.eventId| == 5 && a.eventId[0] == 'x' && d.eventId[0] == 'y';
  }

  lemma {:induction false} LexAfterCommon(common: string, a: string, b: string)
    ensures LexLe(common + a, common + b) == LexLe(a, b)
  {
    if common == "" {
      assert common + a == a && common + b == b;
    } else {
      assert (common + a)[1..] == common[1..] + a && (common + b)[1..] == common[1..] + b;
      LexAfterCommon(common[1..], a, b);
    }
  }
}
