/** Hybrid recall: competition ranks over one arm's scores, and reciprocal-rank fusion of several arms. */
module Recall {
  import Seqs

  /** The total order on scores that ranking uses, as an integer per bit pattern. */
  type Score = int

  datatype Entry = Entry(id: string, score: Score)

  datatype Ranked = Ranked(id: string, rank: nat)

  datatype Arm = Arm(entries: seq<Entry>, lowerIsBetter: bool)

  const RRF_K: real := 60.0

  predicate Better(lower: bool, a: Score, b: Score) {
    if lower then a < b else a > b
  }

  function Contribution(rank: nat): (c: real)
    ensures c > 0.0
  {
    1.0 / (RRF_K + rank as real)
  }

  // ---------------------------------------------------------------------------------------------
  // Sorting an arm
  // ---------------------------------------------------------------------------------------------

  ghost predicate Sorted(lower: bool, s: seq<Entry>) {
    forall i, j :: 0 <= i < j < |s| ==> !Better(lower, s[j].score, s[i].score)
  }

  function Insert(lower: bool, x: Entry, s: seq<Entry>): seq<Entry> {
    if s == [] || !Better(lower, s[0].score, x.score) then [x] + s else [s[0]] + Insert(lower, x, s[1..])
  }

  function Sort(lower: bool, s: seq<Entry>): seq<Entry> {
    if s == [] then [] else Insert(lower, s[0], Sort(lower, s[1..]))
  }

  lemma {:induction false} InsertKeeps(lower: bool, x: Entry, s: seq<Entry>)
    ensures multiset(Insert(lower, x, s)) == multiset{x} + multiset(s)
  {
    if s != [] && Better(lower, s[0].score, x.score) {
      InsertKeeps(lower, x, s[1..]);
      assert s == [s[0]] + s[1..];
    }
  }

  lemma {:induction false} InsertSorts(lower: bool, x: Entry, s: seq<Entry>)
    requires Sorted(lower, s)
    ensures Sorted(lower, Insert(lower, x, s))
  {
    if s != [] && Better(lower, s[0].score, x.score) {
      var t := Insert(lower, x, s[1..]);
      InsertSorts(lower, x, s[1..]);
      InsertKeeps(lower, x, s[1..]);
      forall e | e in t ensures !Better(lower, e.score, s[0].score) {
        assert e in multiset(t);
      }
      SortedCons(lower, s[0], t);
    } else {
      forall e | e in s ensures !Better(lower, e.score, x.score) {
        assert e == s[0] || !Better(lower, e.score, s[0].score);
      }
      SortedCons(lower, x, s);
    }
  }

  lemma SortedCons(lower: bool, x: Entry, s: seq<Entry>)
    requires Sorted(lower, s) && forall e :: e in s ==> !Better(lower, e.score, x.score)
    ensures Sorted(lower, [x] + s)
  {
  }

  lemma {:induction false} SortSorts(lower: bool, s: seq<Entry>)
    ensures Sorted(lower, Sort(lower, s)) && multiset(Sort(lower, s)) == multiset(s)
  {
    if s != [] {
      SortSorts(lower, s[1..]);
      InsertSorts(lower, s[0], Sort(lower, s[1..]));
      InsertKeeps(lower, s[0], Sort(lower, s[1..]));
      assert s == [s[0]] + s[1..];
    }
  }

  // ---------------------------------------------------------------------------------------------
  // Competition ranks
  // ---------------------------------------------------------------------------------------------

  /** How many entries score strictly better than `score`. */
  function CountBetter(lower: bool, s: seq<Entry>, score: Score): nat {
    if s == [] then 0 else (if Better(lower, s[0].score, score) then 1 else 0) + CountBetter(lower, s[1..], score)
  }

  /** The rank an entry deserves within its arm, whatever the order the arm came in. */
  function RankIn(arm: Arm, score: Score): nat {
    1 + CountBetter(arm.lowerIsBetter, arm.entries, score)
  }

  lemma {:induction false} CountAppend(lower: bool, a: seq<Entry>, b: seq<Entry>, score: Score)
    ensures CountBetter(lower, a + b, score) == CountBetter(lower, a, score) + CountBetter(lower, b, score)
  {
    if a == [] {
      assert a + b == b;
    } else {
      CountAppend(lower, a[1..], b, score);
      assert (a + b)[1..] == a[1..] + b;
    }
  }

  lemma {:induction false} CountAll(lower: bool, s: seq<Entry>, score: Score)
    requires forall i :: 0 <= i < |s| ==> Better(lower, s[i].score, score)
    ensures CountBetter(lower, s, score) == |s|
  {
    if s != [] {
      CountAll(lower, s[1..], score);
    }
  }

  lemma {:induction false} CountNone(lower: bool, s: seq<Entry>, score: Score)
    requires forall i :: 0 <= i < |s| ==> !Better(lower, s[i].score, score)
    ensures CountBetter(lower, s, score) == 0
  {
    if s != [] {
      CountNone(lower, s[1..], score);
    }
  }

  lemma {:induction false} CountInsert(lower: bool, x: Entry, s: seq<Entry>, score: Score)
    ensures CountBetter(lower, Insert(lower, x, s), score) == CountBetter(lower, [x] + s, score)
  {
    if s != [] && Better(lower, s[0].score, x.score) {
      CountInsert(lower, x, s[1..], score);
      CountAppend(lower, [x], s[1..], score);
      assert [s[0]] + s[1..] == s;
    }
    CountAppend(lower, [x], s, score);
  }

  lemma {:induction false} CountSort(lower: bool, s: seq<Entry>, score: Score)
    ensures CountBetter(lower, Sort(lower, s), score) == CountBetter(lower, s, score)
  {
    if s != [] {
      CountSort(lower, s[1..], score);
      CountInsert(lower, s[0], Sort(lower, s[1..]), score);
      CountAppend(lower, [s[0]], Sort(lower, s[1..]), score);
    }
  }

  /** In a sorted arm, the first entry of a group of equal scores sits at its count of better ones. */
  lemma GroupStart(arm: Arm, i: nat)
    requires var s := Sort(arm.lowerIsBetter, arm.entries);
             i < |s| && (i == 0 || s[i - 1].score != s[i].score)
    ensures RankIn(arm, Sort(arm.lowerIsBetter, arm.entries)[i].score) == i + 1
  {
    var lower := arm.lowerIsBetter;
    var s := Sort(lower, arm.entries);
    SortSorts(lower, arm.entries);
    CountSort(lower, arm.entries, s[i].score);
    SortedCount(lower, s, i);
  }

  lemma SortedCount(lower: bool, s: seq<Entry>, i: nat)
    requires Sorted(lower, s) && i < |s| && (i == 0 || s[i - 1].score != s[i].score)
    ensures CountBetter(lower, s, s[i].score) == i
  {
    var score := s[i].score;
    forall p | 0 <= p < i ensures Better(lower, s[p].score, score) {
      assert p == i - 1 || !Better(lower, s[i - 1].score, s[p].score);
      assert !Better(lower, s[i].score, s[i - 1].score);
    }
    CountAll(lower, s[..i], score);
    CountNone(lower, s[i..], score);
    CountAppend(lower, s[..i], s[i..], score);
    assert s == s[..i] + s[i..];
  }

  ghost predicate CompetitionRanked(arm: Arm, sorted: seq<Entry>, out: seq<Ranked>)
  {
    |out| <= |sorted|
    && forall p :: 0 <= p < |out| ==> out[p] == Ranked(sorted[p].id, RankIn(arm, sorted[p].score))
  }

  /** The grouping loops: every entry gets one plus the number of strictly better ones. */
  method RankWithTies(arm: Arm) returns (out: seq<Ranked>)
    ensures var sorted := Sort(arm.lowerIsBetter, arm.entries);
            |out| == |sorted| && CompetitionRanked(arm, sorted, out)
  {
    var sorted := Sort(arm.lowerIsBetter, arm.entries);
    out := [];
    var groupStartRank := 1;
    var i := 0;
    while i < |sorted|
      invariant i <= |sorted| && |out| == i && groupStartRank == i + 1
      invariant CompetitionRanked(arm, sorted, out)
      invariant 0 < i < |sorted| ==> sorted[i - 1].score != sorted[i].score
    {
      GroupStart(arm, i);
      var j := i + 1;
      while j < |sorted| && sorted[j].score == sorted[i].score
        invariant i < j <= |sorted|
        invariant forall p :: i <= p < j ==> sorted[p].score == sorted[i].score
      {
        j := j + 1;
      }
      for p := i to j
        invariant |out| == p && CompetitionRanked(arm, sorted, out)
      {
        out := out + [Ranked(sorted[p].id, groupStartRank)];
      }
      groupStartRank := groupStartRank + (j - i);
      i := j;
    }
  }

  // ---------------------------------------------------------------------------------------------
  // Fusion
  // ---------------------------------------------------------------------------------------------

  function Term(arm: Arm, e: Entry, id: string): real {
    if e.id == id then Contribution(RankIn(arm, e.score)) else 0.0
  }

  /** What entries of an arm contribute to an id. */
  function PartSum(arm: Arm, part: seq<Entry>, id: string): real {
    if part == [] then 0.0 else Term(arm, part[0], id) + PartSum(arm, part[1..], id)
  }

  /** The fused score of an id: a sum over arms of the contributions of its competition ranks. */
  function FusedScore(arms: seq<Arm>, id: string): real {
    if arms == [] then 0.0 else PartSum(arms[0], arms[0].entries, id) + FusedScore(arms[1..], id)
  }

  predicate Mentions(s: seq<Entry>, id: string) {
    s != [] && (s[0].id == id || Mentions(s[1..], id))
  }

  predicate AnyMentions(arms: seq<Arm>, id: string) {
    arms != [] && (Mentions(arms[0].entries, id) || AnyMentions(arms[1..], id))
  }

  function Value(scores: map<string, real>, id: string): real {
    if id in scores then scores[id] else 0.0
  }

  /** The reference meaning of fusion: exactly the ids of the arms, each with its fused score. */
  ghost predicate IsFusion(arms: seq<Arm>, scores: map<string, real>) {
    forall id :: (id in scores <==> AnyMentions(arms, id)) && Value(scores, id) == FusedScore(arms, id)
  }

  function RankedSum(ranked: seq<Ranked>, id: string): real {
    if ranked == [] then 0.0
    else (if ranked[0].id == id then Contribution(ranked[0].rank) else 0.0) + RankedSum(ranked[1..], id)
  }

  predicate RankedMentions(ranked: seq<Ranked>, id: string) {
    ranked != [] && (ranked[0].id == id || RankedMentions(ranked[1..], id))
  }

  ghost predicate Added(before: map<string, real>, ranked: seq<Ranked>, after: map<string, real>) {
    forall id :: (id in after <==> id in before || RankedMentions(ranked, id))
              && Value(after, id) == Value(before, id) + RankedSum(ranked, id)
  }

  function AddOne(scores: map<string, real>, r: Ranked): map<string, real> {
    scores[r.id := Value(scores, r.id) + Contribution(r.rank)]
  }

  lemma AddedStep(before: map<string, real>, ranked: seq<Ranked>, i: nat, scores: map<string, real>,
                  after: map<string, real>)
    requires i < |ranked| && Added(AddOne(scores, ranked[i]), ranked[i + 1..], after)
    ensures Added(scores, ranked[i..], after)
  {
    assert ranked[i..][1..] == ranked[i + 1..];
  }

  /** The accumulating loop over one arm's ranks. */
  method AddRanked(before: map<string, real>, ranked: seq<Ranked>) returns (scores: map<string, real>)
    ensures Added(before, ranked, scores)
  {
    scores := before;
    var i := 0;
    while i < |ranked|
      invariant i <= |ranked|
      invariant forall after :: Added(scores, ranked[i..], after) ==> Added(before, ranked, after)
    {
      forall after | Added(AddOne(scores, ranked[i]), ranked[i + 1..], after)
        ensures Added(before, ranked, after)
      {
        AddedStep(before, ranked, i, scores, after);
      }
      scores := AddOne(scores, ranked[i]);
      i := i + 1;
    }
  }

  ghost predicate AddedArms(before: map<string, real>, arms: seq<Arm>, after: map<string, real>) {
    forall id :: (id in after <==> id in before || AnyMentions(arms, id))
              && Value(after, id) == Value(before, id) + FusedScore(arms, id)
  }

  lemma {:induction false} InsertSum(arm: Arm, x: Entry, s: seq<Entry>, id: string)
    ensures PartSum(arm, Insert(arm.lowerIsBetter, x, s), id) == Term(arm, x, id) + PartSum(arm, s, id)
    ensures Mentions(Insert(arm.lowerIsBetter, x, s), id) <==> x.id == id || Mentions(s, id)
  {
    if s != [] && Better(arm.lowerIsBetter, s[0].score, x.score) {
      InsertSum(arm, x, s[1..], id);
    } else {
      assert ([x] + s)[1..] == s;
    }
  }

  lemma {:induction false} SortSum(arm: Arm, s: seq<Entry>, id: string)
    ensures PartSum(arm, Sort(arm.lowerIsBetter, s), id) == PartSum(arm, s, id)
    ensures Mentions(Sort(arm.lowerIsBetter, s), id) <==> Mentions(s, id)
  {
    if s != [] {
      SortSum(arm, s[1..], id);
      InsertSum(arm, s[0], Sort(arm.lowerIsBetter, s[1..]), id);
    }
  }

  lemma {:induction false} RankedSumIsPartSum(arm: Arm, sorted: seq<Entry>, out: seq<Ranked>, id: string)
    requires |out| == |sorted| && CompetitionRanked(arm, sorted, out)
    ensures RankedSum(out, id) == PartSum(arm, sorted, id)
    ensures RankedMentions(out, id) <==> Mentions(sorted, id)
  {
    if sorted != [] {
      RankedSumIsPartSum(arm, sorted[1..], out[1..], id);
    }
  }

  /** The ranks of an arm contribute what its entries deserve, independent of the sort. */
  lemma RanksContribute(arm: Arm, out: seq<Ranked>, id: string)
    requires |out| == |Sort(arm.lowerIsBetter, arm.entries)|
    requires CompetitionRanked(arm, Sort(arm.lowerIsBetter, arm.entries), out)
    ensures RankedSum(out, id) == PartSum(arm, arm.entries, id)
    ensures RankedMentions(out, id) <==> Mentions(arm.entries, id)
  {
    RankedSumIsPartSum(arm, Sort(arm.lowerIsBetter, arm.entries), out, id);
    SortSum(arm, arm.entries, id);
  }

  lemma AddedArmsStep(before: map<string, real>, arms: seq<Arm>, i: nat, out: seq<Ranked>,
                      middle: map<string, real>, after: map<string, real>)
    requires i < |arms|
    requires |out| == |Sort(arms[i].lowerIsBetter, arms[i].entries)|
    requires CompetitionRanked(arms[i], Sort(arms[i].lowerIsBetter, arms[i].entries), out)
    requires Added(before, out, middle) && AddedArms(middle, arms[i + 1..], after)
    ensures AddedArms(before, arms[i..], after)
  {
    assert arms[i..][1..] == arms[i + 1..];
    forall id ensures (id in after <==> id in before || AnyMentions(arms[i..], id))
                   && Value(after, id) == Value(before, id) + FusedScore(arms[i..], id)
    {
      RanksContribute(arms[i], out, id);
    }
  }

  /** The production fusion computes the reference meaning. */
  method FuseScoredArms(arms: seq<Arm>) returns (scores: map<string, real>)
    ensures IsFusion(arms, scores)
  {
    scores := map[];
    var i := 0;
    assert arms[0..] == arms;
    while i < |arms|
      invariant i <= |arms|
      invariant forall after :: AddedArms(scores, arms[i..], after) ==> AddedArms(map[], arms, after)
    {
      var ranked := RankWithTies(arms[i]);
      var next := AddRanked(scores, ranked);
      forall after | AddedArms(next, arms[i + 1..], after) ensures AddedArms(map[], arms, after) {
        AddedArmsStep(scores, arms, i, ranked, next, after);
      }
      scores := next;
      i := i + 1;
    }
    assert AddedArms(scores, arms[i..], scores);
  }

  // ---------------------------------------------------------------------------------------------
  // Position-based fusion
  // ---------------------------------------------------------------------------------------------

  function Positions(ids: seq<string>): (r: seq<Ranked>)
    ensures |r| == |ids| && forall i :: 0 <= i < |ids| ==> r[i] == Ranked(ids[i], i + 1)
  {
    seq(|ids|, i requires 0 <= i < |ids| => Ranked(ids[i], i + 1))
  }

  function RrfScore(lists: seq<seq<string>>, id: string): real {
    if lists == [] then 0.0 else RankedSum(Positions(lists[0]), id) + RrfScore(lists[1..], id)
  }

  predicate RrfMentions(lists: seq<seq<string>>, id: string) {
    lists != [] && (id in lists[0] || RrfMentions(lists[1..], id))
  }

  ghost predicate AddedLists(before: map<string, real>, lists: seq<seq<string>>, after: map<string, real>) {
    forall id :: (id in after <==> id in before || RrfMentions(lists, id))
              && Value(after, id) == Value(before, id) + RrfScore(lists, id)
  }

  lemma {:induction false} RankedMentionsIsMember(r: seq<Ranked>, id: string)
    ensures RankedMentions(r, id) <==> exists i :: 0 <= i < |r| && r[i].id == id
  {
    if r != [] {
      RankedMentionsIsMember(r[1..], id);
      assert r == [r[0]] + r[1..];
      if i :| 0 <= i < |r[1..]| && r[1..][i].id == id {
        assert r[i + 1].id == id;
      }
    }
  }

  lemma PositionsMention(ids: seq<string>, id: string)
    ensures RankedMentions(Positions(ids), id) <==> id in ids
  {
    RankedMentionsIsMember(Positions(ids), id);
    if id in ids {
      var i :| 0 <= i < |ids| && ids[i] == id;
      assert Positions(ids)[i].id == id;
    }
  }

  lemma AddedListsStep(before: map<string, real>, lists: seq<seq<string>>, i: nat,
                       middle: map<string, real>, after: map<string, real>)
    requires i < |lists|
    requires Added(before, Positions(lists[i]), middle) && AddedLists(middle, lists[i + 1..], after)
    ensures AddedLists(before, lists[i..], after)
  {
    assert lists[i..][1..] == lists[i + 1..];
    forall id ensures (id in after <==> id in before || RrfMentions(lists[i..], id))
                   && Value(after, id) == Value(before, id) + RrfScore(lists[i..], id)
    {
      PositionsMention(lists[i], id);
    }
  }

  method RrfFuse(lists: seq<seq<string>>) returns (scores: map<string, real>)
    ensures forall id :: (id in scores <==> RrfMentions(lists, id)) && Value(scores, id) == RrfScore(lists, id)
  {
    scores := map[];
    var i := 0;
    assert lists[0..] == lists;
    while i < |lists|
      invariant i <= |lists|
      invariant forall after :: AddedLists(scores, lists[i..], after) ==> AddedLists(map[], lists, after)
    {
      var next := AddRanked(scores, Positions(lists[i]));
      forall after | AddedLists(next, lists[i + 1..], after) ensures AddedLists(map[], lists, after) {
        AddedListsStep(scores, lists, i, next, after);
      }
      scores := next;
      i := i + 1;
    }
    assert AddedLists(scores, lists[i..], scores);
  }

  // ---------------------------------------------------------------------------------------------
  // What fusion guarantees
  // ---------------------------------------------------------------------------------------------

  lemma {:induction false} CountPermuted(lower: bool, a: seq<Entry>, b: seq<Entry>, score: Score)
    requires multiset(a) == multiset(b)
    ensures CountBetter(lower, a, score) == CountBetter(lower, b, score)
    decreases |a|
  {
    assert |a| == |multiset(a)| == |multiset(b)| == |b|;
    if a != [] {
      var j := Matching(a, b);
      CountPermuted(lower, a[1..], b[..j] + b[j + 1..], score);
      assert b == b[..j] + ([b[j]] + b[j + 1..]);
      CountAppend(lower, b[..j], [b[j]] + b[j + 1..], score);
      CountAppend(lower, [b[j]], b[j + 1..], score);
      CountAppend(lower, b[..j], b[j + 1..], score);
    }
  }

  /** Where the first entry of `a` sits in its permutation `b`, and what is left without it. */
  lemma Matching(a: seq<Entry>, b: seq<Entry>) returns (j: nat)
    requires multiset(a) == multiset(b) && a != []
    ensures j < |b| && b[j] == a[0]
    ensures multiset(a[1..]) == multiset(b[..j] + b[j + 1..])
  {
    assert a[0] in multiset(b);
    j :| 0 <= j < |b| && b[j] == a[0];
    Seqs.SameWithout(a, b, j);
  }

  lemma {:induction false} PartSumAppend(arm: Arm, a: seq<Entry>, b: seq<Entry>, id: string)
    ensures PartSum(arm, a + b, id) == PartSum(arm, a, id) + PartSum(arm, b, id)
  {
    if a == [] {
      assert a + b == b;
    } else {
      PartSumAppend(arm, a[1..], b, id);
      assert (a + b)[1..] == a[1..] + b;
    }
  }

  lemma {:induction false} PartSumPermuted(arm: Arm, a: seq<Entry>, b: seq<Entry>, id: string)
    requires multiset(a) == multiset(b)
    ensures PartSum(arm, a, id) == PartSum(arm, b, id)
    decreases |a|
  {
    assert |a| == |multiset(a)| == |multiset(b)| == |b|;
    if a != [] {
      var j := Matching(a, b);
      PartSumPermuted(arm, a[1..], b[..j] + b[j + 1..], id);
      assert b == b[..j] + ([b[j]] + b[j + 1..]);
      PartSumAppend(arm, b[..j], [b[j]] + b[j + 1..], id);
      PartSumAppend(arm, [b[j]], b[j + 1..], id);
      PartSumAppend(arm, b[..j], b[j + 1..], id);
    }
  }

  lemma {:induction false} PartSumSameRanks(a: Arm, b: Arm, part: seq<Entry>, id: string)
    requires a.lowerIsBetter == b.lowerIsBetter && multiset(a.entries) == multiset(b.entries)
    ensures PartSum(a, part, id) == PartSum(b, part, id)
  {
    if part != [] {
      CountPermuted(a.lowerIsBetter, a.entries, b.entries, part[0].score);
      PartSumSameRanks(a, b, part[1..], id);
    }
  }

  ghost predicate SameArm(a: Arm, b: Arm) {
    a.lowerIsBetter == b.lowerIsBetter && multiset(a.entries) == multiset(b.entries)
  }

  /** The fused score does not depend on the order in which any arm emitted its entries. */
  lemma {:induction false} FusionIgnoresOrder(a: seq<Arm>, b: seq<Arm>, id: string)
    requires |a| == |b| && forall i :: 0 <= i < |a| ==> SameArm(a[i], b[i])
    ensures FusedScore(a, id) == FusedScore(b, id)
  {
    if a != [] {
      assert SameArm(a[0], b[0]);
      PartSumSameRanks(a[0], b[0], a[0].entries, id);
      PartSumPermuted(b[0], a[0].entries, b[0].entries, id);
      FusionIgnoresOrder(a[1..], b[1..], id);
    }
  }

  /** `x` has one entry in the arm, with this score. */
  ghost predicate Scores(arm: Arm, x: string, score: Score) {
    exists i :: 0 <= i < |arm.entries| && arm.entries[i] == Entry(x, score)
             && forall j :: 0 <= j < |arm.entries| && j != i ==> arm.entries[j].id != x
  }

  ghost predicate Absent(arm: Arm, x: string) {
    forall i :: 0 <= i < |arm.entries| ==> arm.entries[i].id != x
  }

  ghost predicate Tied(arm: Arm, x: string, y: string) {
    (Absent(arm, x) && Absent(arm, y)) || exists score :: Scores(arm, x, score) && Scores(arm, y, score)
  }

  lemma {:induction false} AbsentSum(arm: Arm, part: seq<Entry>, x: string)
    requires forall i :: 0 <= i < |part| ==> part[i].id != x
    ensures PartSum(arm, part, x) == 0.0
  {
    if part != [] {
      AbsentSum(arm, part[1..], x);
    }
  }

  /** One entry contributes its competition rank's share, and no more. */
  lemma SingleSum(arm: Arm, x: string, score: Score)
    requires Scores(arm, x, score)
    ensures PartSum(arm, arm.entries, x) == Contribution(RankIn(arm, score))
  {
    var s := arm.entries;
    var i :| 0 <= i < |s| && s[i] == Entry(x, score) && forall j :: 0 <= j < |s| && j != i ==> s[j].id != x;
    PartSumAt(arm, s, i, x);
    AbsentSum(arm, s[..i], x);
    AbsentSum(arm, s[i + 1..], x);
  }

  lemma PartSumAt(arm: Arm, s: seq<Entry>, i: nat, x: string)
    requires i < |s|
    ensures PartSum(arm, s, x) == PartSum(arm, s[..i], x) + Term(arm, s[i], x) + PartSum(arm, s[i + 1..], x)
  {
    assert s == s[..i] + s[i..];
    PartSumAppend(arm, s[..i], s[i..], x);
    assert s[i..][1..] == s[i + 1..];
  }

  /** Ids tied in every arm fuse to exactly the same score. */
  lemma {:induction false} TiedIdsFuseEqually(arms: seq<Arm>, x: string, y: string)
    requires forall i :: 0 <= i < |arms| ==> Tied(arms[i], x, y)
    ensures FusedScore(arms, x) == FusedScore(arms, y)
  {
    if arms != [] {
      var arm := arms[0];
      if Absent(arm, x) && Absent(arm, y) {
        AbsentSum(arm, arm.entries, x);
        AbsentSum(arm, arm.entries, y);
      } else {
        var score :| Scores(arm, x, score) && Scores(arm, y, score);
        SingleSum(arm, x, score);
        SingleSum(arm, y, score);
      }
      TiedIdsFuseEqually(arms[1..], x, y);
    }
  }

  lemma ContributionFalls(a: nat, b: nat)
    requires a < b
    ensures Contribution(a) > Contribution(b)
  {
    var x, y := RRF_K + a as real, RRF_K + b as real;
    var p, q := Contribution(a), Contribution(b);
    assert p * x == 1.0 && q * y == 1.0;
    assert q * y - q * x == q * (y - x) > 0.0;
    PositiveFactor(p - q, x);
  }

  lemma PositiveFactor(d: real, x: real)
    requires x > 0.0 && d * x > 0.0
    ensures d > 0.0
  {
  }

  lemma {:induction false} CountMonotone(lower: bool, s: seq<Entry>, a: Score, b: Score)
    requires Better(lower, a, b)
    ensures CountBetter(lower, s, a) <= CountBetter(lower, s, b)
    ensures (exists i :: 0 <= i < |s| && s[i].score == a) ==> CountBetter(lower, s, a) < CountBetter(lower, s, b)
  {
    if s != [] {
      CountMonotone(lower, s[1..], a, b);
      if i :| 0 <= i < |s| && s[i].score == a && i != 0 {
        assert s[1..][i - 1].score == a;
      }
    }
  }

  /** Within one arm, a strictly better score earns strictly more. */
  lemma BetterEarnsMore(arm: Arm, x: string, a: Score, y: string, b: Score)
    requires Scores(arm, x, a) && Scores(arm, y, b) && Better(arm.lowerIsBetter, a, b)
    ensures PartSum(arm, arm.entries, x) > PartSum(arm, arm.entries, y)
  {
    SingleSum(arm, x, a);
    SingleSum(arm, y, b);
    CountMonotone(arm.lowerIsBetter, arm.entries, a, b);
    ContributionFalls(RankIn(arm, a), RankIn(arm, b));
  }

  // ---------------------------------------------------------------------------------------------
  // What one entry earns
  // ---------------------------------------------------------------------------------------------

  /** The places of the entries with a strictly better score: a lower one or a higher one, as the arm says. */
  ghost function BetterPlaces(arm: Arm, score: Score): set<nat> {
    set i: nat | i < |arm.entries|
                 && (if arm.lowerIsBetter then arm.entries[i].score < score else arm.entries[i].score > score)
  }

  lemma {:induction false} CountIsNumber(arm: Arm, score: Score)
    ensures CountBetter(arm.lowerIsBetter, arm.entries, score) == |BetterPlaces(arm, score)|
    decreases |arm.entries|
  {
    if arm.entries != [] {
      var n := |arm.entries| - 1;
      var init, last := arm.entries[..n], arm.entries[n];
      var fewer := BetterPlaces(arm.(entries := init), score);
      CountIsNumber(arm.(entries := init), score);
      assert arm.entries == init + [last];
      CountAppend(arm.lowerIsBetter, init, [last], score);
      assert BetterPlaces(arm, score) == fewer + if Better(arm.lowerIsBetter, last.score, score) then {n} else {};
      assert n !in fewer;
    }
  }

  /** One arm gives an id it scores once 1 / (60 + rank), with rank one more than the number of better entries. */
  lemma EntryEarns(arm: Arm, x: string, score: Score)
    requires Scores(arm, x, score)
    ensures FusedScore([arm], x) == 1.0 / (60.0 + (1 + |BetterPlaces(arm, score)|) as real)
  {
    SingleSum(arm, x, score);
    CountIsNumber(arm, score);
    assert [arm][1..] == [];
  }

  /** Arms that do not mention an id give it nothing, and what the others give is added. */
  lemma {:induction false} FusionAdds(a: seq<Arm>, b: seq<Arm>, id: string)
    ensures FusedScore(a + b, id) == FusedScore(a, id) + FusedScore(b, id)
    ensures !AnyMentions(a, id) ==> FusedScore(a, id) == 0.0
  {
    if a == [] {
      assert a + b == b;
    } else {
      FusionAdds(a[1..], b, id);
      assert (a + b)[0] == a[0] && (a + b)[1..] == a[1..] + b;
      if !Mentions(a[0].entries, id) {
        UnmentionedSum(a[0], a[0].entries, id);
      }
    }
  }

  lemma {:induction false} UnmentionedSum(arm: Arm, part: seq<Entry>, id: string)
    requires !Mentions(part, id)
    ensures PartSum(arm, part, id) == 0.0
  {
    if part != [] {
      UnmentionedSum(arm, part[1..], id);
    }
  }

  /** Position-based fusion gives the id at place `i` of a list that holds it once 1 / (61 + i). */
  lemma PlaceEarns(ids: seq<string>, i: nat)
    requires i < |ids| && forall j :: 0 <= j < |ids| && j != i ==> ids[j] != ids[i]
    ensures RrfScore([ids], ids[i]) == 1.0 / (61.0 + i as real)
  {
    assert [ids][1..] == [];
    RankedSumAt(Positions(ids), i, ids[i]);
  }

  lemma {:induction false} RankedSumAt(ranked: seq<Ranked>, i: nat, id: string)
    requires i < |ranked| && ranked[i].id == id
    requires forall j :: 0 <= j < |ranked| && j != i ==> ranked[j].id != id
    ensures RankedSum(ranked, id) == Contribution(ranked[i].rank)
  {
    if i == 0 {
      NoneRanked(ranked[1..], id);
    } else {
      RankedSumAt(ranked[1..], i - 1, id);
    }
  }

  lemma {:induction false} NoneRanked(ranked: seq<Ranked>, id: string)
    requires forall j :: 0 <= j < |ranked| ==> ranked[j].id != id
    ensures RankedSum(ranked, id) == 0.0
  {
    if ranked != [] {
      NoneRanked(ranked[1..], id);
    }
  }

  ghost predicate DistinctScores(arm: Arm) {
    forall i, j :: 0 <= i < j < |arm.entries| ==> arm.entries[i].score != arm.entries[j].score
  }

  function Ids(s: seq<Entry>): (ids: seq<string>)
    ensures |ids| == |s| && forall i :: 0 <= i < |s| ==> ids[i] == s[i].id
  {
    seq(|s|, i requires 0 <= i < |s| => s[i].id)
  }

  function SortedLists(arms: seq<Arm>): seq<seq<string>> {
    if arms == [] then [] else [Ids(Sort(arms[0].lowerIsBetter, arms[0].entries))] + SortedLists(arms[1..])
  }

  ghost predicate Distinct(s: seq<Entry>) {
    forall i, j :: 0 <= i < j < |s| ==> s[i].score != s[j].score
  }

  ghost predicate HasScore(s: seq<Entry>, score: Score) {
    exists i :: 0 <= i < |s| && s[i].score == score
  }

  lemma InsertScores(lower: bool, x: Entry, s: seq<Entry>, score: Score)
    requires HasScore(Insert(lower, x, s), score)
    ensures score == x.score || HasScore(s, score)
  {
    InsertKeeps(lower, x, s);
    var t := Insert(lower, x, s);
    var i :| 0 <= i < |t| && t[i].score == score;
    assert t[i] in multiset(t);
  }

  lemma {:induction false} InsertDistinct(lower: bool, x: Entry, s: seq<Entry>)
    requires Distinct(s) && !HasScore(s, x.score)
    ensures Distinct(Insert(lower, x, s))
    ensures forall score :: HasScore(Insert(lower, x, s), score) ==> score == x.score || HasScore(s, score)
  {
    var t := Insert(lower, x, s);
    if s != [] && Better(lower, s[0].score, x.score) {
      assert forall i :: 0 <= i < |s[1..]| ==> s[1..][i] == s[i + 1];
      InsertDistinct(lower, x, s[1..]);
      forall j | 1 <= j < |t| ensures t[j].score != t[0].score {
        assert HasScore(t[1..], t[1..][j - 1].score);
      }
      forall score | HasScore(t, score) ensures score == x.score || HasScore(s, score) {
        InsertScores(lower, x, s, score);
      }
    }
  }

  lemma {:induction false} SortDistinct(lower: bool, s: seq<Entry>)
    requires Distinct(s)
    ensures Distinct(Sort(lower, s))
    ensures forall score :: HasScore(Sort(lower, s), score) ==> HasScore(s, score)
  {
    if s != [] {
      SortDistinct(lower, s[1..]);
      InsertDistinct(lower, s[0], Sort(lower, s[1..]));
    }
  }

  /** With all scores distinct, the competition rank is the position in the sorted arm. */
  lemma DistinctRanksArePositions(arm: Arm, id: string)
    requires DistinctScores(arm)
    ensures PartSum(arm, arm.entries, id) == RankedSum(Positions(Ids(Sort(arm.lowerIsBetter, arm.entries))), id)
  {
    var sorted := Sort(arm.lowerIsBetter, arm.entries);
    SortDistinct(arm.lowerIsBetter, arm.entries);
    forall p | 0 <= p < |sorted| ensures RankIn(arm, sorted[p].score) == p + 1 {
      GroupStart(arm, p);
    }
    RanksContribute(arm, Positions(Ids(sorted)), id);
  }

  /** Without ties, tie-aware fusion is plain reciprocal-rank fusion of the sorted id lists. */
  lemma {:induction false} WithoutTiesFusionIsRrf(arms: seq<Arm>, id: string)
    requires forall i :: 0 <= i < |arms| ==> DistinctScores(arms[i])
    ensures FusedScore(arms, id) == RrfScore(SortedLists(arms), id)
  {
    if arms != [] {
      DistinctRanksArePositions(arms[0], id);
      WithoutTiesFusionIsRrf(arms[1..], id);
      assert SortedLists(arms)[1..] == SortedLists(arms[1..]);
    }
  }
}
