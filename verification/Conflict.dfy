/** The conflict finder: which neighbours of a memory are worth judging, and in which order. */
module Conflict {
  import opened Wrappers
  import opened Keys
  import Seqs

  /** A distance or similarity: a number, or the one value that compares with nothing. */
  datatype Score = NaN | Num(value: real)

  datatype Neighbour = Neighbour(ref: ConflictRef, dist: Score)

  datatype FinderInput = FinderInput(
    subject: ConflictRef, neighbours: seq<Neighbour>, simMin: Score,
    excluded: set<string>, open: set<string>, maxPairs: nat)

  datatype Scored = Scored(sim: real, ref: ConflictRef)

  function PairWith(subject: ConflictRef, s: Scored): string {
    UnorderedPairKey(subject, s.ref)
  }

  /** The filter of the finder: not NaN, at or above the inclusive floor, not excluded, not open. */
  function Eligible(input: FinderInput, n: Neighbour): Option<Scored> {
    if n.dist.NaN? || input.simMin.NaN? then None
    else
      var sim := 1.0 - n.dist.value;
      if sim < input.simMin.value
         || PairKey(n.ref) in input.excluded
         || UnorderedPairKey(input.subject, n.ref) in input.open
      then None
      else Some(Scored(sim, n.ref))
  }

  function EligibleList(input: FinderInput, ns: seq<Neighbour>): seq<Scored> {
    if ns == [] then []
    else
      var e := Eligible(input, ns[0]);
      (if e.Some? then [e.value] else []) + EligibleList(input, ns[1..])
  }

  /** `n` is worth judging, as `s`: a number at or above a floor that is a number, barred by neither set. */
  ghost predicate Candidate(input: FinderInput, n: Neighbour, s: Scored) {
    n.dist == Num(1.0 - s.sim) && n.ref == s.ref
    && input.simMin.Num? && input.simMin.value <= s.sim
    && PairKey(s.ref) !in input.excluded && UnorderedPairKey(input.subject, s.ref) !in input.open
  }

  ghost predicate HasCandidate(input: FinderInput, ns: seq<Neighbour>, s: Scored) {
    exists n :: n in ns && Candidate(input, n, s)
  }

  /** The filter lets through exactly the candidates. */
  lemma {:induction false} EligibleExactly(input: FinderInput, ns: seq<Neighbour>, s: Scored)
    ensures s in EligibleList(input, ns) <==> HasCandidate(input, ns, s)
  {
    if ns != [] {
      EligibleExactly(input, ns[1..], s);
      assert ns == [ns[0]] + ns[1..];
      assert Eligible(input, ns[0]) == Some(s) <==> Candidate(input, ns[0], s);
    }
  }

  // ---------------------------------------------------------------------------------------------
  // The order: similarity descending, then pair key ascending
  // ---------------------------------------------------------------------------------------------

  predicate Before(a: Scored, b: Scored) {
    a.sim > b.sim || (a.sim == b.sim && LexLe(PairKey(a.ref), PairKey(b.ref)))
  }

  /** More similar first; equally similar by the first character in which the pair keys differ. */
  lemma BeforeReads(a: Scored, b: Scored) returns (i: nat)
    ensures var x, y := PairKey(a.ref), PairKey(b.ref);
            && i <= |x| && i <= |y| && x[..i] == y[..i] && (i < |x| && i < |y| ==> x[i] != y[i])
            && (Before(a, b) <==> a.sim > b.sim || (a.sim == b.sim && (i == |x| || (i < |y| && x[i] < y[i]))))
  {
    i := LexAtFirstDifference(PairKey(a.ref), PairKey(b.ref));
  }

  lemma BeforeTotal(a: Scored, b: Scored)
    ensures Before(a, b) || Before(b, a)
    ensures Before(a, b) && Before(b, a) ==> a == b
  {
    LexTotal(PairKey(a.ref), PairKey(b.ref));
    if Before(a, b) && Before(b, a) {
      PairKeyInjective(a.ref, b.ref);
    }
  }

  lemma BeforeTransitive(a: Scored, b: Scored, c: Scored)
    requires Before(a, b) && Before(b, c)
    ensures Before(a, c)
  {
    if a.sim == b.sim == c.sim {
      LexTransitive(PairKey(a.ref), PairKey(b.ref), PairKey(c.ref));
    }
  }

  ghost predicate Sorted(s: seq<Scored>) {
    forall i, j :: 0 <= i < j < |s| ==> Before(s[i], s[j])
  }

  function Insert(x: Scored, s: seq<Scored>): seq<Scored> {
    if s == [] || Before(x, s[0]) then [x] + s else [s[0]] + Insert(x, s[1..])
  }

  function Sort(s: seq<Scored>): seq<Scored> {
    if s == [] then [] else Insert(s[0], Sort(s[1..]))
  }

  lemma {:induction false} InsertKeeps(x: Scored, s: seq<Scored>)
    ensures multiset(Insert(x, s)) == multiset{x} + multiset(s)
  {
    if s != [] && !Before(x, s[0]) {
      InsertKeeps(x, s[1..]);
      assert s == [s[0]] + s[1..];
    }
  }

  lemma SortedCons(x: Scored, s: seq<Scored>)
    requires Sorted(s) && forall y :: y in s ==> Before(x, y)
    ensures Sorted([x] + s)
  {
  }

  lemma {:induction false} InsertSorts(x: Scored, s: seq<Scored>)
    requires Sorted(s)
    ensures Sorted(Insert(x, s))
  {
    if s == [] {
    } else if Before(x, s[0]) {
      forall y | y in s ensures Before(x, y) {
        if y != s[0] {
          BeforeTransitive(x, s[0], y);
        }
      }
      SortedCons(x, s);
    } else {
      InsertSorts(x, s[1..]);
      InsertKeeps(x, s[1..]);
      BeforeTotal(x, s[0]);
      forall y | y in Insert(x, s[1..]) ensures Before(s[0], y) {
        assert y in multiset(Insert(x, s[1..]));
      }
      SortedCons(s[0], Insert(x, s[1..]));
    }
  }

  lemma {:induction false} SortSorts(s: seq<Scored>)
    ensures Sorted(Sort(s)) && multiset(Sort(s)) == multiset(s)
  {
    if s != [] {
      SortSorts(s[1..]);
      InsertSorts(s[0], Sort(s[1..]));
      InsertKeeps(s[0], Sort(s[1..]));
      assert s == [s[0]] + s[1..];
    }
  }

  /** The order leaves no choice: two sorted lists of the same elements are one list. */
  lemma {:induction false} SortedUnique(a: seq<Scored>, b: seq<Scored>)
    requires Sorted(a) && Sorted(b) && multiset(a) == multiset(b)
    ensures a == b
  {
    SameElements(a, b);
    assert |a| == |multiset(a)| == |multiset(b)| == |b|;
    if a != [] {
      HeadsMeet(a, b);
      Seqs.WithoutFirst(a);
      Seqs.WithoutFirst(b);
      SortedTail(a);
      SortedTail(b);
      SortedUnique(a[1..], b[1..]);
      assert a == [a[0]] + a[1..];
      assert b == [b[0]] + b[1..];
    }
  }

  lemma SortedTail(a: seq<Scored>)
    requires a != [] && Sorted(a)
    ensures Sorted(a[1..])
  {
  }

  lemma HeadsMeet(a: seq<Scored>, b: seq<Scored>)
    requires Sorted(a) && Sorted(b) && a != [] && b != [] && a[0] in b && b[0] in a
    ensures a[0] == b[0]
  {
    BeforeTotal(a[0], b[0]);
  }

  // ---------------------------------------------------------------------------------------------
  // Dedup and cap
  // ---------------------------------------------------------------------------------------------

  function Dedup(subject: ConflictRef, s: seq<Scored>, seen: set<string>): seq<Scored> {
    if s == [] then []
    else if PairWith(subject, s[0]) in seen then Dedup(subject, s[1..], seen)
    else [s[0]] + Dedup(subject, s[1..], seen + {PairWith(subject, s[0])})
  }

  function Take<T>(s: seq<T>, n: nat): seq<T> {
    if n < |s| then s[..n] else s
  }

  function Pairs(subject: ConflictRef, s: seq<Scored>): seq<(ConflictRef, ConflictRef)> {
    if s == [] then [] else Pairs(subject, s[..|s| - 1]) + [(subject, s[|s| - 1].ref)]
  }

  function Sweep(input: FinderInput): seq<(ConflictRef, ConflictRef)> {
    Pairs(input.subject, Take(Dedup(input.subject, Sort(EligibleList(input, input.neighbours)), {}), input.maxPairs))
  }

  // ---------------------------------------------------------------------------------------------
  // What the list should be
  // ---------------------------------------------------------------------------------------------

  /** `s` comes first among the eligible neighbours of its unordered pair. */
  ghost predicate Best(subject: ConflictRef, eligible: seq<Scored>, s: Scored) {
    s in eligible
    && forall t :: t in eligible && PairWith(subject, t) == PairWith(subject, s) ==> Before(s, t)
  }

  ghost predicate Covered(subject: ConflictRef, ranking: seq<Scored>, key: string) {
    exists x :: x in ranking && PairWith(subject, x) == key
  }

  /** Every eligible pair exactly once, by its best neighbour, in order. */
  ghost predicate IsRanking(subject: ConflictRef, eligible: seq<Scored>, ranking: seq<Scored>) {
    Sorted(ranking)
    && (forall i, j :: 0 <= i < j < |ranking| ==> PairWith(subject, ranking[i]) != PairWith(subject, ranking[j]))
    && (forall s :: s in ranking ==> Best(subject, eligible, s))
    && (forall t :: t in eligible ==> Covered(subject, ranking, PairWith(subject, t)))
  }

  ghost predicate Leads(subject: ConflictRef, d: seq<Scored>, t: Scored) {
    exists x :: x in d && PairWith(subject, x) == PairWith(subject, t) && Before(x, t)
  }

  lemma {:induction false} DedupFrom(subject: ConflictRef, s: seq<Scored>, seen: set<string>)
    ensures forall x :: x in Dedup(subject, s, seen) ==> x in s && PairWith(subject, x) !in seen
  {
    if s != [] {
      assert s == [s[0]] + s[1..];
      if PairWith(subject, s[0]) in seen {
        DedupFrom(subject, s[1..], seen);
      } else {
        DedupFrom(subject, s[1..], seen + {PairWith(subject, s[0])});
      }
    }
  }

  ghost predicate DistinctPairs(subject: ConflictRef, d: seq<Scored>) {
    forall i, j :: 0 <= i < j < |d| ==> PairWith(subject, d[i]) != PairWith(subject, d[j])
  }

  lemma {:induction false} DedupSorted(subject: ConflictRef, s: seq<Scored>, seen: set<string>)
    requires Sorted(s)
    ensures Sorted(Dedup(subject, s, seen)) && DistinctPairs(subject, Dedup(subject, s, seen))
  {
    if s != [] {
      if PairWith(subject, s[0]) in seen {
        DedupSorted(subject, s[1..], seen);
      } else {
        var more := seen + {PairWith(subject, s[0])};
        DedupSorted(subject, s[1..], more);
        DedupFrom(subject, s[1..], more);
        SortedCons(s[0], Dedup(subject, s[1..], more));
      }
    }
  }

  lemma {:induction false} DedupLeads(subject: ConflictRef, s: seq<Scored>, seen: set<string>, t: Scored)
    requires Sorted(s) && t in s && PairWith(subject, t) !in seen
    ensures Leads(subject, Dedup(subject, s, seen), t)
  {
    var d := Dedup(subject, s, seen);
    if PairWith(subject, s[0]) in seen {
      assert t in s[1..];
      DedupLeads(subject, s[1..], seen, t);
    } else if PairWith(subject, s[0]) == PairWith(subject, t) {
      BeforeTotal(s[0], t);
      assert s[0] == d[0];
    } else {
      var more := seen + {PairWith(subject, s[0])};
      assert t in s[1..];
      DedupLeads(subject, s[1..], more, t);
      var x :| x in Dedup(subject, s[1..], more) && PairWith(subject, x) == PairWith(subject, t) && Before(x, t);
      assert x in d;
    }
  }

  lemma LeaderIsBest(subject: ConflictRef, s: seq<Scored>, x: Scored, t: Scored)
    requires Sorted(s) && x in Dedup(subject, s, {}) && t in s && PairWith(subject, t) == PairWith(subject, x)
    ensures Before(x, t)
  {
    var d := Dedup(subject, s, {});
    DedupSorted(subject, s, {});
    DedupLeads(subject, s, {}, t);
    var y :| y in d && PairWith(subject, y) == PairWith(subject, t) && Before(y, t);
    var i :| 0 <= i < |d| && d[i] == x;
    var j :| 0 <= j < |d| && d[j] == y;
    assert i == j;
  }

  /** Sorting and then keeping first sightings gives the ranking, for every list of neighbours. */
  lemma DedupRanks(subject: ConflictRef, eligible: seq<Scored>)
    ensures IsRanking(subject, eligible, Dedup(subject, Sort(eligible), {}))
  {
    var s := Sort(eligible);
    var d := Dedup(subject, s, {});
    SortSorts(eligible);
    SameElements(s, eligible);
    DedupSorted(subject, s, {});
    DedupFrom(subject, s, {});
    forall x | x in d ensures Best(subject, eligible, x) {
      forall t | t in eligible && PairWith(subject, t) == PairWith(subject, x) ensures Before(x, t) {
        LeaderIsBest(subject, s, x, t);
      }
    }
    forall t | t in eligible ensures Covered(subject, d, PairWith(subject, t)) {
      DedupLeads(subject, s, {}, t);
    }
  }

  lemma SameElements(a: seq<Scored>, b: seq<Scored>)
    requires multiset(a) == multiset(b)
    ensures forall x :: x in a <==> x in b
  {
    forall x ensures x in a <==> x in b {
      assert x in multiset(a) <==> x in multiset(b);
    }
  }

  lemma RankingMember(subject: ConflictRef, eligible: seq<Scored>, a: seq<Scored>, b: seq<Scored>, x: Scored)
    requires IsRanking(subject, eligible, a) && IsRanking(subject, eligible, b) && x in a
    ensures x in b
  {
    assert Best(subject, eligible, x);
    assert Covered(subject, b, PairWith(subject, x));
    var y :| y in b && PairWith(subject, y) == PairWith(subject, x);
    assert Best(subject, eligible, y);
    BeforeTotal(x, y);
  }

  lemma {:induction false} StrictUnique(subject: ConflictRef, a: seq<Scored>, b: seq<Scored>)
    requires Sorted(a) && Sorted(b) && DistinctPairs(subject, a) && DistinctPairs(subject, b)
    requires forall x :: x in a <==> x in b
    ensures a == b
  {
    if a == [] {
      FirstIsMember(b);
    } else {
      assert a[0] in b;
      assert b[0] in a;
      HeadsMeet(a, b);
      forall x ensures x in a[1..] <==> x in b[1..] {
        TailMember(subject, a, x);
        TailMember(subject, b, x);
      }
      StrictUnique(subject, a[1..], b[1..]);
    }
  }

  lemma FirstIsMember(b: seq<Scored>)
    ensures b == [] || b[0] in b
  {
  }

  lemma TailMember(subject: ConflictRef, a: seq<Scored>, x: Scored)
    requires a != [] && DistinctPairs(subject, a)
    ensures x in a[1..] <==> x in a && x != a[0]
  {
    assert a == [a[0]] + a[1..];
  }

  /** There is one ranking. */
  lemma RankingUnique(subject: ConflictRef, eligible: seq<Scored>, a: seq<Scored>, b: seq<Scored>)
    requires IsRanking(subject, eligible, a) && IsRanking(subject, eligible, b)
    ensures a == b
  {
    forall x ensures x in a <==> x in b {
      if x in a {
        RankingMember(subject, eligible, a, b, x);
      }
      if x in b {
        RankingMember(subject, eligible, b, a, x);
      }
    }
    StrictUnique(subject, a, b);
  }

  /** The finder returns the first `maxPairs` of the ranking of its eligible neighbours. */
  lemma SweepIsTopOfRanking(input: FinderInput, ranking: seq<Scored>)
    requires IsRanking(input.subject, EligibleList(input, input.neighbours), ranking)
    ensures Sweep(input) == Pairs(input.subject, Take(ranking, input.maxPairs))
  {
    var eligible := EligibleList(input, input.neighbours);
    DedupRanks(input.subject, eligible);
    RankingUnique(input.subject, eligible, ranking, Dedup(input.subject, Sort(eligible), {}));
  }

  // ---------------------------------------------------------------------------------------------
  // Independence of the neighbours' order
  // ---------------------------------------------------------------------------------------------

  lemma {:induction false} EligibleAppend(input: FinderInput, a: seq<Neighbour>, b: seq<Neighbour>)
    ensures EligibleList(input, a + b) == EligibleList(input, a) + EligibleList(input, b)
  {
    if a == [] {
      assert a + b == b;
    } else {
      EligibleAppend(input, a[1..], b);
      assert (a + b)[1..] == a[1..] + b;
      var e := Eligible(input, a[0]);
      var first: seq<Scored> := if e.Some? then [e.value] else [];
      Seqs.Regroup(first, first, EligibleList(input, a[1..]), EligibleList(input, b));
    }
  }

  lemma EligibleWithout(input: FinderInput, ns: seq<Neighbour>, j: nat)
    requires j < |ns|
    ensures multiset(EligibleList(input, ns))
         == multiset(EligibleList(input, [ns[j]])) + multiset(EligibleList(input, ns[..j] + ns[j + 1..]))
  {
    assert ns == ns[..j] + ([ns[j]] + ns[j + 1..]);
    EligibleAppend(input, ns[..j], [ns[j]] + ns[j + 1..]);
    EligibleAppend(input, [ns[j]], ns[j + 1..]);
    EligibleAppend(input, ns[..j], ns[j + 1..]);
  }

  lemma {:induction false} EligiblePermuted(input: FinderInput, a: seq<Neighbour>, b: seq<Neighbour>)
    requires multiset(a) == multiset(b)
    ensures multiset(EligibleList(input, a)) == multiset(EligibleList(input, b))
    decreases |a|
  {
    assert |a| == |multiset(a)| == |multiset(b)| == |b|;
    if a != [] {
      assert a[0] in multiset(b);
      var j :| 0 <= j < |b| && b[j] == a[0];
      var rest := b[..j] + b[j + 1..];
      Seqs.SameWithout(a, b, j);
      EligiblePermuted(input, a[1..], rest);
      assert a[..0] + a[1..] == a[1..];
      EligibleWithout(input, a, 0);
      EligibleWithout(input, b, j);
    }
  }

  /** Any permutation of the neighbours gives the same list, for all inputs. */
  lemma SweepIgnoresOrder(input: FinderInput, permuted: seq<Neighbour>)
    requires multiset(permuted) == multiset(input.neighbours)
    ensures Sweep(input.(neighbours := permuted)) == Sweep(input)
  {
    var other := input.(neighbours := permuted);
    EligibleSameFilter(input, other, permuted);
    EligiblePermuted(input, input.neighbours, permuted);
    var a, b := EligibleList(input, input.neighbours), EligibleList(input, permuted);
    SortSorts(a);
    SortSorts(b);
    SortedUnique(Sort(a), Sort(b));
  }

  lemma {:induction false} EligibleSameFilter(a: FinderInput, b: FinderInput, ns: seq<Neighbour>)
    requires b == a.(neighbours := b.neighbours)
    ensures EligibleList(a, ns) == EligibleList(b, ns)
  {
    if ns != [] {
      EligibleSameFilter(a, b, ns[1..]);
    }
  }

  // ---------------------------------------------------------------------------------------------
  // References instead of pair keys
  // ---------------------------------------------------------------------------------------------

  ghost predicate WellFormed(subject: ConflictRef, eligible: seq<Scored>) {
    PairSepFree(subject) && forall s :: s in eligible ==> PairSepFree(s.ref)
  }

  ghost predicate Listed(ranking: seq<Scored>, r: ConflictRef) {
    exists x :: x in ranking && x.ref == r
  }

  /** For separator-free ids the ranking lists each eligible reference once, with its best similarity. */
  lemma RankingByReference(subject: ConflictRef, eligible: seq<Scored>, ranking: seq<Scored>)
    requires WellFormed(subject, eligible) && IsRanking(subject, eligible, ranking)
    ensures forall i, j :: 0 <= i < j < |ranking| ==> ranking[i].ref != ranking[j].ref
    ensures forall s, t :: s in ranking && t in eligible && t.ref == s.ref ==> t.sim <= s.sim
    ensures forall t :: t in eligible ==> Listed(ranking, t.ref)
  {
    forall s, t | s in ranking && t in eligible && t.ref == s.ref ensures t.sim <= s.sim {
      assert Best(subject, eligible, s);
    }
    forall t | t in eligible ensures Listed(ranking, t.ref) {
      var x :| x in ranking && PairWith(subject, x) == PairWith(subject, t);
      assert Best(subject, eligible, x);
      UnorderedPairKeyExact(subject, x.ref, subject, t.ref);
    }
  }

  // ---------------------------------------------------------------------------------------------
  // The loops
  // ---------------------------------------------------------------------------------------------

  lemma EligibleSnoc(input: FinderInput, ns: seq<Neighbour>, i: nat)
    requires i < |ns|
    ensures EligibleList(input, ns[..i + 1])
         == EligibleList(input, ns[..i])
            + (if Eligible(input, ns[i]).Some? then [Eligible(input, ns[i]).value] else [])
  {
    assert ns[..i + 1] == ns[..i] + [ns[i]];
    EligibleAppend(input, ns[..i], [ns[i]]);
  }

  method Filter(input: FinderInput) returns (scored: seq<Scored>)
    ensures scored == EligibleList(input, input.neighbours)
  {
    scored := [];
    var ns := input.neighbours;
    for i := 0 to |ns|
      invariant scored == EligibleList(input, ns[..i])
    {
      EligibleSnoc(input, ns, i);
      var e := Eligible(input, ns[i]);
      if e.Some? {
        scored := scored + [e.value];
      }
    }
    assert ns[..|ns|] == ns;
  }

  /** The first i entries leave `kept`; the rest of the whole list is still to come. */
  ghost predicate Kept(subject: ConflictRef, scored: seq<Scored>, i: nat, seen: set<string>, kept: seq<Scored>,
                       full: seq<Scored>)
  {
    i <= |scored| && full == kept + Dedup(subject, scored[i..], seen)
  }

  /** One turn of the `seen` loop. */
  method KeepIfNew(subject: ConflictRef, scored: seq<Scored>, i: nat, seen: set<string>, kept: seq<Scored>,
                   ghost full: seq<Scored>) returns (nowSeen: set<string>, nowKept: seq<Scored>)
    requires i < |scored| && Kept(subject, scored, i, seen, kept, full)
    ensures Kept(subject, scored, i + 1, nowSeen, nowKept, full) && |nowKept| <= |kept| + 1
  {
    DedupAdvance(subject, scored, i, seen, kept, full);
    nowSeen, nowKept := seen, kept;
    var key := PairWith(subject, scored[i]);
    if key !in seen {
      nowSeen, nowKept := seen + {key}, kept + [scored[i]];
    }
  }

  method KeepUpTo(subject: ConflictRef, scored: seq<Scored>, maxPairs: nat, ghost full: seq<Scored>)
    returns (kept: seq<Scored>)
    requires Kept(subject, scored, 0, {}, [], full)
    ensures kept == Take(full, maxPairs)
  {
    var seen: set<string> := {};
    kept := [];
    var i := 0;
    while i < |scored| && |kept| < maxPairs
      invariant |kept| <= maxPairs && Kept(subject, scored, i, seen, kept, full)
    {
      seen, kept := KeepIfNew(subject, scored, i, seen, kept, full);
      i := i + 1;
    }
    KeptAtEnd(subject, scored, i, seen, kept, full, maxPairs);
  }

  /** The `seen` loop with its cap. */
  method DedupAndCap(subject: ConflictRef, scored: seq<Scored>, maxPairs: nat)
    returns (pairs: seq<(ConflictRef, ConflictRef)>)
    ensures pairs == Pairs(subject, Take(Dedup(subject, scored, {}), maxPairs))
  {
    assert scored[0..] == scored;
    var kept := KeepUpTo(subject, scored, maxPairs, Dedup(subject, scored, {}));
    pairs := Pairs(subject, kept);
  }

  lemma KeptAtEnd(subject: ConflictRef, scored: seq<Scored>, i: nat, seen: set<string>, kept: seq<Scored>,
                  full: seq<Scored>, maxPairs: nat)
    requires Kept(subject, scored, i, seen, kept, full) && |kept| <= maxPairs
    requires i == |scored| || |kept| == maxPairs
    ensures kept == Take(full, maxPairs)
  {
    TakePrefix(kept, Dedup(subject, scored[i..], seen), maxPairs);
  }

  lemma DedupStep(subject: ConflictRef, scored: seq<Scored>, i: nat, seen: set<string>)
    requires i < |scored|
    ensures var key := PairWith(subject, scored[i]);
            Dedup(subject, scored[i..], seen)
            == if key in seen then Dedup(subject, scored[i + 1..], seen)
               else [scored[i]] + Dedup(subject, scored[i + 1..], seen + {key})
  {
    assert scored[i..][1..] == scored[i + 1..];
  }

  lemma DedupAdvance(subject: ConflictRef, scored: seq<Scored>, i: nat, seen: set<string>, kept: seq<Scored>,
                     full: seq<Scored>)
    requires i < |scored| && full == kept + Dedup(subject, scored[i..], seen)
    ensures var key := PairWith(subject, scored[i]);
            full == if key in seen then kept + Dedup(subject, scored[i + 1..], seen)
                    else (kept + [scored[i]]) + Dedup(subject, scored[i + 1..], seen + {key})
  {
    DedupStep(subject, scored, i, seen);
    var rest := Dedup(subject, scored[i + 1..], seen + {PairWith(subject, scored[i])});
    Seqs.Regroup(full, kept, [scored[i]], rest);
  }

  lemma TakePrefix(a: seq<Scored>, b: seq<Scored>, n: nat)
    requires |a| == n || (|a| <= n && b == [])
    ensures Take(a + b, n) == a
  {
  }

  /** The pairs of a ranking: the subject with each reference, from the first on, up to the cap. */
  ghost predicate TopOf(subject: ConflictRef, ranking: seq<Scored>, maxPairs: nat,
                        pairs: seq<(ConflictRef, ConflictRef)>) {
    && |pairs| == (if |ranking| < maxPairs then |ranking| else maxPairs)
    && forall i :: 0 <= i < |pairs| ==> pairs[i] == (subject, ranking[i].ref)
  }

  lemma {:induction false} PairsAt(subject: ConflictRef, s: seq<Scored>)
    ensures |Pairs(subject, s)| == |s|
    ensures forall i :: 0 <= i < |s| ==> Pairs(subject, s)[i] == (subject, s[i].ref)
  {
    if s != [] {
      PairsAt(subject, s[..|s| - 1]);
    }
  }

  method DecideConflictSweep(input: FinderInput) returns (pairs: seq<(ConflictRef, ConflictRef)>)
    ensures pairs == Sweep(input)
    ensures forall ranking :: IsRanking(input.subject, EligibleList(input, input.neighbours), ranking)
              ==> TopOf(input.subject, ranking, input.maxPairs, pairs)
  {
    var scored := Filter(input);
    pairs := DedupAndCap(input.subject, Sort(scored), input.maxPairs);
    forall ranking | IsRanking(input.subject, EligibleList(input, input.neighbours), ranking)
      ensures TopOf(input.subject, ranking, input.maxPairs, pairs)
    {
      SweepIsTopOfRanking(input, ranking);
      PairsAt(input.subject, Take(ranking, input.maxPairs));
    }
  }
}
