/**
 Replace-all, fence markers, and reading a text as a sequence of markers and plain characters.
 Every marker has the shape `<<<NAME>>>`; all facts below are about that shape, not about one name.
 */
module Markers {
  import opened Wrappers
  import opened Seqs

  /** `s.replace(pat, rep)`: leftmost, non-overlapping. */
  function ReplaceAll(s: string, pat: string, rep: string): string
    requires pat != ""
    decreases |s|
  {
    if s == "" then ""
    else if pat <= s then rep + ReplaceAll(s[|pat|..], pat, rep)
    else [s[0]] + ReplaceAll(s[1..], pat, rep)
  }

  predicate ProperName(name: string) {
    name != "" && forall i :: 0 <= i < |name| ==> name[i] != '<' && name[i] != '>' && name[i] != '['
  }

  function Marker(name: string): (m: string)
    ensures |m| == |name| + 6
    ensures forall i :: 0 <= i < 3 ==> m[i] == '<'
    ensures forall i :: 0 <= i < |name| ==> m[3 + i] == name[i]
    ensures forall i :: |name| + 3 <= i < |name| + 6 ==> m[i] == '>'
  {
    "<<<" + name + ">>>"
  }

  /** `text` holds `m` at position i. */
  predicate HasAt(text: string, i: nat, m: string) {
    i + |m| <= |text| && text[i..i + |m|] == m
  }

  lemma HasAtChars(text: string, i: nat, m: string)
    ensures HasAt(text, i, m) <==> i + |m| <= |text| && forall j :: 0 <= j < |m| ==> text[i + j] == m[j]
  {
    if i + |m| <= |text| {
      var piece := text[i..i + |m|];
      assert forall j :: 0 <= j < |m| ==> piece[j] == text[i + j];
    }
  }

  lemma PrefixIsFirst(text: string, m: string)
    ensures m <= text <==> HasAt(text, 0, m)
  {
  }

  ghost predicate Free(text: string, name: string) {
    forall i: nat :: !HasAt(text, i, Marker(name))
  }

  // ---------------------------------------------------------------------------------------------
  // Markers cannot overlap
  // ---------------------------------------------------------------------------------------------

  /** The tail of one marker from k on and the start of another disagree somewhere they both reach. */
  lemma TailClash(a: string, b: string, k: nat) returns (j: nat)
    requires ProperName(a) && ProperName(b) && k < |a| + 6 && (k > 0 || a != b)
    ensures k + j < |a| + 6 && j < |b| + 6 && Marker(a)[k + j] != Marker(b)[j]
  {
    if k >= 3 {
      j := 0;
      assert k < 3 + |a| ==> Marker(a)[3 + (k - 3)] == a[k - 3];
    } else if k > 0 {
      j := 3 - k;
      assert Marker(a)[3 + 0] == a[0];
    } else {
      j := Differ(a, b);
    }
  }

  lemma Differ(a: string, b: string) returns (j: nat)
    requires ProperName(a) && ProperName(b) && a != b
    ensures j < |a| + 6 && j < |b| + 6 && Marker(a)[j] != Marker(b)[j]
  {
    if i: nat :| i < |a| && i < |b| && a[i] != b[i] {
      j := 3 + i;
      assert Marker(a)[3 + i] == a[i] && Marker(b)[3 + i] == b[i];
    } else if |a| < |b| {
      j := 3 + |a|;
      assert Marker(b)[3 + |a|] == b[|a|];
    } else {
      assert |a| == |b| ==> a == b;
      j := 3 + |b|;
      assert Marker(a)[3 + |b|] == a[|b|];
    }
  }

  /** Two markers in one text start at the same place and are the same, or do not overlap. */
  lemma NoOverlap(text: string, i: nat, a: string, k: nat, b: string)
    requires ProperName(a) && ProperName(b)
    requires HasAt(text, i, Marker(a)) && HasAt(text, k, Marker(b)) && i <= k < i + |Marker(a)|
    ensures i == k && a == b
  {
    HasAtChars(text, i, Marker(a));
    HasAtChars(text, k, Marker(b));
    forall j | 0 <= j < |Marker(b)| && k - i + j < |Marker(a)|
      ensures Marker(a)[k - i + j] == Marker(b)[j]
    {
      assert text[i + (k - i + j)] == text[k + j];
    }
    if i < k || a != b {
      var j := TailClash(a, b, k - i);
    }
  }

  // ---------------------------------------------------------------------------------------------
  // Replacing markers
  // ---------------------------------------------------------------------------------------------

  /**
   A replacement that no marker can begin, end or lie in: another marker shape, or text without `<` starting
   in `[`.
   */
  ghost predicate Inert(rep: string, name: string) {
    || (exists other :: ProperName(other) && other != name && rep == Marker(other))
    || (rep != "" && rep[0] == '[' && forall i :: 0 <= i < |rep| ==> rep[i] != '<')
  }

  /** No non-empty tail of the marker agrees with the start of an inert replacement. */
  lemma TailNotIntoRep(name: string, rep: string, k: nat, after: string)
    requires ProperName(name) && Inert(rep, name) && k < |name| + 6
    ensures !(Marker(name)[k..] <= rep + after)
  {
    var tail, whole := Marker(name)[k..], rep + after;
    var j: nat := 0;
    if other :| ProperName(other) && other != name && rep == Marker(other) {
      j := TailClash(name, other, k);
    } else {
      assert 3 <= k < 3 + |name| ==> Marker(name)[3 + (k - 3)] == name[k - 3];
    }
    assert tail[j] == Marker(name)[k + j] && whole[j] == rep[j] && tail[j] != whole[j];
  }

  /** The marker does not begin inside an inert replacement. */
  lemma NotFromRep(name: string, rep: string, p: nat, after: string)
    requires ProperName(name) && Inert(rep, name) && p < |rep|
    ensures !HasAt(rep + after, p, Marker(name))
  {
    var whole := rep + after;
    assert whole[p] == rep[p];
    assert HasAt(whole, p, Marker(name)) ==> whole[p] == whole[p..p + |Marker(name)|][0] == '<';
    if other :| ProperName(other) && other != name && rep == Marker(other) {
      assert HasAt(whole, 0, Marker(other));
      if HasAt(whole, p, Marker(name)) {
        NoOverlap(whole, 0, other, p, name);
      }
    }
  }

  /** A tail of the marker at the front of the replaced text was at the front of the text. */
  lemma {:induction false} TailWasThere(s: string, pat: string, rep: string, name: string, k: nat)
    requires pat != "" && ProperName(name) && Inert(rep, name) && k <= |name| + 6
    requires Marker(name)[k..] <= ReplaceAll(s, pat, rep)
    ensures Marker(name)[k..] <= s
    decreases |s|
  {
    var tail := Marker(name)[k..];
    if tail != "" && s != "" {
      if pat <= s {
        TailNotIntoRep(name, rep, k, ReplaceAll(s[|pat|..], pat, rep));
      } else {
        var r := ReplaceAll(s[1..], pat, rep);
        assert ([s[0]] + r)[1..] == r;
        assert Marker(name)[k + 1..] == tail[1..] <= r;
        TailWasThere(s[1..], pat, rep, name, k + 1);
        assert s == [s[0]] + s[1..] && tail == [tail[0]] + tail[1..];
      }
    }
  }

  /** Replacing with an inert text creates no marker. */
  lemma {:induction false} ReplaceCreatesNone(s: string, pat: string, rep: string, name: string)
    requires pat != "" && ProperName(name) && Inert(rep, name)
    requires Free(s, name) || pat == Marker(name)
    ensures Free(ReplaceAll(s, pat, rep), name)
    decreases |s|
  {
    var m, out := Marker(name), ReplaceAll(s, pat, rep);
    forall i: nat
      ensures !HasAt(out, i, m)
    {
      if s == "" {
      } else if pat <= s {
        var rest := s[|pat|..];
        FreeSuffix(s, name, |pat|);
        ReplaceCreatesNone(rest, pat, rep, name);
        if i < |rep| {
          NotFromRep(name, rep, i, ReplaceAll(rest, pat, rep));
        } else {
          HasAtSuffix(rep, ReplaceAll(rest, pat, rep), i, m);
        }
      } else {
        FreeSuffix(s, name, 1);
        ReplaceCreatesNone(s[1..], pat, rep, name);
        if i == 0 {
          assert m[0..] == m && (m <= s <==> HasAt(s, 0, m)) && (m <= out <==> HasAt(out, 0, m));
          if m <= out {
            TailWasThere(s, pat, rep, name, 0);
          }
        } else {
          HasAtSuffix([s[0]], ReplaceAll(s[1..], pat, rep), i, m);
        }
      }
    }
  }

  lemma HasAtSuffix(a: string, b: string, i: nat, m: string)
    requires i >= |a|
    ensures HasAt(a + b, i, m) <==> HasAt(b, i - |a|, m)
  {
    if i + |m| <= |a + b| {
      assert (a + b)[i..i + |m|] == b[i - |a|..i - |a| + |m|];
    }
  }

  lemma FreeSuffix(s: string, name: string, k: nat)
    requires k <= |s|
    ensures Free(s, name) ==> Free(s[k..], name)
  {
    var before, rest := s[..k], s[k..];
    assert s == before + rest;
    forall i: nat
      ensures HasAt(rest, i, Marker(name)) ==> HasAt(s, k + i, Marker(name))
    {
      HasAtSuffix(before, rest, k + i, Marker(name));
    }
  }

  lemma FreePrefix(s: string, name: string, k: nat)
    requires k <= |s|
    ensures Free(s, name) ==> Free(s[..k], name)
  {
    forall i: nat
      ensures HasAt(s[..k], i, Marker(name)) ==> HasAt(s, i, Marker(name))
    {
      if i + |Marker(name)| <= k {
        assert s[..k][i..i + |Marker(name)|] == s[i..i + |Marker(name)|];
      }
    }
  }

  /** Replacing what is not there changes nothing. */
  lemma {:induction false} ReplaceAbsent(s: string, name: string, rep: string)
    requires Free(s, name)
    ensures ReplaceAll(s, Marker(name), rep) == s
    decreases |s|
  {
    if s != "" {
      assert Marker(name) <= s ==> HasAt(s, 0, Marker(name));
      FreeSuffix(s, name, 1);
      ReplaceAbsent(s[1..], name, rep);
    }
  }

  // ---------------------------------------------------------------------------------------------
  // Reading a text
  // ---------------------------------------------------------------------------------------------

  datatype Token = Mark(name: string) | Ch(c: char)

  ghost predicate ProperNames(names: seq<string>) {
    forall n :: n in names ==> ProperName(n)
  }

  /** The first listed marker the text begins with. */
  function MarkAt(names: seq<string>, s: string): (found: Option<string>)
    ensures found.Some? ==> found.value in names && Marker(found.value) <= s
    ensures found.None? ==> forall n :: n in names ==> !(Marker(n) <= s)
  {
    if names == [] then None
    else if Marker(names[0]) <= s then Some(names[0])
    else MarkAt(names[1..], s)
  }

  /** A text as markers and plain characters, read from the left. */
  function Tokenize(names: seq<string>, s: string): seq<Token>
    decreases |s|
  {
    if s == "" then []
    else
      var m := MarkAt(names, s);
      if m.Some? then [Mark(m.value)] + Tokenize(names, s[|Marker(m.value)|..])
      else [Ch(s[0])] + Tokenize(names, s[1..])
  }

  function Plain(s: string): seq<Token> {
    seq(|s|, i requires 0 <= i < |s| => Ch(s[i]))
  }

  function MarkCount(tokens: seq<Token>): nat {
    if tokens == [] then 0 else (if tokens[0].Mark? then 1 else 0) + MarkCount(tokens[1..])
  }

  ghost predicate Clean(names: seq<string>, s: string) {
    forall n :: n in names ==> Free(s, n)
  }

  /** No marker lies across the place where the two texts meet. */
  ghost predicate Apart(names: seq<string>, a: string, b: string) {
    forall n: string, i: nat :: n in names && i < |a| && HasAt(a + b, i, Marker(n)) ==> i + |Marker(n)| <= |a|
  }

  lemma MarkAtUnique(names: seq<string>, s: string, n: string)
    requires ProperNames(names) && n in names && Marker(n) <= s
    ensures MarkAt(names, s) == Some(n)
  {
    var m := MarkAt(names, s).value;
    assert HasAt(s, 0, Marker(n)) && HasAt(s, 0, Marker(m));
    NoOverlap(s, 0, n, 0, m);
  }

  lemma ApartSuffix(names: seq<string>, a: string, b: string, k: nat)
    requires Apart(names, a, b) && k <= |a|
    ensures Apart(names, a[k..], b)
  {
    forall n: string, i: nat | n in names && i < |a[k..]| && HasAt(a[k..] + b, i, Marker(n))
      ensures i + |Marker(n)| <= |a[k..]|
    {
      assert a + b == a[..k] + (a[k..] + b);
      HasAtSuffix(a[..k], a[k..] + b, k + i, Marker(n));
    }
  }

  /** Two texts that no marker lies across are read one after the other. */
  lemma {:induction false} TokenizeConcat(names: seq<string>, a: string, b: string)
    requires ProperNames(names) && Apart(names, a, b)
    ensures Tokenize(names, a + b) == Tokenize(names, a) + Tokenize(names, b)
    decreases |a|
  {
    if a == "" {
      assert a + b == b;
    } else {
      var first, step := SameFirst(names, a, b);
      ApartSuffix(names, a, b, step);
      TokenizeConcat(names, a[step..], b);
      Regroup([], [first], Tokenize(names, a[step..]), Tokenize(names, b));
    }
  }

  /** What follows does not change the first token. */
  lemma SameFirst(names: seq<string>, a: string, b: string) returns (first: Token, step: nat)
    requires ProperNames(names) && Apart(names, a, b) && a != ""
    ensures 0 < step <= |a|
    ensures Tokenize(names, a) == [first] + Tokenize(names, a[step..])
    ensures Tokenize(names, a + b) == [first] + Tokenize(names, a[step..] + b)
  {
    var m := MarkAt(names, a);
    first, step := if m.Some? then Mark(m.value) else Ch(a[0]), if m.Some? then |Marker(m.value)| else 1;
    assert (a + b)[step..] == a[step..] + b;
    if m.Some? {
      assert Marker(m.value) <= a + b;
      MarkAtUnique(names, a + b, m.value);
    } else {
      NoMarkFirst(names, a, b);
    }
  }

  lemma NoMarkFirst(names: seq<string>, a: string, b: string)
    requires a != "" && Apart(names, a, b) && MarkAt(names, a).None?
    ensures MarkAt(names, a + b).None?
  {
    forall n | n in names
      ensures !(Marker(n) <= a + b)
    {
      assert Marker(n) <= a + b ==> HasAt(a + b, 0, Marker(n));
      assert Marker(n) <= a + b && |Marker(n)| <= |a| ==> Marker(n) <= a;
    }
  }

  lemma ApartBeforeMarker(names: seq<string>, a: string, name: string, c: string)
    requires ProperNames(names) && ProperName(name)
    ensures Apart(names, a, Marker(name) + c)
  {
    var text := a + (Marker(name) + c);
    assert HasAt(text, |a|, Marker(name));
    forall n: string, i: nat | n in names && i < |a| && HasAt(text, i, Marker(n))
      ensures i + |Marker(n)| <= |a|
    {
      if i + |Marker(n)| > |a| {
        NoOverlap(text, i, n, |a|, name);
      }
    }
  }

  /** A character that occurs in no marker. */
  ghost predicate SafeChar(names: seq<string>, c: char) {
    c != '<' && c != '>' && forall n :: n in names ==> c !in n
  }

  lemma SafeNotInMarker(names: seq<string>, n: string, c: char)
    requires SafeChar(names, c) && n in names
    ensures forall j :: 0 <= j < |Marker(n)| ==> Marker(n)[j] != c
  {
    assert forall j :: 0 <= j < |n| ==> Marker(n)[3 + j] == n[j];
    assert forall j :: 3 <= j < 3 + |n| ==> Marker(n)[j] == n[j - 3];
  }

  lemma ApartAtSafe(names: seq<string>, a: string, b: string)
    requires a == "" || b == "" || SafeChar(names, a[|a| - 1]) || SafeChar(names, b[0])
    ensures Apart(names, a, b)
  {
    forall n: string, i: nat | n in names && i < |a| && HasAt(a + b, i, Marker(n))
      ensures i + |Marker(n)| <= |a|
    {
      var m := Marker(n);
      assert forall j :: 0 <= j < |m| ==> m[j] == (a + b)[i..i + |m|][j] == (a + b)[i + j];
      assert i + |m| > |a| ==> m[|a| - 1 - i] == a[|a| - 1];
      assert i + |m| > |a| ==> m[|a| - i] == b[0];
      if SafeChar(names, a[|a| - 1]) {
        SafeNotInMarker(names, n, a[|a| - 1]);
      } else if b != "" {
        SafeNotInMarker(names, n, b[0]);
      }
    }
  }

  /** A text without markers is read as its characters. */
  lemma {:induction false} CleanIsPlain(names: seq<string>, s: string)
    requires Clean(names, s)
    ensures Tokenize(names, s) == Plain(s)
    decreases |s|
  {
    if s != "" {
      forall n | n in names
        ensures !(Marker(n) <= s) && Free(s[1..], n)
      {
        PrefixIsFirst(s, Marker(n));
        FreeSuffix(s, n, 1);
      }
      CleanIsPlain(names, s[1..]);
      assert Plain(s) == [Ch(s[0])] + Plain(s[1..]);
    }
  }

  lemma CleanConcat(names: seq<string>, a: string, b: string)
    requires Clean(names, a) && Clean(names, b) && Apart(names, a, b)
    ensures Clean(names, a + b)
  {
    forall n, i: nat | n in names
      ensures !HasAt(a + b, i, Marker(n))
    {
      if i < |a| {
        HasAtChars(a + b, i, Marker(n));
        HasAtChars(a, i, Marker(n));
      } else {
        HasAtSuffix(a, b, i, Marker(n));
      }
    }
  }

  /** A text without `<` holds no marker. */
  predicate NoAngle(s: string) {
    forall i :: 0 <= i < |s| ==> s[i] != '<'
  }

  lemma NoAngleClean(names: seq<string>, s: string)
    requires NoAngle(s)
    ensures Clean(names, s) && Tokenize(names, s) == Plain(s)
  {
    forall n, i: nat
      ensures !HasAt(s, i, Marker(n))
    {
      HasAtChars(s, i, Marker(n));
      assert Marker(n)[0] == '<';
    }
    CleanIsPlain(names, s);
  }

  lemma TokenizeMarker(names: seq<string>, name: string, rest: string)
    requires ProperNames(names) && name in names
    ensures Tokenize(names, Marker(name) + rest) == [Mark(name)] + Tokenize(names, rest)
  {
    var text := Marker(name) + rest;
    MarkAtUnique(names, text, name);
    assert text[|Marker(name)|..] == rest;
  }

  /** Clean text between two markers is read as plain text between two marks. */
  lemma FencedTokens(names: seq<string>, open: string, text: string, close: string, rest: string)
    requires ProperNames(names) && open in names && close in names && Clean(names, text)
    ensures Tokenize(names, Marker(open) + (text + (Marker(close) + rest))) ==
            [Mark(open)] + (Plain(text) + ([Mark(close)] + Tokenize(names, rest)))
  {
    TokenizeMarker(names, open, text + (Marker(close) + rest));
    ApartBeforeMarker(names, text, close, rest);
    TokenizeConcat(names, text, Marker(close) + rest);
    CleanIsPlain(names, text);
    TokenizeMarker(names, close, rest);
  }

  lemma {:induction false} MarkCountConcat(a: seq<Token>, b: seq<Token>)
    ensures MarkCount(a + b) == MarkCount(a) + MarkCount(b)
  {
    if a == [] {
      assert a + b == b;
    } else {
      assert (a + b)[0] == a[0] && (a + b)[1..] == a[1..] + b;
      MarkCountConcat(a[1..], b);
    }
  }

  lemma {:induction false} PlainHasNoMarks(s: string)
    ensures MarkCount(Plain(s)) == 0
  {
    if s != "" {
      assert Plain(s)[1..] == Plain(s[1..]);
      PlainHasNoMarks(s[1..]);
    }
  }

  /** A text is read without markers exactly when it holds none. */
  lemma {:induction false} CleanIffNoMarks(names: seq<string>, s: string)
    requires ProperNames(names)
    ensures MarkCount(Tokenize(names, s)) == 0 <==> Clean(names, s)
    decreases |s|
  {
    if Clean(names, s) {
      CleanIsPlain(names, s);
      PlainHasNoMarks(s);
    } else {
      var n :| n in names && !Free(s, n);
      var i: nat :| HasAt(s, i, Marker(n));
      MarkFound(names, s, n, i);
    }
  }

  lemma {:induction false} MarkFound(names: seq<string>, s: string, n: string, i: nat)
    requires ProperNames(names) && n in names && HasAt(s, i, Marker(n))
    ensures MarkCount(Tokenize(names, s)) > 0
    decreases |s|
  {
    if MarkAt(names, s).None? {
      assert Marker(n) <= s <==> HasAt(s, 0, Marker(n));
      assert s == [s[0]] + s[1..];
      HasAtSuffix([s[0]], s[1..], i, Marker(n));
      MarkFound(names, s[1..], n, i - 1);
    }
  }

  // ---------------------------------------------------------------------------------------------
  // What replacing several markers comes to
  // ---------------------------------------------------------------------------------------------

  /** One replacement after the other, each over the whole text. */
  function ReplaceEach(s: string, names: seq<string>, rep: string -> string): string
    decreases |names|
  {
    if names == [] then s
    else ReplaceEach(ReplaceAll(s, Marker(names[0]), rep(names[0])), names[1..], rep)
  }

  /** A text read as tokens, with every plain character kept and every mark written as `rep` has it. */
  function Rendered(tokens: seq<Token>, rep: string -> string): string {
    if tokens == [] then ""
    else (match tokens[0] case Ch(c) => [c] case Mark(n) => rep(n)) + Rendered(tokens[1..], rep)
  }

  /** No replacement can be part of a marker. */
  ghost predicate AllInert(names: seq<string>, rep: string -> string) {
    forall n, m :: n in names && m in names ==> Inert(rep(m), n)
  }

  lemma EachFirst(s: string, n: string, rest: seq<string>, rep: string -> string)
    ensures ReplaceEach(s, [n] + rest, rep) == ReplaceEach(ReplaceAll(s, Marker(n), rep(n)), rest, rep)
  {
    assert ([n] + rest)[0] == n && ([n] + rest)[1..] == rest;
  }

  /** What no occurrence begins in is kept. */
  lemma {:induction false} ReplaceSkips(a: string, b: string, pat: string, rep: string)
    requires pat != "" && forall i :: 0 <= i < |a| ==> !HasAt(a + b, i, pat)
    ensures ReplaceAll(a + b, pat, rep) == a + ReplaceAll(b, pat, rep)
    decreases |a|
  {
    if a == "" {
      assert a + b == b;
    } else {
      var rest := a[1..];
      assert (a + b)[0] == a[0] && (a + b)[1..] == rest + b;
      assert !(pat <= a + b) by {
        assert !HasAt(a + b, 0, pat);
      }
      forall i | 0 <= i < |rest|
        ensures !HasAt(rest + b, i, pat)
      {
        assert a + b == [a[0]] + (rest + b) && !HasAt(a + b, i + 1, pat);
        HasAtSuffix([a[0]], rest + b, i + 1, pat);
      }
      ReplaceSkips(rest, b, pat, rep);
      assert a == [a[0]] + rest;
    }
  }

  lemma {:induction false} EachKeepsInert(todo: seq<string>, rep: string -> string, y: string, u: string)
    requires ProperNames(todo) && forall n :: n in todo ==> Inert(y, n)
    ensures ReplaceEach(y + u, todo, rep) == y + ReplaceEach(u, todo, rep)
    decreases |todo|
  {
    if todo != [] {
      var n := todo[0];
      forall i | 0 <= i < |y|
        ensures !HasAt(y + u, i, Marker(n))
      {
        NotFromRep(n, y, i, u);
      }
      ReplaceSkips(y, u, Marker(n), rep(n));
      EachKeepsInert(todo[1..], rep, y, ReplaceAll(u, Marker(n), rep(n)));
    }
  }

  lemma {:induction false} EachReplacesMarker(names: seq<string>, todo: seq<string>, rep: string -> string, m: string,
                                              u: string)
    requires ProperNames(names) && AllInert(names, rep) && m in names && forall n :: n in todo ==> n in names
    ensures ReplaceEach(Marker(m) + u, todo, rep) ==
            (if m in todo then rep(m) else Marker(m)) + ReplaceEach(u, todo, rep)
    decreases |todo|
  {
    if todo != [] {
      var n, text := todo[0], Marker(m) + u;
      var next := ReplaceAll(u, Marker(n), rep(n));
      if n == m {
        assert text[|Marker(m)|..] == u;
        assert forall k :: k in todo[1..] ==> k in todo && Inert(rep(m), k);
        EachKeepsInert(todo[1..], rep, rep(m), next);
      } else {
        assert HasAt(text, 0, Marker(m));
        forall i: nat | i < |Marker(m)|
          ensures !HasAt(text, i, Marker(n))
        {
          if HasAt(text, i, Marker(n)) {
            NoOverlap(text, 0, m, i, n);
          }
        }
        ReplaceSkips(Marker(m), u, Marker(n), rep(n));
        EachReplacesMarker(names, todo[1..], rep, m, next);
      }
    }
  }

  lemma {:induction false} EachKeepsChar(names: seq<string>, todo: seq<string>, rep: string -> string, c: char,
                                         u: string)
    requires ProperNames(names) && AllInert(names, rep) && forall n :: n in todo ==> n in names
    requires forall n :: n in names ==> !(Marker(n) <= [c] + u)
    ensures ReplaceEach([c] + u, todo, rep) == [c] + ReplaceEach(u, todo, rep)
    decreases |todo|
  {
    if todo != [] {
      var n := todo[0];
      var next := ReplaceAll(u, Marker(n), rep(n));
      assert [c][0] == c && !HasAt([c] + u, 0, Marker(n));
      ReplaceSkips([c], u, Marker(n), rep(n));
      forall m | m in names
        ensures !(Marker(m) <= [c] + next)
      {
        NotMadeAtFront(names, rep, c, u, n, m);
      }
      EachKeepsChar(names, todo[1..], rep, c, next);
    }
  }

  /** A replacement further on does not complete a marker. */
  lemma NotMadeAtFront(names: seq<string>, rep: string -> string, c: char, u: string, n: string, m: string)
    requires ProperNames(names) && AllInert(names, rep) && n in names && m in names && !(Marker(m) <= [c] + u)
    ensures !(Marker(m) <= [c] + ReplaceAll(u, Marker(n), rep(n)))
  {
    var next := ReplaceAll(u, Marker(n), rep(n));
    if Marker(m) <= [c] + next {
      assert ([c] + next)[1..] == next && Marker(m)[1..] <= next;
      assert Marker(m) == [c] + Marker(m)[1..];
      TailWasThere(u, Marker(n), rep(n), m, 1);
    }
  }

  /** Replacing all listed markers one after the other writes each mark anew and keeps everything else. */
  lemma {:induction false} ReplacingRenders(names: seq<string>, todo: seq<string>, rep: string -> string, s: string)
    requires ProperNames(names) && AllInert(names, rep) && forall n :: n in todo <==> n in names
    ensures ReplaceEach(s, todo, rep) == Rendered(Tokenize(names, s), rep)
    decreases |s|
  {
    if s == "" {
      EachOfNothing(todo, rep);
    } else {
      var m := MarkAt(names, s);
      if m.Some? {
        var rest := s[|Marker(m.value)|..];
        assert s == Marker(m.value) + rest;
        EachReplacesMarker(names, todo, rep, m.value, rest);
        ReplacingRenders(names, todo, rep, rest);
      } else {
        assert s == [s[0]] + s[1..];
        EachKeepsChar(names, todo, rep, s[0], s[1..]);
        ReplacingRenders(names, todo, rep, s[1..]);
      }
    }
  }

  lemma {:induction false} EachOfNothing(todo: seq<string>, rep: string -> string)
    ensures ReplaceEach("", todo, rep) == ""
    decreases |todo|
  {
    if todo != [] {
      EachOfNothing(todo[1..], rep);
    }
  }

  /** A text without markers is written as it is. */
  lemma CleanRendersItself(names: seq<string>, rep: string -> string, s: string)
    requires Clean(names, s)
    ensures Rendered(Tokenize(names, s), rep) == s
  {
    CleanIsPlain(names, s);
    PlainRendersItself(rep, s);
  }

  lemma {:induction false} PlainRendersItself(rep: string -> string, s: string)
    ensures Rendered(Plain(s), rep) == s
    decreases |s|
  {
    if s != "" {
      assert Plain(s)[1..] == Plain(s[1..]);
      PlainRendersItself(rep, s[1..]);
    }
  }
}
