/**
 Untrusted text in prompts: every source is neutralised and wrapped between `<<<SOURCE_BEGIN>>>` and
 `<<<SOURCE_END>>>`, and the prompt reads back as exactly the sources that were pushed.
 */
module Fence {
  import opened Wrappers
  import opened Markers
  import opened Sanitize
  import opened Seqs

  const BEGIN_NAME := "SOURCE_BEGIN"
  const END_NAME := "SOURCE_END"
  const ZWSP := '\U{200B}'
  const FENCES: seq<string> := [BEGIN_NAME, END_NAME]

  lemma FencesProper()
    ensures ProperNames(FENCES) && BEGIN_NAME != END_NAME
  {
    assert ProperName(BEGIN_NAME) && ProperName(END_NAME);
    assert |BEGIN_NAME| == 12 && |END_NAME| == 10;
  }

  /** The punctuation the prompts put around interpolated text occurs in no fence marker. */
  lemma SafePunctuation(c: char)
    requires c in ['\n', ' ', '(', ')', '[', ']']
    ensures SafeChar(FENCES, c)
  {
    assert forall i :: 0 <= i < |BEGIN_NAME| ==> BEGIN_NAME[i] != c;
    assert forall i :: 0 <= i < |END_NAME| ==> END_NAME[i] != c;
  }

  // ---------------------------------------------------------------------------------------------
  // Neutralising
  // ---------------------------------------------------------------------------------------------

  predicate Contains(s: string, m: string) {
    exists i :: 0 <= i <= |s| && HasAt(s, i, m)
  }

  /** The marker with a zero-width space before its closing brackets. */
  function Broken(name: string): string {
    Marker(name + [ZWSP])
  }

  function ReplaceBoth(s: string): string {
    ReplaceAll(ReplaceAll(s, Marker(END_NAME), Broken(END_NAME)), Marker(BEGIN_NAME), Broken(BEGIN_NAME))
  }

  function Neutralize(s: string): string {
    if Contains(s, Marker(END_NAME)) || Contains(s, Marker(BEGIN_NAME)) then ReplaceBoth(s) else s
  }

  lemma BrokenIsInert(name: string, of: string)
    requires name in FENCES && of in FENCES
    ensures Inert(Broken(of), name)
  {
    FencesProper();
    var other := of + [ZWSP];
    assert ProperName(other);
    assert other[|other| - 1] == ZWSP && name[|name| - 1] != ZWSP;
  }

  /** No text contains a fence marker once neutralised. */
  lemma NeutralizedIsClean(s: string)
    ensures Clean(FENCES, Neutralize(s))
  {
    FencesProper();
    var once := ReplaceAll(s, Marker(END_NAME), Broken(END_NAME));
    BrokenIsInert(END_NAME, END_NAME);
    BrokenIsInert(BEGIN_NAME, BEGIN_NAME);
    BrokenIsInert(END_NAME, BEGIN_NAME);
    ReplaceCreatesNone(s, Marker(END_NAME), Broken(END_NAME), END_NAME);
    ReplaceCreatesNone(once, Marker(BEGIN_NAME), Broken(BEGIN_NAME), BEGIN_NAME);
    ReplaceCreatesNone(once, Marker(BEGIN_NAME), Broken(BEGIN_NAME), END_NAME);
    forall n, i: nat | n in FENCES && HasAt(s, i, Marker(n))
      ensures Contains(s, Marker(n))
    {
    }
  }

  /** The guard only saves work: with or without it the result is the same. */
  lemma GuardChangesNothing(s: string)
    ensures Neutralize(s) == ReplaceBoth(s)
  {
    if !Contains(s, Marker(END_NAME)) && !Contains(s, Marker(BEGIN_NAME)) {
      forall n, i: nat | n in FENCES && HasAt(s, i, Marker(n))
        ensures Contains(s, Marker(n))
      {
      }
      ReplaceAbsent(s, END_NAME, Broken(END_NAME));
      ReplaceAbsent(s, BEGIN_NAME, Broken(BEGIN_NAME));
    }
  }

  /** A marker in a source, as a prompt shows it. */
  function ShownMark(name: string): string {
    "<<<" + name + "\U{200B}" + ">>>"
  }

  /** A source as a prompt shows it: every character kept, and each marker broken by a zero-width space. */
  function AsShown(s: string): string {
    Rendered(Tokenize(FENCES, s), ShownMark)
  }

  /** For every text neutralising comes to exactly that; a text without markers is unchanged. */
  lemma NeutralizeShows(s: string)
    ensures Neutralize(s) == AsShown(s)
    ensures Clean(FENCES, s) ==> Neutralize(s) == s
  {
    FencesProper();
    GuardChangesNothing(s);
    forall n, m | n in FENCES && m in FENCES
      ensures Inert(ShownMark(m), n)
    {
      BrokenIsInert(n, m);
      ShownMarkIsBroken(m);
    }
    ReplaceBothEach(s);
    ReplacingRenders(FENCES, [END_NAME, BEGIN_NAME], ShownMark, s);
    if Clean(FENCES, s) {
      CleanRendersItself(FENCES, ShownMark, s);
    }
  }

  lemma ShownMarkIsBroken(name: string)
    ensures ShownMark(name) == Broken(name)
  {
    Regroup([], "<<<", name, [ZWSP]);
  }

  lemma ReplaceBothEach(s: string)
    ensures ReplaceBoth(s) == ReplaceEach(s, [END_NAME, BEGIN_NAME], ShownMark)
  {
    var once := ReplaceAll(s, Marker(END_NAME), Broken(END_NAME));
    ShownMarkIsBroken(END_NAME);
    ShownMarkIsBroken(BEGIN_NAME);
    assert [END_NAME, BEGIN_NAME] == [END_NAME] + [BEGIN_NAME] && [BEGIN_NAME] == [BEGIN_NAME] + [];
    EachFirst(s, END_NAME, [BEGIN_NAME], ShownMark);
    EachFirst(once, BEGIN_NAME, [], ShownMark);
  }

  lemma {:induction false} StripReplace(s: string, pat: string, rep: string)
    requires pat != "" && Strip(pat) == Strip(rep)
    ensures Strip(ReplaceAll(s, pat, rep)) == Strip(s)
    decreases |s|
  {
    if s == "" {
    } else if pat <= s {
      StripReplace(s[|pat|..], pat, rep);
      StripConcat(rep, ReplaceAll(s[|pat|..], pat, rep));
      StripConcat(pat, s[|pat|..]);
      assert s == pat + s[|pat|..];
    } else {
      StripReplace(s[1..], pat, rep);
      StripConcat([s[0]], ReplaceAll(s[1..], pat, rep));
      StripConcat([s[0]], s[1..]);
      assert s == [s[0]] + s[1..];
    }
  }

  lemma BrokenStripsBack(name: string)
    ensures Strip(Broken(name)) == Strip(Marker(name))
  {
    var open := "<<<" + name;
    assert Broken(name) == open + [ZWSP] + ">>>" && Marker(name) == open + ">>>";
    StripConcat(open + [ZWSP], ">>>");
    StripConcat(open, [ZWSP]);
    StripConcat(open, ">>>");
    assert Strip([ZWSP]) == Strip("");
  }

  /**
   Neutralising leaves the legible text as it was. Read the other way round: stripping after neutralising
   would bring every marker back, so the order strip-then-neutralise is the one that works.
   */
  lemma NeutralizeKeepsLegible(s: string)
    ensures Strip(Neutralize(s)) == Strip(s)
  {
    GuardChangesNothing(s);
    BrokenStripsBack(END_NAME);
    BrokenStripsBack(BEGIN_NAME);
    StripReplace(s, Marker(END_NAME), Broken(END_NAME));
    StripReplace(ReplaceAll(s, Marker(END_NAME), Broken(END_NAME)), Marker(BEGIN_NAME), Broken(BEGIN_NAME));
  }

  // ---------------------------------------------------------------------------------------------
  // Pushing and reading back
  // ---------------------------------------------------------------------------------------------

  function Body(source: string): string {
    "\n" + Neutralize(source) + "\n"
  }

  lemma BodyShows(source: string)
    ensures Body(source) == "\n" + AsShown(source) + "\n"
  {
    NeutralizeShows(source);
  }

  function Pushed(buffer: string, source: string): string {
    buffer + "<<<SOURCE_BEGIN>>>\n" + Neutralize(source) + "\n<<<SOURCE_END>>>\n"
  }

  lemma PushedShape(buffer: string, source: string)
    ensures Pushed(buffer, source) == buffer + (Marker(BEGIN_NAME) + (Body(source) + (Marker(END_NAME) + "\n")))
  {
    FenceLines();
    LinesJoined(buffer, Marker(BEGIN_NAME), "\n", Neutralize(source), Marker(END_NAME) + "\n");
  }

  lemma FenceLines()
    ensures "<<<SOURCE_BEGIN>>>\n" == Marker(BEGIN_NAME) + "\n"
    ensures "\n<<<SOURCE_END>>>\n" == "\n" + (Marker(END_NAME) + "\n")
  {
  }

  lemma LinesJoined(buffer: string, begin: string, newline: string, n: string, end: string)
    ensures buffer + (begin + newline) + n + (newline + end) == buffer + (begin + (newline + n + newline + end))
  {
    Regroup(buffer, begin, newline, n + (newline + end));
    Regroup(buffer + (begin + newline), n, newline, end);
    Regroup([], newline + n, newline, end);
    Regroup([], newline, n, newline + end);
    Regroup([], buffer + (begin + newline), n, newline + end);
  }

  lemma BodyIsClean(source: string)
    ensures Clean(FENCES, Body(source))
  {
    FencesProper();
    NeutralizedIsClean(source);
    NoAngleClean(FENCES, "\n");
    SafePunctuation('\n');
    ApartAtSafe(FENCES, "\n", Neutralize(source));
    CleanConcat(FENCES, "\n", Neutralize(source));
    ApartAtSafe(FENCES, "\n" + Neutralize(source), "\n");
    CleanConcat(FENCES, "\n" + Neutralize(source), "\n");
  }

  /** Whatever the buffer holds, pushing a source adds one begin marker, the body as plain text, and one end marker. */
  lemma PushedTokens(buffer: string, source: string)
    ensures Tokenize(FENCES, Pushed(buffer, source)) ==
            Tokenize(FENCES, buffer)
            + ([Mark(BEGIN_NAME)] + (Plain(Body(source)) + ([Mark(END_NAME)] + Plain("\n"))))
  {
    FencesProper();
    PushedShape(buffer, source);
    BodyIsClean(source);
    var fenced := Marker(BEGIN_NAME) + (Body(source) + (Marker(END_NAME) + "\n"));
    ApartBeforeMarker(FENCES, buffer, BEGIN_NAME, Body(source) + (Marker(END_NAME) + "\n"));
    TokenizeConcat(FENCES, buffer, fenced);
    FencedTokens(FENCES, BEGIN_NAME, Body(source), END_NAME, "\n");
    NoAngleClean(FENCES, "\n");
  }

  /** Read fenced bodies; `None` if a marker stands where the other one is expected or a fence is left open. */
  function ReadOutside(tokens: seq<Token>): Option<seq<string>>
    decreases |tokens|
  {
    if tokens == [] then Some([])
    else match tokens[0]
      case Ch(_) => ReadOutside(tokens[1..])
      case Mark(n) => if n == BEGIN_NAME then ReadInside(tokens[1..], "") else None
  }

  function ReadInside(tokens: seq<Token>, body: string): (r: Option<seq<string>>)
    ensures r.Some? ==> r.value != []
    decreases |tokens|
  {
    if tokens == [] then None
    else match tokens[0]
      case Ch(c) => ReadInside(tokens[1..], body + [c])
      case Mark(n) =>
        if n != END_NAME then None
        else
          var rest := ReadOutside(tokens[1..]);
          if rest.None? then None else Some([body] + rest.value)
  }

  /** The bodies of a prompt, in order. */
  function ReadPrompt(prompt: string): Option<seq<string>> {
    ReadOutside(Tokenize(FENCES, prompt))
  }

  function Then(first: seq<string>, second: Option<seq<string>>): Option<seq<string>> {
    if second.None? then None else Some(first + second.value)
  }

  lemma {:induction false} OutsideThen(a: seq<Token>, b: seq<Token>)
    requires ReadOutside(a).Some?
    ensures ReadOutside(a + b) == Then(ReadOutside(a).value, ReadOutside(b))
    decreases |a|
  {
    if a == [] {
      assert a + b == b;
      if ReadOutside(b).Some? {
        assert [] + ReadOutside(b).value == ReadOutside(b).value;
      }
    } else {
      assert (a + b)[0] == a[0] && (a + b)[1..] == a[1..] + b;
      if a[0].Ch? {
        OutsideThen(a[1..], b);
      } else {
        InsideThen(a[1..], b, "");
      }
    }
  }

  lemma {:induction false} InsideThen(a: seq<Token>, b: seq<Token>, body: string)
    requires ReadInside(a, body).Some?
    ensures ReadInside(a + b, body) == Then(ReadInside(a, body).value, ReadOutside(b))
    decreases |a|
  {
    assert (a + b)[0] == a[0] && (a + b)[1..] == a[1..] + b;
    if a[0].Ch? {
      InsideThen(a[1..], b, body + [a[0].c]);
    } else {
      OutsideThen(a[1..], b);
      if ReadOutside(b).Some? {
        Regroup([], [body], ReadOutside(a[1..]).value, ReadOutside(b).value);
      }
    }
  }

  lemma {:induction false} InsidePlain(s: string, body: string, rest: seq<Token>)
    ensures ReadInside(Plain(s) + rest, body) == ReadInside(rest, body + s)
    decreases |s|
  {
    var tokens := Plain(s) + rest;
    if s == "" {
      assert tokens == rest && body + s == body;
    } else {
      assert tokens[0] == Ch(s[0]) && tokens[1..] == Plain(s[1..]) + rest;
      InsidePlain(s[1..], body + [s[0]], rest);
      assert body + [s[0]] + s[1..] == body + s;
    }
  }

  lemma {:induction false} OutsidePlain(s: string)
    ensures ReadOutside(Plain(s)) == Some([])
    decreases |s|
  {
    if s != "" {
      assert Plain(s)[1..] == Plain(s[1..]);
      OutsidePlain(s[1..]);
    }
  }

  /** A pushed source reads back as one more body after whatever the buffer read as. */
  lemma PushReadsBack(buffer: string, source: string)
    requires ReadPrompt(buffer).Some?
    ensures ReadPrompt(Pushed(buffer, source)) == Some(ReadPrompt(buffer).value + [Body(source)])
  {
    var body := Body(source);
    var closing := [Mark(END_NAME)] + Plain("\n");
    var fenced := [Mark(BEGIN_NAME)] + (Plain(body) + closing);
    FencesProper();
    PushedTokens(buffer, source);
    OutsideThen(Tokenize(FENCES, buffer), fenced);
    assert fenced[1..] == Plain(body) + closing && closing[1..] == Plain("\n");
    InsidePlain(body, "", closing);
    OutsidePlain("\n");
    assert "" + body == body;
    assert ReadInside(closing, body) == Some([body] + []);
    assert [body] + [] == [body];
  }

  /** Appends the begin line, the neutralised source and the end line: one more body for the reader. */
  method PushFencedSource(buffer: string, source: string) returns (s: string)
    ensures s == Pushed(buffer, source)
    ensures ReadPrompt(buffer).Some? ==> ReadPrompt(s) == Some(ReadPrompt(buffer).value + [Body(source)])
  {
    s := buffer + "<<<SOURCE_BEGIN>>>\n";
    s := s + Neutralize(source);
    s := s + "\n<<<SOURCE_END>>>\n";
    if ReadPrompt(buffer).Some? {
      PushReadsBack(buffer, source);
    }
  }

  /** Text without markers that follows a safe character reads as nothing. */
  lemma FrameReadsAsNothing(buffer: string, frame: string)
    requires ReadPrompt(buffer).Some? && Clean(FENCES, frame) && Apart(FENCES, buffer, frame)
    ensures ReadPrompt(buffer + frame) == ReadPrompt(buffer)
  {
    FencesProper();
    TokenizeConcat(FENCES, buffer, frame);
    CleanIsPlain(FENCES, frame);
    OutsidePlain(frame);
    OutsideThen(Tokenize(FENCES, buffer), Plain(frame));
    assert ReadPrompt(buffer).value + [] == ReadPrompt(buffer).value;
  }

  lemma FrameBefore(frame: string, rest: string)
    requires Clean(FENCES, frame) && Apart(FENCES, frame, rest)
    ensures ReadPrompt(frame + rest) == ReadPrompt(rest)
  {
    FencesProper();
    CleanStartReads(frame);
    TokenizeConcat(FENCES, frame, rest);
    OutsideThen(Tokenize(FENCES, frame), Tokenize(FENCES, rest));
    if ReadPrompt(rest).Some? {
      assert [] + ReadPrompt(rest).value == ReadPrompt(rest).value;
    }
  }

  // ---------------------------------------------------------------------------------------------
  // Any number of sources, between any marker-free frame text
  // ---------------------------------------------------------------------------------------------

  datatype Section = Section(source: string, after: string)

  function Assembled(buffer: string, sections: seq<Section>): string
    decreases |sections|
  {
    if sections == [] then buffer
    else Assembled(Pushed(buffer, sections[0].source) + sections[0].after, sections[1..])
  }

  function Bodies(sections: seq<Section>): (bodies: seq<string>)
    ensures |bodies| == |sections|
  {
    if sections == [] then [] else [Body(sections[0].source)] + Bodies(sections[1..])
  }

  /** The prompt reads back as exactly the neutralised sources, in order, for all sources whatever they contain. */
  lemma {:induction false} PromptReadsBack(buffer: string, sections: seq<Section>)
    requires ReadPrompt(buffer).Some?
    requires forall s :: s in sections ==> Clean(FENCES, s.after)
    ensures ReadPrompt(Assembled(buffer, sections)) == Some(ReadPrompt(buffer).value + Bodies(sections))
    decreases |sections|
  {
    if sections == [] {
      assert ReadPrompt(buffer).value + Bodies(sections) == ReadPrompt(buffer).value;
    } else {
      var next, before, one, rest := SectionTurn(buffer, sections);
      PromptReadsBack(next, sections[1..]);
      Regroup([], before, one, rest);
    }
  }

  /** One section more. */
  lemma SectionTurn(buffer: string, sections: seq<Section>)
    returns (next: string, before: seq<string>, one: seq<string>, rest: seq<string>)
    requires sections != [] && ReadPrompt(buffer).Some? && Clean(FENCES, sections[0].after)
    ensures Assembled(buffer, sections) == Assembled(next, sections[1..])
    ensures ReadPrompt(buffer) == Some(before) && ReadPrompt(next) == Some(before + one)
    ensures rest == Bodies(sections[1..]) && Bodies(sections) == one + rest
  {
    var s := sections[0];
    var pushed := Pushed(buffer, s.source);
    PushReadsBack(buffer, s.source);
    PushedEnds(buffer, s.source);
    SafePunctuation('\n');
    ApartAtSafe(FENCES, pushed, s.after);
    FrameReadsAsNothing(pushed, s.after);
    next, before := pushed + s.after, ReadPrompt(buffer).value;
    one, rest := [Body(s.source)], Bodies(sections[1..]);
  }

  lemma PushedEnds(buffer: string, source: string)
    ensures var pushed := Pushed(buffer, source); pushed != "" && pushed[|pushed| - 1] == '\n'
  {
  }

  // ---------------------------------------------------------------------------------------------
  // How many markers, and in which order
  // ---------------------------------------------------------------------------------------------

  /** The markers of a text, in order. */
  function MarksOf(tokens: seq<Token>): seq<string> {
    if tokens == [] then []
    else (if tokens[0].Mark? then [tokens[0].name] else []) + MarksOf(tokens[1..])
  }

  /** n begin and n end markers, alternating. */
  function BeginEnd(n: nat): seq<string> {
    if n == 0 then [] else [BEGIN_NAME, END_NAME] + BeginEnd(n - 1)
  }

  lemma {:induction false} BeginEndAt(n: nat, k: nat)
    requires k < n
    ensures |BeginEnd(n)| == 2 * n && BeginEnd(n)[2 * k] == BEGIN_NAME && BeginEnd(n)[2 * k + 1] == END_NAME
  {
    var rest := BeginEnd(n - 1);
    assert BeginEnd(n) == [BEGIN_NAME, END_NAME] + rest;
    if k > 0 {
      BeginEndAt(n - 1, k - 1);
    } else if n > 1 {
      BeginEndAt(n - 1, 0);
    }
  }

  lemma {:induction false} BeginEndCounts(n: nat)
    ensures multiset(BeginEnd(n))[BEGIN_NAME] == n && multiset(BeginEnd(n))[END_NAME] == n
  {
    if n > 0 {
      BeginEndCounts(n - 1);
      FencesProper();
      assert multiset(BeginEnd(n)) == multiset{BEGIN_NAME, END_NAME} + multiset(BeginEnd(n - 1));
    }
  }

  /** Alternating means alternating: begin at the even places, end at the odd ones, n of each. */
  lemma BeginEndAlternates(n: nat)
    ensures |BeginEnd(n)| == 2 * n
    ensures forall k :: 0 <= k < n ==> BeginEnd(n)[2 * k] == BEGIN_NAME && BeginEnd(n)[2 * k + 1] == END_NAME
    ensures multiset(BeginEnd(n))[BEGIN_NAME] == n && multiset(BeginEnd(n))[END_NAME] == n
  {
    BeginEndCounts(n);
    if n > 0 {
      BeginEndAt(n, 0);
    }
    forall k | 0 <= k < n ensures BeginEnd(n)[2 * k] == BEGIN_NAME && BeginEnd(n)[2 * k + 1] == END_NAME {
      BeginEndAt(n, k);
    }
  }

  lemma BeginEndGrows(n: nat)
    ensures [BEGIN_NAME] + ([END_NAME] + BeginEnd(n)) == BeginEnd(n + 1)
  {
    Regroup([], [BEGIN_NAME], [END_NAME], BeginEnd(n));
  }

  lemma {:induction false} OutsideCounts(tokens: seq<Token>)
    requires ReadOutside(tokens).Some?
    ensures MarksOf(tokens) == BeginEnd(|ReadOutside(tokens).value|)
    decreases |tokens|
  {
    if tokens != [] {
      if tokens[0].Ch? {
        OutsideCounts(tokens[1..]);
      } else {
        InsideCounts(tokens[1..], "");
        BeginEndGrows(|ReadInside(tokens[1..], "").value| - 1);
      }
    }
  }

  lemma {:induction false} InsideCounts(tokens: seq<Token>, body: string)
    requires ReadInside(tokens, body).Some?
    ensures MarksOf(tokens) == [END_NAME] + BeginEnd(|ReadInside(tokens, body).value| - 1)
    decreases |tokens|
  {
    if tokens[0].Ch? {
      InsideCounts(tokens[1..], body + [tokens[0].c]);
    } else {
      OutsideCounts(tokens[1..]);
    }
  }

  /** A text that reads as n bodies holds exactly n begin and n end markers, alternating. */
  lemma ReadCounts(tokens: seq<Token>, body: string)
    ensures ReadOutside(tokens).Some? ==> MarksOf(tokens) == BeginEnd(|ReadOutside(tokens).value|)
    ensures ReadInside(tokens, body).Some? ==>
              MarksOf(tokens) == [END_NAME] + BeginEnd(|ReadInside(tokens, body).value| - 1)
  {
    if ReadOutside(tokens).Some? {
      OutsideCounts(tokens);
    }
    if ReadInside(tokens, body).Some? {
      InsideCounts(tokens, body);
    }
  }

  lemma {:induction false} MarkCountIsLength(tokens: seq<Token>)
    ensures MarkCount(tokens) == |MarksOf(tokens)|
  {
    if tokens != [] {
      MarkCountIsLength(tokens[1..]);
    }
  }

  /** A marker-free opening reads as no body. */
  lemma CleanStartReads(frame: string)
    requires Clean(FENCES, frame)
    ensures ReadPrompt(frame) == Some([])
  {
    CleanIsPlain(FENCES, frame);
    OutsidePlain(frame);
  }

  /** A marker-free opening followed by n sources holds exactly n begin and n end markers, alternating. */
  lemma PromptMarksAlternate(frame: string, sections: seq<Section>)
    requires Clean(FENCES, frame) && forall s :: s in sections ==> Clean(FENCES, s.after)
    ensures MarksOf(Tokenize(FENCES, Assembled(frame, sections))) == BeginEnd(|sections|)
  {
    CleanStartReads(frame);
    PromptReadsBack(frame, sections);
    ReadCounts(Tokenize(FENCES, Assembled(frame, sections)), "");
  }
}
