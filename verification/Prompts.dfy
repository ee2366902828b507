/** The prompts that carry fenced text: whole-file rewrite, recipe synthesis, dossier composition. */
module Prompts {
  import opened Wrappers
  import opened Markers
  import opened Sanitize
  import opened Seqs
  import opened Fence

  // The fixed words of a prompt are parameters: what counts is that they hold no `<` and how they end or begin.

  type Head = s: string | NoAngle(s) && s != "" && s[|s| - 1] == ' ' witness " "

  type Task = s: string | NoAngle(s) && s != "" && s[0] == '\n' && s[|s| - 1] == '\n' witness "\n"

  type Rules = s: string | NoAngle(s) && s != "" && s[0] == ')' && s[|s| - 1] == '\n' witness ")\n"

  type Title = s: string | NoAngle(s) && s != "" && s[|s| - 1] == '\n' witness "\n"

  /** The words before and after the instruction text of a rewrite or recipe prompt. */
  datatype Frame = Frame(head: Head, task: Task)

  /** The words of a dossier prompt. */
  datatype DossierFrame = DossierFrame(head: Head, rules: Rules, edgesTitle: Title, sourcesTitle: Title)

  /** A character that no fence marker contains stands at one side of the joint. */
  ghost predicate SafeJoint(a: string, b: string) {
    a == "" || b == "" || SafeChar(FENCES, a[|a| - 1]) || SafeChar(FENCES, b[0])
  }

  function Marks(s: string): nat {
    MarkCount(Tokenize(FENCES, s))
  }

  /** Markers are counted piece by piece where the pieces meet at a safe character. */
  lemma MarksJoin(a: string, b: string)
    requires SafeJoint(a, b)
    ensures Marks(a + b) == Marks(a) + Marks(b)
  {
    FencesProper();
    ApartAtSafe(FENCES, a, b);
    TokenizeConcat(FENCES, a, b);
    MarkCountConcat(Tokenize(FENCES, a), Tokenize(FENCES, b));
  }

  lemma NoAngleNoMarks(s: string)
    requires NoAngle(s)
    ensures Clean(FENCES, s) && Marks(s) == 0 && ReadPrompt(s) == Some([])
  {
    NoAngleClean(FENCES, s);
    PlainHasNoMarks(s);
    CleanStartReads(s);
  }

  lemma NoMarksIsClean(s: string)
    ensures Marks(s) == 0 <==> Clean(FENCES, s)
  {
    FencesProper();
    CleanIffNoMarks(FENCES, s);
  }

  /** A pushed source adds two markers, whatever the buffer holds. */
  lemma PushedMarks(buffer: string, source: string)
    ensures Marks(Pushed(buffer, source)) == Marks(buffer) + 2
  {
    PushedTokens(buffer, source);
    var closing := [Mark(END_NAME)] + Plain("\n");
    MarkCountConcat(Tokenize(FENCES, buffer), [Mark(BEGIN_NAME)] + (Plain(Body(source)) + closing));
    MarkCountConcat([Mark(BEGIN_NAME)], Plain(Body(source)) + closing);
    MarkCountConcat(Plain(Body(source)), closing);
    MarkCountConcat([Mark(END_NAME)], Plain("\n"));
    PlainHasNoMarks(Body(source));
    PlainHasNoMarks("\n");
    assert [Mark(BEGIN_NAME)][1..] == [] && [Mark(END_NAME)][1..] == [];
  }

  // ---------------------------------------------------------------------------------------------
  // Rewrite prompt
  // ---------------------------------------------------------------------------------------------

  /** `sanitize_engine_fact`: strip and cap, then neutralise, then cap again. */
  function SanitizeFact(fact: string): string {
    Truncated(Neutralize(SanitizeIdent(fact)), 256)
  }

  lemma FactIsClean(fact: string)
    ensures Clean(FENCES, SanitizeFact(fact)) && ByteLen(SanitizeFact(fact)) <= 256
  {
    var neutral := Neutralize(SanitizeIdent(fact));
    NeutralizedIsClean(SanitizeIdent(fact));
    TruncatedIsLongest(neutral, 256);
    forall n | n in FENCES
      ensures Free(SanitizeFact(fact), n)
    {
      FreePrefix(neutral, n, Fitting(neutral, 256));
    }
  }

  function RewritePrompt(frame: Frame, fact: string, liveFile: string): string {
    Pushed(frame.head + SanitizeFact(fact) + frame.task, liveFile)
  }

  /** For every fact and every file, the prompt reads back as exactly one body: the neutralised file. */
  lemma RewriteReadsBack(frame: Frame, fact: string, liveFile: string)
    ensures ReadPrompt(RewritePrompt(frame, fact, liveFile)) == Some([Body(liveFile)])
  {
    var text := frame.head + SanitizeFact(fact) + frame.task;
    FactIsClean(fact);
    FramedIsClean(frame, SanitizeFact(fact));
    CleanStartReads(text);
    PushReadsBack(text, liveFile);
    assert [] + [Body(liveFile)] == [Body(liveFile)];
  }

  method BuildRewritePrompt(frame: Frame, fact: string, liveFile: string) returns (prompt: string)
    ensures prompt == RewritePrompt(frame, fact, liveFile)
    ensures ReadPrompt(prompt) == Some([Body(liveFile)])
  {
    var ident := Truncate(Strip(fact), 200);
    var safe := Truncate(Neutralize(ident), 256);
    prompt := frame.head;
    prompt := prompt + safe;
    prompt := prompt + frame.task;
    prompt := PushFencedSource(prompt, liveFile);
    RewriteReadsBack(frame, fact, liveFile);
  }

  lemma FramedIsClean(frame: Frame, middle: string)
    requires Clean(FENCES, middle)
    ensures Clean(FENCES, frame.head + middle + frame.task)
  {
    NoAngleClean(FENCES, frame.head);
    NoAngleClean(FENCES, frame.task);
    SafePunctuation(' ');
    SafePunctuation('\n');
    ApartAtSafe(FENCES, frame.head, middle);
    CleanConcat(FENCES, frame.head, middle);
    ApartAtSafe(FENCES, frame.head + middle, frame.task);
    CleanConcat(FENCES, frame.head + middle, frame.task);
  }

  // ---------------------------------------------------------------------------------------------
  // Recipe prompt
  // ---------------------------------------------------------------------------------------------

  function RecipeFrame(frame: Frame, recipe: string): string {
    frame.head + Neutralize(Strip(recipe)) + frame.task
  }

  /** The recipe adds nothing: the prompt reads back as whatever the caller's fenced block reads as. */
  lemma RecipeReadsBack(frame: Frame, recipe: string, fencedSources: string)
    ensures ReadPrompt(RecipeFrame(frame, recipe) + fencedSources) == ReadPrompt(fencedSources)
  {
    NeutralizedIsClean(Strip(recipe));
    FramedIsClean(frame, Neutralize(Strip(recipe)));
    SafePunctuation('\n');
    ApartAtSafe(FENCES, RecipeFrame(frame, recipe), fencedSources);
    FrameBefore(RecipeFrame(frame, recipe), fencedSources);
  }

  method BuildRecipePrompt(frame: Frame, recipe: string, fencedSources: string) returns (prompt: string)
    ensures prompt == RecipeFrame(frame, recipe) + fencedSources
    ensures ReadPrompt(prompt) == ReadPrompt(fencedSources)
  {
    prompt := frame.head;
    prompt := prompt + Neutralize(Strip(recipe));
    prompt := prompt + frame.task;
    prompt := prompt + fencedSources;
    RecipeReadsBack(frame, recipe, fencedSources);
  }

  /** With the sources fenced one after another, every recipe's prompt reads back as exactly those sources. */
  lemma RecipeOverSources(frame: Frame, recipe: string, sources: seq<string>)
    ensures var sections := seq(|sources|, i requires 0 <= i < |sources| => Section(sources[i], ""));
            ReadPrompt(RecipeFrame(frame, recipe) + Assembled("", sections)) == Some(Bodies(sections))
  {
    var sections := seq(|sources|, i requires 0 <= i < |sources| => Section(sources[i], ""));
    NoAngleNoMarks("");
    PromptReadsBack("", sections);
    assert [] + Bodies(sections) == Bodies(sections);
    RecipeReadsBack(frame, recipe, Assembled("", sections));
  }

  // ---------------------------------------------------------------------------------------------
  // Compose prompt
  // ---------------------------------------------------------------------------------------------

  datatype Memory = Memory(id: string, text: string)

  datatype FactSet = FactSet(name: string, entityType: string, edges: seq<string>, memories: seq<Memory>)

  function ComposeIntro(frame: DossierFrame, facts: FactSet): string {
    frame.head + SanitizeIdent(facts.name) + " (" + SanitizeIdent(facts.entityType) + frame.rules
  }

  function EdgeLine(edge: string): string {
    "- " + edge + "\n"
  }

  function Tag(id: string): string {
    "[" + id + "] "
  }

  /** The edge lines, after whatever the buffer holds. */
  function WithEdges(buffer: string, edges: seq<string>): string
    decreases |edges|
  {
    if edges == [] then buffer else WithEdges(buffer + EdgeLine(edges[0]), edges[1..])
  }

  function EdgeSection(title: Title, buffer: string, edges: seq<string>): string {
    if edges == [] then buffer else WithEdges(buffer + title, edges) + "\n"
  }

  function WithMemory(buffer: string, m: Memory): string {
    Pushed(buffer + Tag(m.id), m.text) + "\n"
  }

  function WithMemories(buffer: string, memories: seq<Memory>): string
    decreases |memories|
  {
    if memories == [] then buffer else WithMemories(WithMemory(buffer, memories[0]), memories[1..])
  }

  /** Everything before the first memory. */
  function Opening(frame: DossierFrame, facts: FactSet): string {
    EdgeSection(frame.edgesTitle, ComposeIntro(frame, facts), facts.edges) + frame.sourcesTitle
  }

  function ComposePrompt(frame: DossierFrame, facts: FactSet): string {
    WithMemories(Opening(frame, facts), facts.memories)
  }

  method BuildComposePrompt(frame: DossierFrame, facts: FactSet) returns (prompt: string)
    ensures prompt == ComposePrompt(frame, facts)
  {
    prompt := ComposeIntro(frame, facts);
    if facts.edges != [] {
      ghost var start := prompt + frame.edgesTitle;
      prompt := prompt + frame.edgesTitle;
      for i := 0 to |facts.edges|
        invariant WithEdges(prompt, facts.edges[i..]) == WithEdges(start, facts.edges)
      {
        assert facts.edges[i..][0] == facts.edges[i] && facts.edges[i..][1..] == facts.edges[i + 1..];
        prompt := prompt + EdgeLine(facts.edges[i]);
      }
      assert facts.edges[|facts.edges|..] == [];
      prompt := prompt + "\n";
    }
    prompt := prompt + frame.sourcesTitle;
    prompt := AppendMemories(prompt, facts.memories);
  }

  method AppendMemories(before: string, memories: seq<Memory>) returns (prompt: string)
    ensures prompt == WithMemories(before, memories)
  {
    prompt := before;
    for i := 0 to |memories|
      invariant WithMemories(prompt, memories[i..]) == WithMemories(before, memories)
    {
      assert memories[i..][0] == memories[i] && memories[i..][1..] == memories[i + 1..];
      prompt := prompt + Tag(memories[i].id);
      prompt := PushFencedSource(prompt, memories[i].text);
      prompt := prompt + "\n";
    }
    assert memories[|memories|..] == [];
  }

  /** Text between two marker-free pieces that meet it at safe characters counts its own markers only. */
  lemma WrapMarks(left: string, text: string, right: string)
    requires NoAngle(left) && NoAngle(right) && left != "" && right != ""
    requires SafeChar(FENCES, left[|left| - 1]) && SafeChar(FENCES, right[0])
    ensures Marks(left + text + right) == Marks(text)
  {
    NoAngleNoMarks(left);
    NoAngleNoMarks(right);
    MarksJoin(left, text);
    MarksJoin(left + text, right);
  }

  lemma LineMarks(edge: string)
    ensures Marks(EdgeLine(edge)) == Marks(edge)
  {
    SafePunctuation(' ');
    SafePunctuation('\n');
    WrapMarks("- ", edge, "\n");
  }

  lemma TagMarks(id: string)
    ensures Marks(Tag(id)) == Marks(id)
  {
    SafePunctuation('[');
    SafePunctuation(']');
    WrapMarks("[", id, "] ");
  }

  function Sum(texts: seq<string>): nat {
    if texts == [] then 0 else Marks(texts[0]) + Sum(texts[1..])
  }

  function IdsOf(memories: seq<Memory>): seq<string> {
    seq(|memories|, i requires 0 <= i < |memories| => memories[i].id)
  }

  predicate EndsInNewline(s: string) {
    s != "" && s[|s| - 1] == '\n'
  }

  lemma {:induction false} EdgesMarks(buffer: string, edges: seq<string>)
    requires EndsInNewline(buffer)
    ensures EndsInNewline(WithEdges(buffer, edges))
    ensures Marks(WithEdges(buffer, edges)) == Marks(buffer) + Sum(edges)
    decreases |edges|
  {
    if edges != [] {
      SafePunctuation('\n');
      LineMarks(edges[0]);
      MarksJoin(buffer, EdgeLine(edges[0]));
      EdgesMarks(buffer + EdgeLine(edges[0]), edges[1..]);
    }
  }

  lemma {:induction false} MemoriesMarks(buffer: string, memories: seq<Memory>)
    requires EndsInNewline(buffer)
    ensures Marks(WithMemories(buffer, memories)) == Marks(buffer) + 2 * |memories| + Sum(IdsOf(memories))
    decreases |memories|
  {
    if memories != [] {
      assert IdsOf(memories)[0] == memories[0].id && IdsOf(memories)[1..] == IdsOf(memories[1..]);
      MemoryMarks(buffer, memories[0]);
      MemoriesMarks(WithMemory(buffer, memories[0]), memories[1..]);
    }
  }

  lemma MemoryMarks(buffer: string, m: Memory)
    requires EndsInNewline(buffer)
    ensures Marks(WithMemory(buffer, m)) == Marks(buffer) + 2 + Marks(m.id)
  {
    SafePunctuation('\n');
    TagMarks(m.id);
    MarksJoin(buffer, Tag(m.id));
    PushedMarks(buffer + Tag(m.id), m.text);
    NoAngleNoMarks("\n");
    MarksJoin(Pushed(buffer + Tag(m.id), m.text), "\n");
  }

  lemma IntroMarks(frame: DossierFrame, facts: FactSet)
    ensures EndsInNewline(ComposeIntro(frame, facts))
    ensures Marks(ComposeIntro(frame, facts)) ==
            Marks(SanitizeIdent(facts.name)) + Marks(SanitizeIdent(facts.entityType))
  {
    var name, kind := SanitizeIdent(facts.name), SanitizeIdent(facts.entityType);
    SafePunctuation(' ');
    SafePunctuation('(');
    SafePunctuation(')');
    WrapMarks(frame.head, name, " (");
    MarksJoin(frame.head + name + " (", kind);
    NoAngleNoMarks(frame.rules);
    MarksJoin(frame.head + name + " (" + kind, frame.rules);
  }

  /** What the prompt interpolates outside the fences. */
  function FrameTexts(facts: FactSet): nat {
    Marks(SanitizeIdent(facts.name)) + Marks(SanitizeIdent(facts.entityType))
    + Sum(facts.edges) + Sum(IdsOf(facts.memories))
  }

  /** The prompt holds two markers per memory and those of the label, type, edge lines and ids; it has no others. */
  lemma ComposeMarks(frame: DossierFrame, facts: FactSet)
    ensures Marks(ComposePrompt(frame, facts)) == 2 * |facts.memories| + FrameTexts(facts)
  {
    OpeningMarks(frame, facts);
    MemoriesMarks(Opening(frame, facts), facts.memories);
  }

  lemma EdgeSectionMarks(title: Title, buffer: string, edges: seq<string>)
    requires EndsInNewline(buffer)
    ensures EndsInNewline(EdgeSection(title, buffer, edges))
    ensures Marks(EdgeSection(title, buffer, edges)) == Marks(buffer) + Sum(edges)
  {
    SafePunctuation('\n');
    NoAngleNoMarks(title);
    NoAngleNoMarks("\n");
    MarksJoin(buffer, title);
    EdgesMarks(buffer + title, edges);
    MarksJoin(WithEdges(buffer + title, edges), "\n");
  }

  function MemoryBodies(memories: seq<Memory>): (bodies: seq<string>)
    ensures |bodies| == |memories|
  {
    if memories == [] then [] else [Body(memories[0].text)] + MemoryBodies(memories[1..])
  }

  lemma {:induction false} MemoriesReadBack(buffer: string, memories: seq<Memory>)
    requires EndsInNewline(buffer) && ReadPrompt(buffer).Some? && Sum(IdsOf(memories)) == 0
    ensures ReadPrompt(WithMemories(buffer, memories)) == Some(ReadPrompt(buffer).value + MemoryBodies(memories))
    decreases |memories|
  {
    if memories == [] {
      assert ReadPrompt(buffer).value + MemoryBodies(memories) == ReadPrompt(buffer).value;
    } else {
      var next, before, one, rest := MemoryTurn(buffer, memories);
      MemoriesReadBack(next, memories[1..]);
      Regroup([], before, one, rest);
    }
  }

  /** One memory more. */
  lemma MemoryTurn(buffer: string, memories: seq<Memory>)
    returns (next: string, before: seq<string>, one: seq<string>, rest: seq<string>)
    requires memories != [] && EndsInNewline(buffer) && ReadPrompt(buffer).Some? && Sum(IdsOf(memories)) == 0
    ensures EndsInNewline(next) && Sum(IdsOf(memories[1..])) == 0
    ensures WithMemories(buffer, memories) == WithMemories(next, memories[1..])
    ensures ReadPrompt(buffer) == Some(before) && ReadPrompt(next) == Some(before + one)
    ensures rest == MemoryBodies(memories[1..]) && MemoryBodies(memories) == one + rest
  {
    assert IdsOf(memories)[0] == memories[0].id && IdsOf(memories)[1..] == IdsOf(memories[1..]);
    MemoryReadsBack(buffer, memories[0]);
    next, before := WithMemory(buffer, memories[0]), ReadPrompt(buffer).value;
    one, rest := [Body(memories[0].text)], MemoryBodies(memories[1..]);
  }

  lemma MemoryReadsBack(buffer: string, m: Memory)
    requires EndsInNewline(buffer) && ReadPrompt(buffer).Some? && Marks(m.id) == 0
    ensures ReadPrompt(WithMemory(buffer, m)) == Some(ReadPrompt(buffer).value + [Body(m.text)])
  {
    var pushed := Pushed(buffer + Tag(m.id), m.text);
    TagMarks(m.id);
    NoMarksIsClean(Tag(m.id));
    SafePunctuation('\n');
    ApartAtSafe(FENCES, buffer, Tag(m.id));
    FrameReadsAsNothing(buffer, Tag(m.id));
    PushReadsBack(buffer + Tag(m.id), m.text);
    NoAngleNoMarks("\n");
    ApartAtSafe(FENCES, pushed, "\n");
    FrameReadsAsNothing(pushed, "\n");
  }

  /**
   The compose prompt reads back as exactly its memories if and only if no label, type, edge line or
   memory id holds a marker: these are stripped of controls or pushed as they are, never neutralised.
   */
  lemma ComposeReadsBackExactly(frame: DossierFrame, facts: FactSet)
    ensures ReadPrompt(ComposePrompt(frame, facts)) == Some(MemoryBodies(facts.memories)) <==> FrameTexts(facts) == 0
  {
    ComposeMarks(frame, facts);
    if ReadPrompt(ComposePrompt(frame, facts)).Some? {
      ReadCounts(Tokenize(FENCES, ComposePrompt(frame, facts)), "");
      MarkCountIsLength(Tokenize(FENCES, ComposePrompt(frame, facts)));
      BeginEndAlternates(|ReadPrompt(ComposePrompt(frame, facts)).value|);
    }
    if FrameTexts(facts) == 0 {
      OpeningMarks(frame, facts);
      NoMarksIsClean(Opening(frame, facts));
      CleanStartReads(Opening(frame, facts));
      MemoriesReadBack(Opening(frame, facts), facts.memories);
      assert [] + MemoryBodies(facts.memories) == MemoryBodies(facts.memories);
    }
  }

  lemma OpeningMarks(frame: DossierFrame, facts: FactSet)
    ensures EndsInNewline(Opening(frame, facts))
    ensures Marks(Opening(frame, facts))
         == Marks(SanitizeIdent(facts.name)) + Marks(SanitizeIdent(facts.entityType)) + Sum(facts.edges)
  {
    IntroMarks(frame, facts);
    EdgeSectionMarks(frame.edgesTitle, ComposeIntro(frame, facts), facts.edges);
    SafePunctuation('\n');
    NoAngleNoMarks(frame.sourcesTitle);
    MarksJoin(EdgeSection(frame.edgesTitle, ComposeIntro(frame, facts), facts.edges), frame.sourcesTitle);
  }

  lemma {:induction false} ByteLenBound(s: string)
    ensures ByteLen(s) <= 4 * |s|
  {
    if s != "" {
      ByteLenBound(s[1..]);
    }
  }

  /** A short text without controls passes `sanitize_ident` unchanged. */
  lemma ShortIdentKept(s: string)
    requires 4 * |s| <= 200 && forall i :: 0 <= i < |s| ==> !IsStripped(s[i])
    ensures SanitizeIdent(s) == s
  {
    StripExact(s);
    ByteLenBound(s);
    TruncatedIsLongest(s, 200);
  }

  lemma MarkerLegible(name: string)
    requires forall i :: 0 <= i < |name| ==> !IsStripped(name[i])
    ensures forall i :: 0 <= i < |Marker(name)| ==> !IsStripped(Marker(name)[i])
  {
    assert forall i :: 3 <= i < 3 + |name| ==> Marker(name)[i] == name[i - 3];
  }

  lemma MarkerMarks(name: string)
    requires name in FENCES
    ensures Marks(Marker(name)) == 1
  {
    FencesProper();
    TokenizeMarker(FENCES, name, "");
    assert Marker(name) + "" == Marker(name);
    var one := [Mark(name)];
    assert Tokenize(FENCES, Marker(name)) == one + [] == one;
    assert one[0].Mark? && one[1..] == [] && MarkCount(one) == 1 + MarkCount(one[1..]);
  }

  /** So a label that is itself a marker already breaks the reading, with no memory at all. */
  lemma MarkerLabelMisreads(frame: DossierFrame, facts: FactSet)
    requires facts == FactSet(Marker(END_NAME), "", [], [])
    ensures ReadPrompt(ComposePrompt(frame, facts)) != Some(MemoryBodies(facts.memories))
  {
    MarkerLegible(END_NAME);
    ShortIdentKept(Marker(END_NAME));
    MarkerMarks(END_NAME);
    ComposeReadsBackExactly(frame, facts);
  }

  // ---------------------------------------------------------------------------------------------
  // What the prompts show
  // ---------------------------------------------------------------------------------------------

  lemma StripTwice(s: string)
    ensures Strip(Strip(s)) == Strip(s)
  {
    StripExact(s);
    StripExact(Strip(s));
  }

  lemma StripCut(s: string, cap: nat)
    ensures Strip(Truncated(s, cap)) <= Strip(s)
  {
    var k := Fitting(s, cap);
    assert s == s[..k] + s[k..];
    StripConcat(s[..k], s[k..]);
  }

  /** The fact reaches the prompt: its legible text, cut short at the end only, and whole if it is short enough. */
  lemma FactIsShown(fact: string)
    ensures Strip(SanitizeFact(fact)) <= Strip(fact)
    ensures ByteLen(Strip(fact)) <= 200 && ByteLen(Fence.AsShown(Strip(fact))) <= 256 ==>
              SanitizeFact(fact) == Fence.AsShown(Strip(fact)) && Strip(SanitizeFact(fact)) == Strip(fact)
  {
    var ident := SanitizeIdent(fact);
    var neutral := Neutralize(ident);
    StripTwice(fact);
    StripCut(Strip(fact), 200);
    NeutralizeKeepsLegible(ident);
    StripCut(neutral, 256);
    NeutralizeShows(ident);
    TruncatedIsLongest(Strip(fact), 200);
    TruncatedIsLongest(neutral, 256);
  }

  /** A source between its lines. */
  function Fenced(source: string): string {
    "<<<SOURCE_BEGIN>>>\n" + Fence.AsShown(source) + "\n<<<SOURCE_END>>>\n"
  }

  lemma PushedShows(buffer: string, source: string)
    ensures Pushed(buffer, source) == buffer + Fenced(source)
  {
    NeutralizeShows(source);
    Append3(buffer, "<<<SOURCE_BEGIN>>>\n", Fence.AsShown(source), "\n<<<SOURCE_END>>>\n");
  }

  lemma Append3(a: string, b: string, c: string, d: string)
    ensures a + b + c + d == a + (b + c + d)
  {
    Regroup(a, b, c, d);
  }

  /** The whole rewrite prompt: the words, the fact, the words, the file. */
  lemma RewriteShows(frame: Frame, fact: string, liveFile: string)
    ensures RewritePrompt(frame, fact, liveFile) ==
            frame.head + SanitizeFact(fact) + frame.task + Fenced(liveFile)
  {
    PushedShows(frame.head + SanitizeFact(fact) + frame.task, liveFile);
  }

  /** The recipe reaches the prompt with all its legible text. */
  lemma RecipeShows(frame: Frame, recipe: string)
    ensures RecipeFrame(frame, recipe) == frame.head + Fence.AsShown(Strip(recipe)) + frame.task
    ensures Strip(Fence.AsShown(Strip(recipe))) == Strip(recipe)
  {
    NeutralizeShows(Strip(recipe));
    NeutralizeKeepsLegible(Strip(recipe));
    StripTwice(recipe);
  }

  function EdgeLines(edges: seq<string>): string {
    if edges == [] then "" else "- " + edges[0] + "\n" + EdgeLines(edges[1..])
  }

  function MemoryBlocks(memories: seq<Memory>): string {
    if memories == [] then ""
    else "[" + memories[0].id + "] " + Fenced(memories[0].text) + "\n" + MemoryBlocks(memories[1..])
  }

  lemma {:induction false} EdgesShow(buffer: string, edges: seq<string>)
    ensures WithEdges(buffer, edges) == buffer + EdgeLines(edges)
    decreases |edges|
  {
    if edges != [] {
      EdgesShow(buffer + EdgeLine(edges[0]), edges[1..]);
      Regroup([], buffer, EdgeLine(edges[0]), EdgeLines(edges[1..]));
    }
  }

  lemma MemoryShows(buffer: string, m: Memory)
    ensures WithMemory(buffer, m) == buffer + ("[" + m.id + "] " + Fenced(m.text) + "\n")
  {
    PushedShows(buffer + Tag(m.id), m.text);
    Append3(buffer, Tag(m.id), Fenced(m.text), "\n");
  }

  lemma {:induction false} MemoriesShow(buffer: string, memories: seq<Memory>)
    ensures WithMemories(buffer, memories) == buffer + MemoryBlocks(memories)
    decreases |memories|
  {
    if memories != [] {
      var one := "[" + memories[0].id + "] " + Fenced(memories[0].text) + "\n";
      MemoryShows(buffer, memories[0]);
      MemoriesShow(buffer + one, memories[1..]);
      Regroup([], buffer, one, MemoryBlocks(memories[1..]));
    }
  }

  /**
   The whole dossier prompt: the words around the label and the type, the edge lines in order under their title if
   there are any, and every memory in order under its id.
   */
  lemma ComposeShows(frame: DossierFrame, facts: FactSet)
    ensures ComposePrompt(frame, facts) ==
            frame.head + Truncated(Strip(facts.name), 200) + " (" + Truncated(Strip(facts.entityType), 200)
              + frame.rules
            + (if facts.edges == [] then "" else frame.edgesTitle + EdgeLines(facts.edges) + "\n")
            + frame.sourcesTitle + MemoryBlocks(facts.memories)
  {
    var intro := ComposeIntro(frame, facts);
    EdgesShow(intro + frame.edgesTitle, facts.edges);
    MemoriesShow(Opening(frame, facts), facts.memories);
    if facts.edges != [] {
      Append3(intro, frame.edgesTitle, EdgeLines(facts.edges), "\n");
    }
  }
}
