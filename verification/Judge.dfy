/** The conflict judge's prompt: two snippets, each between its own pair of markers. */
module Judge {
  import opened Markers

  const A_OPEN := "MEMORY_A"
  const A_CLOSE := "END_MEMORY_A"
  const B_OPEN := "MEMORY_B"
  const B_CLOSE := "END_MEMORY_B"
  const NAMES: seq<string> := [A_OPEN, A_CLOSE, B_OPEN, B_CLOSE]

  /** The words before the first marker. */
  type Preamble = s: string | NoAngle(s) witness ""

  lemma NamesProper()
    ensures ProperNames(NAMES)
  {
    assert ProperName(A_OPEN) && ProperName(A_CLOSE) && ProperName(B_OPEN) && ProperName(B_CLOSE);
  }

  /** `defuse` */
  function Defuse(text: string): string {
    ReplaceAll(ReplaceAll(ReplaceAll(ReplaceAll(text, Marker(A_CLOSE), "[END_A]"), Marker(B_CLOSE), "[END_B]"),
                          Marker(A_OPEN), "[A]"), Marker(B_OPEN), "[B]")
  }

  /** One replacement: removes its own marker and brings in none of the others. */
  lemma DefuseStep(text: string, own: string, rep: string, names: set<string>)
    requires own in NAMES && rep in ["[END_A]", "[END_B]", "[A]", "[B]"]
    requires forall n :: n in names ==> n in NAMES && Free(text, n)
    ensures forall n :: n in names + {own} ==> Free(ReplaceAll(text, Marker(own), rep), n)
  {
    NamesProper();
    forall n | n in names + {own}
      ensures Free(ReplaceAll(text, Marker(own), rep), n)
    {
      assert Inert(rep, n);
      ReplaceCreatesNone(text, Marker(own), rep, n);
    }
  }

  /** What stands for each marker once it is defused. */
  function Label(name: string): string {
    if name == A_OPEN then "[A]" else if name == A_CLOSE then "[END_A]" else if name == B_OPEN then "[B]" else "[END_B]"
  }

  /** A snippet as the judge is to see it: every character kept, and each marker written as its own label. */
  function AsShown(text: string): string {
    Rendered(Tokenize(NAMES, text), Label)
  }

  lemma NamesDiffer()
    ensures A_OPEN != A_CLOSE && A_OPEN != B_OPEN && A_OPEN != B_CLOSE
    ensures A_CLOSE != B_OPEN && A_CLOSE != B_CLOSE && B_OPEN != B_CLOSE
  {
    assert A_OPEN[7] == 'A' && B_OPEN[7] == 'B' && A_CLOSE[11] == 'A' && B_CLOSE[11] == 'B';
    assert |A_OPEN| == |B_OPEN| == 8 && |A_CLOSE| == |B_CLOSE| == 12;
  }

  /** For every snippet, the four replacements in their order come to exactly that. */
  lemma DefuseShows(text: string)
    ensures Defuse(text) == AsShown(text)
  {
    NamesProper();
    DefuseEach(text);
    ReplacingRenders(NAMES, [A_CLOSE, B_CLOSE, A_OPEN, B_OPEN], Label, text);
  }

  lemma DefuseEach(text: string)
    ensures Defuse(text) == ReplaceEach(text, [A_CLOSE, B_CLOSE, A_OPEN, B_OPEN], Label)
  {
    NamesDiffer();
    var t1 := ReplaceAll(text, Marker(A_CLOSE), "[END_A]");
    var t2 := ReplaceAll(t1, Marker(B_CLOSE), "[END_B]");
    var t3 := ReplaceAll(t2, Marker(A_OPEN), "[A]");
    assert [A_CLOSE, B_CLOSE, A_OPEN, B_OPEN] == [A_CLOSE] + [B_CLOSE, A_OPEN, B_OPEN];
    assert [B_CLOSE, A_OPEN, B_OPEN] == [B_CLOSE] + [A_OPEN, B_OPEN] && [A_OPEN, B_OPEN] == [A_OPEN] + [B_OPEN];
    EachFirst(text, A_CLOSE, [B_CLOSE, A_OPEN, B_OPEN], Label);
    EachFirst(t1, B_CLOSE, [A_OPEN, B_OPEN], Label);
    EachFirst(t2, A_OPEN, [B_OPEN], Label);
    EachFirst(t3, B_OPEN, [], Label);
  }

  lemma MarkerTokens(name: string) returns (tokens: seq<Token>)
    requires name in NAMES
    ensures tokens == [Mark(name)] && tokens == Tokenize(NAMES, Marker(name))
  {
    NamesProper();
    TokenizeMarker(NAMES, name, "");
    assert Marker(name) + "" == Marker(name);
    tokens := [Mark(name)] + Tokenize(NAMES, "");
  }

  lemma OneRendered(name: string, rep: string -> string)
    ensures Rendered([Mark(name)], rep) == rep(name)
  {
    assert [Mark(name)][1..] == [];
  }

  /** Each marker by itself is shown as its label. */
  lemma DefuseMarker(name: string)
    requires name in NAMES
    ensures Defuse(Marker(name)) == if name == "MEMORY_A" then "[A]" else if name == "END_MEMORY_A" then "[END_A]"
                                    else if name == "MEMORY_B" then "[B]" else "[END_B]"
  {
    var tokens := MarkerTokens(name);
    DefuseShows(Marker(name));
    OneRendered(name, Label);
  }

  /** A snippet without markers is shown as it is. */
  lemma CleanSnippetUnchanged(text: string)
    requires Clean(NAMES, text)
    ensures Defuse(text) == text
  {
    DefuseShows(text);
    CleanRendersItself(NAMES, Label, text);
  }

  /** No snippet holds a judge marker once defused. */
  lemma DefusedIsClean(text: string)
    ensures Clean(NAMES, Defuse(text))
  {
    var t1 := ReplaceAll(text, Marker(A_CLOSE), "[END_A]");
    var t2 := ReplaceAll(t1, Marker(B_CLOSE), "[END_B]");
    var t3 := ReplaceAll(t2, Marker(A_OPEN), "[A]");
    DefuseStep(text, A_CLOSE, "[END_A]", {});
    DefuseStep(t1, B_CLOSE, "[END_B]", {A_CLOSE});
    DefuseStep(t2, A_OPEN, "[A]", {A_CLOSE, B_CLOSE});
    DefuseStep(t3, B_OPEN, "[B]", {A_CLOSE, B_CLOSE, A_OPEN});
  }

  function Line(snippet: string): string {
    "\n" + Defuse(snippet) + "\n"
  }

  function ConflictPrompt(preamble: Preamble, a: string, b: string): string {
    preamble + (Marker(A_OPEN) + (Line(a) + (Marker(A_CLOSE) + ("\n\n" +
    (Marker(B_OPEN) + (Line(b) + (Marker(B_CLOSE) + "\n")))))))
  }

  lemma LineIsClean(snippet: string)
    ensures Clean(NAMES, Line(snippet))
  {
    DefusedIsClean(snippet);
    NoAngleClean(NAMES, "\n");
    NewlineIsSafe();
    ApartAtSafe(NAMES, "\n", Defuse(snippet));
    CleanConcat(NAMES, "\n", Defuse(snippet));
    ApartAtSafe(NAMES, "\n" + Defuse(snippet), "\n");
    CleanConcat(NAMES, "\n" + Defuse(snippet), "\n");
  }

  lemma NewlineIsSafe()
    ensures SafeChar(NAMES, '\n')
  {
    assert forall i :: 0 <= i < |A_OPEN| ==> A_OPEN[i] != '\n';
    assert forall i :: 0 <= i < |A_CLOSE| ==> A_CLOSE[i] != '\n';
    assert forall i :: 0 <= i < |B_OPEN| ==> B_OPEN[i] != '\n';
    assert forall i :: 0 <= i < |B_CLOSE| ==> B_CLOSE[i] != '\n';
  }

  /** For every pair of snippets the prompt reads as the four markers, each once and in order, around plain text. */
  lemma ConflictPromptTokens(preamble: Preamble, a: string, b: string)
    ensures Tokenize(NAMES, ConflictPrompt(preamble, a, b)) ==
            Plain(preamble)
            + ([Mark(A_OPEN)] + (Plain(Line(a)) + ([Mark(A_CLOSE)] + (Plain("\n\n")
            + ([Mark(B_OPEN)] + (Plain(Line(b)) + ([Mark(B_CLOSE)] + Plain("\n"))))))))
  {
    var second := Marker(B_OPEN) + (Line(b) + (Marker(B_CLOSE) + "\n"));
    var first := Marker(A_OPEN) + (Line(a) + (Marker(A_CLOSE) + ("\n\n" + second)));
    NamesProper();
    LineIsClean(a);
    LineIsClean(b);
    PreambleTokens(preamble, first);
    FencedTokens(NAMES, A_OPEN, Line(a), A_CLOSE, "\n\n" + second);
    BreakTokens(second);
    FencedTokens(NAMES, B_OPEN, Line(b), B_CLOSE, "\n");
    NoAngleClean(NAMES, "\n");
  }

  lemma PreambleTokens(preamble: Preamble, rest: string)
    requires Marker(A_OPEN) <= rest
    ensures Tokenize(NAMES, preamble + rest) == Plain(preamble) + Tokenize(NAMES, rest)
  {
    NamesProper();
    NoAngleClean(NAMES, preamble);
    assert rest == Marker(A_OPEN) + rest[|Marker(A_OPEN)|..];
    ApartBeforeMarker(NAMES, preamble, A_OPEN, rest[|Marker(A_OPEN)|..]);
    TokenizeConcat(NAMES, preamble, rest);
  }

  lemma BreakTokens(rest: string)
    ensures Tokenize(NAMES, "\n\n" + rest) == Plain("\n\n") + Tokenize(NAMES, rest)
  {
    NamesProper();
    NewlineIsSafe();
    NoAngleClean(NAMES, "\n\n");
    ApartAtSafe(NAMES, "\n\n", rest);
    TokenizeConcat(NAMES, "\n\n", rest);
  }

  /** The text up to the first mark, and what follows that mark. */
  function UpToMark(tokens: seq<Token>): (string, seq<Token>) {
    if tokens == [] then ("", [])
    else match tokens[0]
      case Mark(_) => ("", tokens[1..])
      case Ch(c) => var (text, rest) := UpToMark(tokens[1..]); ([c] + text, rest)
  }

  lemma {:induction false} UpToMarkPlain(s: string, m: Token, rest: seq<Token>)
    requires m.Mark?
    ensures UpToMark(Plain(s) + ([m] + rest)) == (s, rest)
    decreases |s|
  {
    var tokens := Plain(s) + ([m] + rest);
    if s == "" {
      assert tokens == [m] + rest;
    } else {
      assert tokens[0] == Ch(s[0]) && tokens[1..] == Plain(s[1..]) + ([m] + rest);
      UpToMarkPlain(s[1..], m, rest);
      assert s == [s[0]] + s[1..];
    }
  }

  /** The two snippets of a prompt: what stands after the first and after the third mark. */
  function ReadSnippets(prompt: string): (string, string) {
    var (_, t1) := UpToMark(Tokenize(NAMES, prompt));
    var (a, t2) := UpToMark(t1);
    var (_, t3) := UpToMark(t2);
    var (b, _) := UpToMark(t3);
    (a, b)
  }

  /**
   Whatever the snippets contain, reading the prompt gives back exactly the two snippets, the first first, each on
   lines of its own with every character kept and each marker written as its label.
   */
  lemma ConflictPromptReadsBack(preamble: Preamble, a: string, b: string)
    ensures ReadSnippets(ConflictPrompt(preamble, a, b)) == ("\n" + AsShown(a) + "\n", "\n" + AsShown(b) + "\n")
  {
    DefuseShows(a);
    DefuseShows(b);
    var t4 := Plain("\n");
    var t3 := Plain(Line(b)) + ([Mark(B_CLOSE)] + t4);
    var t2 := Plain("\n\n") + ([Mark(B_OPEN)] + t3);
    var t1 := Plain(Line(a)) + ([Mark(A_CLOSE)] + t2);
    ConflictPromptTokens(preamble, a, b);
    UpToMarkPlain(preamble, Mark(A_OPEN), t1);
    UpToMarkPlain(Line(a), Mark(A_CLOSE), t2);
    UpToMarkPlain("\n\n", Mark(B_OPEN), t3);
    UpToMarkPlain(Line(b), Mark(B_CLOSE), t4);
  }
}
