/** The keyword arm's query text: quoted terms joined by `OR`, read back by the FTS5 string grammar. */
module Keyword {
  import opened Markers
  import opened Text
  import opened Wrappers

  const QUOTE := "\""
  const TWO_QUOTES := "\"\""
  const OR := " OR "

  // ---------------------------------------------------------------------------------------------
  // Escaping
  // ---------------------------------------------------------------------------------------------

  /** The length of the leading run of visible characters. */
  function RunLength(s: string): (n: nat)
    ensures n <= |s| && (forall i :: 0 <= i < n ==> !IsWhitespace(s[i])) && (n < |s| ==> IsWhitespace(s[n]))
  {
    if s == "" || IsWhitespace(s[0]) then 0 else 1 + RunLength(s[1..])
  }

  /** `str::split_whitespace`: the maximal runs of visible characters. */
  function SplitWhitespace(s: string): seq<string>
    decreases |s|
  {
    if s == "" then []
    else if IsWhitespace(s[0]) then SplitWhitespace(s[1..])
    else [s[..RunLength(s)]] + SplitWhitespace(s[RunLength(s)..])
  }

  function Quoted(term: string): string {
    QUOTE + ReplaceAll(term, QUOTE, TWO_QUOTES) + QUOTE
  }

  function JoinOr(terms: seq<string>): string {
    if terms == [] then ""
    else if |terms| == 1 then Quoted(terms[0])
    else Quoted(terms[0]) + OR + JoinOr(terms[1..])
  }

  function EscapeFtsQuery(raw: string): string {
    var terms := SplitWhitespace(raw);
    if terms == [] then TWO_QUOTES else JoinOr(terms)
  }

  // ---------------------------------------------------------------------------------------------
  // Reading a query: section 3.1 of the SQLite FTS5 documentation, strings and `OR`
  // ---------------------------------------------------------------------------------------------

  datatype Token = Phrase(text: string) | Word(text: string)

  /** The rest of a string whose opening quote is consumed: its text, and what follows the closing quote. */
  function ReadString(s: string): (r: Option<(string, string)>)
    ensures r.Some? ==> |r.value.1| < |s|
    decreases |s|
  {
    if s == "" then None
    else if s[0] != '"' then
      var r := ReadString(s[1..]);
      if r.Some? then Some(([s[0]] + r.value.0, r.value.1)) else None
    else if |s| > 1 && s[1] == '"' then
      var r := ReadString(s[2..]);
      if r.Some? then Some(([s[0]] + r.value.0, r.value.1)) else None
    else Some(("", s[1..]))
  }

  predicate IsBareword(c: char) {
    '0' <= c <= '9' || 'A' <= c <= 'Z' || 'a' <= c <= 'z' || c == '_' || c == '\U{001A}' || '\U{0080}' <= c
  }

  function WordLength(s: string): (n: nat)
    ensures n <= |s|
  {
    if s == "" || !IsBareword(s[0]) then 0 else 1 + WordLength(s[1..])
  }

  /** Blanks separate; anything else outside strings and barewords is left to other parts of the grammar. */
  function Lex(s: string): Option<seq<Token>>
    decreases |s|
  {
    if s == "" then Some([])
    else if s[0] == ' ' then Lex(s[1..])
    else if s[0] == '"' then
      var r := ReadString(s[1..]);
      if r.None? then None else Prepend(Phrase(r.value.0), Lex(r.value.1))
    else
      var n := WordLength(s);
      if n == 0 then None else Prepend(Word(s[..n]), Lex(s[n..]))
  }

  function Prepend(t: Token, rest: Option<seq<Token>>): Option<seq<Token>> {
    if rest.Some? then Some([t] + rest.value) else None
  }

  /** A phrase, or a phrase `OR` a list of phrases; a bareword `OR` is the only operator accepted. */
  function OrList(tokens: seq<Token>): Option<seq<string>> {
    if |tokens| == 1 && tokens[0].Phrase? then Some([tokens[0].text])
    else if |tokens| > 2 && tokens[0].Phrase? && tokens[1] == Word("OR") then
      var rest := OrList(tokens[2..]);
      if rest.Some? then Some([tokens[0].text] + rest.value) else None
    else None
  }

  function Parse(query: string): Option<seq<string>> {
    var tokens := Lex(query);
    if tokens.Some? then OrList(tokens.value) else None
  }

  // ---------------------------------------------------------------------------------------------
  // Round trip
  // ---------------------------------------------------------------------------------------------

  function Doubled(term: string): string {
    ReplaceAll(term, QUOTE, TWO_QUOTES)
  }

  lemma DoubledStep(term: string)
    requires term != ""
    ensures Doubled(term) == (if term[0] == '"' then TWO_QUOTES else [term[0]]) + Doubled(term[1..])
  {
    assert QUOTE <= term <==> term[0] == '"';
  }

  /** A doubled term and its closing quote read back as the term, whatever it contains. */
  lemma {:induction false} StringReadsBack(term: string, rest: string)
    requires rest == "" || rest[0] != '"'
    ensures ReadString(Doubled(term) + QUOTE + rest) == Some((term, rest))
  {
    var s := Doubled(term) + QUOTE + rest;
    if term == "" {
      assert s == QUOTE + rest;
      assert s[1..] == rest;
    } else {
      DoubledStep(term);
      StringReadsBack(term[1..], rest);
      var tail := Doubled(term[1..]) + QUOTE + rest;
      assert term == [term[0]] + term[1..];
      if term[0] == '"' {
        assert s == TWO_QUOTES + tail;
        assert s[2..] == tail;
      } else {
        assert s == [term[0]] + tail;
        assert s[1..] == tail;
      }
    }
  }

  lemma LexQuoted(term: string, rest: string)
    requires rest == "" || rest[0] != '"'
    ensures Lex(Quoted(term) + rest) == Prepend(Phrase(term), Lex(rest))
  {
    var s, inner := QuotedParts(term, rest);
    StringReadsBack(term, rest);
    assert ReadString(inner) == Some((term, rest));
  }

  lemma QuotedParts(term: string, rest: string) returns (s: string, inner: string)
    ensures s == Quoted(term) + rest && s != "" && s[0] == '"' && s[1..] == inner
    ensures inner == Doubled(term) + QUOTE + rest
  {
    s, inner := Quoted(term) + rest, Doubled(term) + QUOTE + rest;
    assert s == QUOTE + inner;
  }

  lemma LexOr(rest: string)
    requires rest != "" && rest[0] == '"'
    ensures Lex(OR + rest) == Prepend(Word("OR"), Lex(rest))
  {
    var s := OR + rest;
    var t := s[1..];
    assert t[0] == 'O' && t[1] == 'R' && t[2] == ' ';
    assert t[1..][0] == 'R' && t[1..][1..][0] == ' ';
    assert WordLength(t[1..][1..]) == 0;
    assert WordLength(t[1..]) == 1;
    assert WordLength(t) == 2 && t[..2] == "OR";
    assert t[2..][1..] == rest;
    assert Lex(t[2..]) == Lex(rest);
  }

  function OrTokens(terms: seq<string>): seq<Token>
    requires terms != []
  {
    if |terms| == 1 then [Phrase(terms[0])]
    else [Phrase(terms[0]), Word("OR")] + OrTokens(terms[1..])
  }

  lemma LexPair(term: string, rest: string, tokens: seq<Token>)
    requires rest != "" && rest[0] == '"' && Lex(rest) == Some(tokens)
    ensures Lex(Quoted(term) + OR + rest) == Some([Phrase(term), Word("OR")] + tokens)
    ensures (Quoted(term) + OR + rest)[0] == '"'
  {
    LexOr(rest);
    LexQuoted(term, OR + rest);
    assert Quoted(term) + OR + rest == Quoted(term) + (OR + rest);
    assert [Phrase(term)] + ([Word("OR")] + tokens) == [Phrase(term), Word("OR")] + tokens;
  }

  lemma {:induction false} LexJoined(terms: seq<string>)
    requires terms != []
    ensures Lex(JoinOr(terms)) == Some(OrTokens(terms))
    ensures JoinOr(terms) != "" && JoinOr(terms)[0] == '"'
  {
    if |terms| == 1 {
      LexQuoted(terms[0], "");
      assert Quoted(terms[0]) + "" == Quoted(terms[0]);
      assert [Phrase(terms[0])] + [] == [Phrase(terms[0])];
    } else {
      LexJoined(terms[1..]);
      LexPair(terms[0], JoinOr(terms[1..]), OrTokens(terms[1..]));
    }
  }

  lemma OrListStep(term: string, rest: seq<Token>)
    requires rest != []
    ensures OrList([Phrase(term), Word("OR")] + rest)
         == if OrList(rest).Some? then Some([term] + OrList(rest).value) else None
  {
    assert ([Phrase(term), Word("OR")] + rest)[2..] == rest;
  }

  lemma {:induction false} OrListOfTokens(terms: seq<string>)
    requires terms != []
    ensures OrList(OrTokens(terms)) == Some(terms)
  {
    if |terms| == 1 {
      assert terms == [terms[0]];
    } else {
      OrListOfTokens(terms[1..]);
      OrListStep(terms[0], OrTokens(terms[1..]));
      assert terms == [terms[0]] + terms[1..];
    }
  }

  /** Every query reads back as exactly the `OR`-list of its own terms: quotes and operator words are plain text. */
  lemma EscapedParsesBack(raw: string)
    ensures Parse(EscapeFtsQuery(raw))
         == Some(if SplitWhitespace(raw) == [] then [""] else SplitWhitespace(raw))
  {
    var terms := SplitWhitespace(raw);
    if terms == [] {
      LexJoined([""]);
      OrListOfTokens([""]);
      assert Quoted("") == TWO_QUOTES;
    } else {
      LexJoined(terms);
      OrListOfTokens(terms);
    }
  }

  // ---------------------------------------------------------------------------------------------
  // The terms
  // ---------------------------------------------------------------------------------------------

  predicate IsTerm(t: string) {
    t != "" && forall i :: 0 <= i < |t| ==> !IsWhitespace(t[i])
  }

  lemma {:induction false} VisibleTerm(t: string)
    requires forall i :: 0 <= i < |t| ==> !IsWhitespace(t[i])
    ensures Visible(t) == t
  {
    if t != "" {
      VisibleTerm(t[1..]);
      assert t == [t[0]] + t[1..];
    }
  }

  /** The terms are whitespace-free and keep every visible character in order. */
  lemma {:induction false} TermsKeepVisible(s: string)
    ensures forall t :: t in SplitWhitespace(s) ==> IsTerm(t)
    ensures Concat(SplitWhitespace(s)) == Visible(s)
    ensures SplitWhitespace(s) == [] <==> Blank(s)
    decreases |s|
  {
    VisibleBlank(s);
    if s == "" {
    } else if IsWhitespace(s[0]) {
      TermsKeepVisible(s[1..]);
    } else {
      var n := RunLength(s);
      TermsKeepVisible(s[n..]);
      assert s == s[..n] + s[n..];
      VisibleConcat(s[..n], s[n..]);
      VisibleTerm(s[..n]);
    }
  }

  function Spaced(terms: seq<string>, gap: char): string {
    if terms == [] then "" else terms[0] + [gap] + Spaced(terms[1..], gap)
  }

  lemma {:induction false} RunOfTerm(t: string, rest: string)
    requires IsTerm(t) && rest != "" && IsWhitespace(rest[0])
    ensures RunLength(t + rest) == |t|
  {
    assert forall i :: 0 <= i < |t| ==> (t + rest)[i] == t[i];
    assert (t + rest)[|t|] == rest[0];
  }

  /** Nothing but whitespace separates terms: spaced-out terms split back into themselves. */
  lemma {:induction false} SplitSpaced(terms: seq<string>, gap: char)
    requires IsWhitespace(gap) && forall t :: t in terms ==> IsTerm(t)
    ensures SplitWhitespace(Spaced(terms, gap)) == terms
  {
    if terms != [] {
      var t, more := terms[0], Spaced(terms[1..], gap);
      var rest := [gap] + more;
      assert Spaced(terms, gap) == t + rest;
      RunOfTerm(t, rest);
      assert (t + rest)[..|t|] == t && (t + rest)[|t|..] == rest && rest[1..] == more;
      SplitSpaced(terms[1..], gap);
    }
  }
}
