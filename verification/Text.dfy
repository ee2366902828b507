/** Character classes and the standard-library string routines the components share. */
module Text {

  /** Unicode `White_Space`, the class behind `char::is_whitespace`, `trim` and `split_whitespace`. */
  predicate IsWhitespace(c: char) {
    || '\U{0009}' <= c <= '\U{000D}' || c == '\U{0020}' || c == '\U{0085}' || c == '\U{00A0}' || c == '\U{1680}'
    || '\U{2000}' <= c <= '\U{200A}' || c == '\U{2028}' || c == '\U{2029}' || c == '\U{202F}' || c == '\U{205F}'
    || c == '\U{3000}'
  }

  /** The characters that are not whitespace, in order. */
  function Visible(s: string): string {
    if s == [] then []
    else if IsWhitespace(s[0]) then Visible(s[1..])
    else [s[0]] + Visible(s[1..])
  }

  /** `s.trim().is_empty()` */
  predicate Blank(s: string) {
    forall i :: 0 <= i < |s| ==> IsWhitespace(s[i])
  }

  function TrimStart(s: string): (t: string)
    ensures t == [] || !IsWhitespace(t[0])
    ensures Visible(t) == Visible(s)
    ensures |t| <= |s|
  {
    if s != [] && IsWhitespace(s[0]) then TrimStart(s[1..]) else s
  }

  function TrimEnd(s: string): (t: string)
    ensures t <= s
    ensures t == [] || !IsWhitespace(t[|t| - 1])
    ensures Blank(s[|t|..])
  {
    if s != [] && IsWhitespace(s[|s| - 1]) then
      var t := TrimEnd(s[..|s| - 1]);
      assert s[|t|..] == s[..|s| - 1][|t|..] + [s[|s| - 1]];
      t
    else
      s
  }

  function Trim(s: string): string {
    TrimEnd(TrimStart(s))
  }

  lemma {:induction false} VisibleConcat(a: string, b: string)
    ensures Visible(a + b) == Visible(a) + Visible(b)
  {
    if a == [] {
      assert a + b == b;
    } else {
      assert (a + b)[0] == a[0] && (a + b)[1..] == a[1..] + b;
      VisibleConcat(a[1..], b);
    }
  }

  lemma {:induction false} VisibleBlank(s: string)
    ensures Blank(s) <==> Visible(s) == []
  {
    if s != [] {
      VisibleBlank(s[1..]);
      assert forall i :: 1 <= i < |s| ==> s[i] == s[1..][i - 1];
      if Blank(s[1..]) && IsWhitespace(s[0]) {
        assert forall i :: 0 <= i < |s| ==> IsWhitespace(s[i]);
      }
    }
  }

  /** Trimming removes whitespace only, and leaves nothing exactly when the text is blank. */
  lemma TrimKeepsVisible(s: string)
    ensures Visible(Trim(s)) == Visible(s)
    ensures Trim(s) == [] <==> Blank(s)
    ensures |Trim(s)| <= |s|
  {
    var t := TrimStart(s);
    var u := TrimEnd(t);
    VisibleBlank(t[|u|..]);
    assert t == u + t[|u|..];
    VisibleConcat(u, t[|u|..]);
    VisibleBlank(s);
    VisibleBlank(u);
  }

  /** The position of the first `c`, or the length. */
  function IndexOf(s: string, c: char): (i: nat)
    ensures i <= |s| && c !in s[..i] && (i < |s| ==> s[i] == c)
  {
    if s == "" || s[0] == c then 0 else 1 + IndexOf(s[1..], c)
  }

  function Concat(parts: seq<string>): string {
    if parts == [] then [] else parts[0] + Concat(parts[1..])
  }

  lemma {:induction false} ConcatAppend(a: seq<string>, b: seq<string>)
    ensures Concat(a + b) == Concat(a) + Concat(b)
  {
    if a == [] {
      assert a + b == b;
    } else {
      assert (a + b)[0] == a[0] && (a + b)[1..] == a[1..] + b;
      ConcatAppend(a[1..], b);
      assert Concat(a + b) == a[0] + Concat(a[1..] + b);
    }
  }
}
