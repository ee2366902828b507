/** Control stripping and byte-bounded truncation on a character boundary. */
module Sanitize {

  /** Bytes a character takes in UTF-8. */
  function Utf8Len(c: char): (n: nat)
    ensures 1 <= n <= 4
  {
    if c < '\U{0080}' then 1 else if c < '\U{0800}' then 2 else if c < '\U{10000}' then 3 else 4
  }

  function ByteLen(s: string): nat {
    if s == "" then 0 else Utf8Len(s[0]) + ByteLen(s[1..])
  }

  /** How many characters fit in `cap` bytes. */
  function Fitting(s: string, cap: nat): (k: nat)
    ensures k <= |s|
  {
    if s == "" || Utf8Len(s[0]) > cap then 0 else 1 + Fitting(s[1..], cap - Utf8Len(s[0]))
  }

  /** `s.is_char_boundary(end)` */
  predicate IsBoundary(s: string, end: nat) {
    ByteLen(s[..Fitting(s, end)]) == end
  }

  function Truncated(s: string, cap: nat): string {
    s[..Fitting(s, cap)]
  }

  /** `Truncated` is the longest prefix within the cap. */
  lemma {:induction false} TruncatedIsLongest(s: string, cap: nat)
    ensures ByteLen(Truncated(s, cap)) <= cap
    ensures forall k :: Fitting(s, cap) < k <= |s| ==> ByteLen(s[..k]) > cap
    ensures ByteLen(s) <= cap <==> Truncated(s, cap) == s
  {
    if s != "" {
      var c, rest := Utf8Len(s[0]), s[1..];
      if c <= cap {
        TruncatedIsLongest(rest, cap - c);
        assert Truncated(s, cap)[0] == s[0] && Truncated(s, cap)[1..] == Truncated(rest, cap - c);
        assert s == [s[0]] + rest;
        forall k | Fitting(s, cap) < k <= |s|
          ensures ByteLen(s[..k]) > cap
        {
          assert s[..k][0] == s[0] && s[..k][1..] == rest[..k - 1];
        }
      } else {
        forall k | 0 < k <= |s|
          ensures ByteLen(s[..k]) > cap
        {
          assert s[..k][0] == s[0];
        }
        assert s[..|s|] == s;
      }
    }
  }

  lemma {:induction false} FittingBelow(s: string, end: nat)
    requires end > 0
    ensures IsBoundary(s, end) || Fitting(s, end - 1) == Fitting(s, end)
  {
    if s != "" && Utf8Len(s[0]) <= end {
      var c, rest := Utf8Len(s[0]), s[1..];
      var k := Fitting(s, end);
      assert s[..k][0] == s[0] && s[..k][1..] == rest[..k - 1];
      if end == c {
        assert Fitting(rest, 0) == 0 && k == 1;
        assert s[..k][1..] == "";
      } else {
        FittingBelow(rest, end - c);
      }
    }
  }

  /** The truncations of the source: return what fits, else step the end back to a character boundary. */
  method Truncate(s: string, cap: nat) returns (t: string)
    ensures t == Truncated(s, cap)
  {
    TruncatedIsLongest(s, cap);
    if ByteLen(s) <= cap {
      return s;
    }
    var end := cap;
    while end > 0 && !IsBoundary(s, end)
      invariant Fitting(s, end) == Fitting(s, cap)
    {
      FittingBelow(s, end);
      end := end - 1;
    }
    t := s[..Fitting(s, end)];
  }

  /** The characters `strip_bidi_controls` drops: `char::is_control` and the listed separators and bidi controls. */
  predicate IsStripped(c: char) {
    || c <= '\U{001F}' || '\U{007F}' <= c <= '\U{009F}'
    || c == '\U{061C}' || c == '\U{2028}' || c == '\U{2029}'
    || '\U{200B}' <= c <= '\U{200F}' || '\U{2066}' <= c <= '\U{2069}' || '\U{202A}' <= c <= '\U{202E}'
  }

  function Strip(s: string): string {
    if s == "" then "" else if IsStripped(s[0]) then Strip(s[1..]) else [s[0]] + Strip(s[1..])
  }

  lemma {:induction false} StripConcat(a: string, b: string)
    ensures Strip(a + b) == Strip(a) + Strip(b)
  {
    if a == "" {
      assert a + b == b;
    } else {
      assert (a + b)[0] == a[0] && (a + b)[1..] == a[1..] + b;
      StripConcat(a[1..], b);
    }
  }

  /** `at` lists exactly the places of `s` that hold no stripped character, in order. */
  ghost predicate Legible(s: string, at: seq<nat>) {
    (forall i :: 0 <= i < |at| ==> at[i] < |s| && !IsStripped(s[at[i]]))
    && (forall i, j :: 0 <= i < j < |at| ==> at[i] < at[j])
    && (forall p: nat :: p < |s| && !IsStripped(s[p]) ==> p in at)
  }

  /** What is left is the character of every such place, each once and in order. */
  lemma {:induction false} StripKeepsOrder(s: string) returns (at: seq<nat>)
    ensures Legible(s, at) && |Strip(s)| == |at|
    ensures forall i :: 0 <= i < |at| ==> Strip(s)[i] == s[at[i]]
  {
    if s == "" {
      at := [];
    } else {
      var n: nat := |s| - 1;
      var before := StripKeepsOrder(s[..n]);
      assert s == s[..n] + [s[n]];
      StripConcat(s[..n], [s[n]]);
      at := if IsStripped(s[n]) then before else before + [n];
    }
  }

  /** Nothing stripped is left, and a text without such characters is unchanged. */
  lemma {:induction false} StripExact(s: string)
    ensures forall c :: c in Strip(s) <==> c in s && !IsStripped(c)
    ensures (forall c :: c in s ==> !IsStripped(c)) <==> Strip(s) == s
  {
    if s != "" {
      StripExact(s[1..]);
      assert s == [s[0]] + s[1..];
    }
  }

  /** Printable ASCII is kept as it is. */
  lemma PrintableIsKept(s: string)
    requires forall i :: 0 <= i < |s| ==> ' ' <= s[i] <= '~'
    ensures Strip(s) == s
  {
    StripExact(s);
  }

  /** ASCII takes a byte a character, so as many characters fit as there are bytes. */
  lemma {:induction false} AsciiFits(s: string, cap: nat)
    requires forall i :: 0 <= i < |s| ==> s[i] <= '~'
    ensures ByteLen(s) == |s| && Fitting(s, cap) == if |s| <= cap then |s| else cap
  {
    if s != "" {
      AsciiFits(s[1..], if cap == 0 then 0 else cap - 1);
    }
  }

  lemma ControlsGo(s: string, c: char)
    requires c < ' ' || '\U{007F}' <= c <= '\U{009F}' || c == '\U{200B}' || c == '\U{202E}' || c == '\U{2066}'
    ensures c !in Strip(s)
  {
    StripExact(s);
  }

  /** `sanitize_ident`: strip, then cap at 200 bytes. */
  function SanitizeIdent(s: string): string {
    Truncated(Strip(s), 200)
  }
}
