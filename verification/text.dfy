/** The string operations the user repository relies on: `ToLower`, `Trim`
    and the ordering used to list users. `ToLower` (culture-dependent in
    .NET), `Trim` (Unicode white space) and the database's collation order
    are replaced by ASCII case mapping, ASCII white space and ordinal order. */
module Text {

  /** ASCII white space: the characters `String.Trim` removes in this model. */
  predicate IsWhiteSpace(c: char) {
    c == ' ' || c == '\t' || c == '\n' || c == '\r' || c == '\U{0B}' || c == '\U{0C}'
  }

  predicate AllWhiteSpace(s: string) {
    forall i :: 0 <= i < |s| ==> IsWhiteSpace(s[i])
  }

  function ToLowerChar(c: char): char {
    if 'A' <= c <= 'Z' then (c as int + 32) as char else c
  }

  function ToUpperChar(c: char): char {
    if 'a' <= c <= 'z' then (c as int - 32) as char else c
  }

  function ToLower(s: string): string {
    seq(|s|, i requires 0 <= i < |s| => ToLowerChar(s[i]))
  }

  function ToUpper(s: string): string {
    seq(|s|, i requires 0 <= i < |s| => ToUpperChar(s[i]))
  }

  /** Drops the leading white space. */
  function TrimStart(s: string): string {
    if s != [] && IsWhiteSpace(s[0]) then TrimStart(s[1..]) else s
  }

  /** Drops the trailing white space. */
  function TrimEnd(s: string): string {
    if s != [] && IsWhiteSpace(s[|s| - 1]) then TrimEnd(s[..|s| - 1]) else s
  }

  /** `TrimStart` keeps the longest suffix of `s` that does not start with
      white space; everything it drops is white space. */
  lemma {:induction false} TrimStartSpec(s: string)
    ensures |TrimStart(s)| <= |s| && TrimStart(s) == s[|s| - |TrimStart(s)|..]
    ensures AllWhiteSpace(s[..|s| - |TrimStart(s)|])
    ensures TrimStart(s) != [] ==> !IsWhiteSpace(TrimStart(s)[0])
  {
    if s != [] && IsWhiteSpace(s[0]) {
      TrimStartSpec(s[1..]);
    }
  }

  /** `TrimEnd` keeps the longest prefix of `s` that does not end with white
      space; everything it drops is white space. */
  lemma {:induction false} TrimEndSpec(s: string)
    ensures |TrimEnd(s)| <= |s| && TrimEnd(s) == s[..|TrimEnd(s)|]
    ensures AllWhiteSpace(s[|TrimEnd(s)|..])
    ensures TrimEnd(s) != [] ==> !IsWhiteSpace(TrimEnd(s)[|TrimEnd(s)| - 1])
  {
    if s != [] && IsWhiteSpace(s[|s| - 1]) {
      TrimEndSpec(s[..|s| - 1]);
    }
  }

  function Trim(s: string): string {
    TrimEnd(TrimStart(s))
  }

  /** The key by which user names are compared: lower-cased, then trimmed. */
  function Normalize(s: string): string {
    Trim(ToLower(s))
  }

  /** Ordinal (code point by code point) lexicographic order. */
  predicate OrdinalLe(a: string, b: string) {
    a == [] || (b != [] && (a[0] < b[0] || (a[0] == b[0] && OrdinalLe(a[1..], b[1..]))))
  }

  lemma {:induction false} OrdinalLeTotal(a: string, b: string)
    ensures OrdinalLe(a, b) || OrdinalLe(b, a)
  {
    if a != [] && b != [] && a[0] == b[0] {
      OrdinalLeTotal(a[1..], b[1..]);
    }
  }

  lemma {:induction false} OrdinalLeTransitive(a: string, b: string, c: string)
    requires OrdinalLe(a, b) && OrdinalLe(b, c)
    ensures OrdinalLe(a, c)
  {
    if a != [] && a[0] == b[0] && b[0] == c[0] {
      OrdinalLeTransitive(a[1..], b[1..], c[1..]);
    }
  }

  lemma {:induction false} TrimStartSkipsWhiteSpace(ws: string, x: string)
    requires AllWhiteSpace(ws)
    ensures TrimStart(ws + x) == TrimStart(x)
  {
    if ws == [] {
      assert ws + x == x;
    } else {
      assert (ws + x)[1..] == ws[1..] + x;
      TrimStartSkipsWhiteSpace(ws[1..], x);
    }
  }

  lemma {:induction false} TrimEndSkipsWhiteSpace(x: string, ws: string)
    requires AllWhiteSpace(ws)
    ensures TrimEnd(x + ws) == TrimEnd(x)
  {
    if ws == [] {
      assert x + ws == x;
    } else {
      var rest := ws[..|ws| - 1];
      assert (x + ws)[..|x + ws| - 1] == x + rest;
      TrimEndSkipsWhiteSpace(x, rest);
    }
  }

  /** Once `x` holds a character that is not white space, white space after
      it survives `TrimStart`. */
  lemma {:induction false} TrimStartKeepsTail(x: string, ws: string)
    requires !AllWhiteSpace(x)
    ensures TrimStart(x + ws) == TrimStart(x) + ws
  {
    if IsWhiteSpace(x[0]) {
      assert (x + ws)[1..] == x[1..] + ws;
      assert !AllWhiteSpace(x[1..]) by {
        var k :| 0 <= k < |x| && !IsWhiteSpace(x[k]);
        assert x[1..][k - 1] == x[k];
      }
      TrimStartKeepsTail(x[1..], ws);
    }
  }

  lemma TrimStartOfWhiteSpace(s: string)
    requires AllWhiteSpace(s)
    ensures TrimStart(s) == []
  {
    TrimStartSpec(s);
  }

  /** `Trim` ignores white space added on either side. */
  lemma TrimIgnoresPadding(ws1: string, x: string, ws2: string)
    requires AllWhiteSpace(ws1) && AllWhiteSpace(ws2)
    ensures Trim(ws1 + x + ws2) == Trim(x)
  {
    assert ws1 + x + ws2 == ws1 + (x + ws2);
    TrimStartSkipsWhiteSpace(ws1, x + ws2);
    if AllWhiteSpace(x) {
      assert AllWhiteSpace(x + ws2);
      TrimStartOfWhiteSpace(x + ws2);
      TrimStartOfWhiteSpace(x);
    } else {
      TrimStartKeepsTail(x, ws2);
      TrimEndSkipsWhiteSpace(TrimStart(x), ws2);
    }
  }

  lemma ToLowerConcat(a: string, b: string)
    ensures ToLower(a + b) == ToLower(a) + ToLower(b)
  {
    assert forall i :: 0 <= i < |a + b| ==> ToLower(a + b)[i] == (ToLower(a) + ToLower(b))[i];
  }

  lemma ToLowerKeepsWhiteSpace(ws: string)
    requires AllWhiteSpace(ws)
    ensures ToLower(ws) == ws
  {
  }

  /** Names that differ only by surrounding white space normalize alike. */
  lemma NormalizeIgnoresPadding(ws1: string, x: string, ws2: string)
    requires AllWhiteSpace(ws1) && AllWhiteSpace(ws2)
    ensures Normalize(ws1 + x + ws2) == Normalize(x)
  {
    ToLowerConcat(ws1 + x, ws2);
    ToLowerConcat(ws1, x);
    ToLowerKeepsWhiteSpace(ws1);
    ToLowerKeepsWhiteSpace(ws2);
    TrimIgnoresPadding(ws1, ToLower(x), ws2);
  }

  /** Names that differ only by letter case normalize alike. */
  lemma NormalizeIgnoresCase(x: string)
    ensures Normalize(ToUpper(x)) == Normalize(x)
    ensures Normalize(ToLower(x)) == Normalize(x)
  {
    assert ToLower(ToUpper(x)) == ToLower(x);
    assert ToLower(ToLower(x)) == ToLower(x);
  }
}
