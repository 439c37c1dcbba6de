/**
 * The pieces of Rust's string library that the alignment code relies on:
 * the two whitespace classes, `trim_start`, `trim_end`, `ends_with('\n')`
 * and `" ".repeat(n)`. Strings are sequences of ASCII characters, so a
 * character is one byte and `len()` is the sequence length.
 */
module Text {

  /** `char::is_whitespace` on ASCII characters (used by `trim_start`/`trim_end`). */
  predicate IsWhitespace(c: char)
    ensures IsWhitespace(c) ==> c == ' ' || '\t' <= c <= '\r'
  {
    c == ' ' || c == '\t' || c == '\n' || c == '\U{0B}' || c == '\U{0C}' || c == '\r'
  }

  /** `char::is_ascii_whitespace` (used by `split_ascii_whitespace`): no vertical tab. */
  predicate IsAsciiWhitespace(c: char)
    ensures IsAsciiWhitespace(c) <==> IsWhitespace(c) && c != '\U{0B}'
  {
    c == ' ' || c == '\t' || c == '\n' || c == '\U{0C}' || c == '\r'
  }

  predicate AllWhitespace(s: string) {
    forall i :: 0 <= i < |s| ==> IsWhitespace(s[i])
  }

  /** `s.ends_with('\n')` */
  predicate EndsWithNewline(s: string)
    ensures EndsWithNewline(s) ==> 0 < |s| && s == s[..|s| - 1] + "\n" && IsWhitespace(s[|s| - 1])
  {
    |s| > 0 && s[|s| - 1] == '\n'
  }

  /** `" ".repeat(n)` */
  function Spaces(n: nat): (r: string)
    ensures |r| == n
    ensures forall i :: 0 <= i < n ==> r[i] == ' '
  {
    seq(n, _ => ' ')
  }

  /** `str::trim_start`: the longest suffix that does not begin with whitespace. */
  function TrimStart(s: string): (r: string)
    ensures |r| <= |s| && r == s[|s| - |r|..]
    ensures r == [] || !IsWhitespace(r[0])
    decreases |s|
  {
    if s != [] && IsWhitespace(s[0]) then TrimStart(s[1..]) else s
  }

  /** What `trim_start` removes is whitespace. */
  lemma {:induction false} TrimStartDropsWhitespace(s: string)
    ensures AllWhitespace(s[..|s| - |TrimStart(s)|])
    decreases |s|
  {
    if s != [] && IsWhitespace(s[0]) {
      TrimStartDropsWhitespace(s[1..]);
      assert s[..|s| - |TrimStart(s)|] == [s[0]] + s[1..][..|s| - 1 - |TrimStart(s[1..])|];
    }
  }

  /** `str::trim_end`: the longest prefix that does not end with whitespace. */
  function TrimEnd(s: string): (r: string)
    ensures |r| <= |s| && r == s[..|r|]
    ensures r == [] || !IsWhitespace(r[|r| - 1])
    decreases |s|
  {
    if s != [] && IsWhitespace(s[|s| - 1]) then TrimEnd(s[..|s| - 1]) else s
  }

  /** What `trim_end` removes is whitespace. */
  lemma {:induction false} TrimEndDropsWhitespace(s: string)
    ensures AllWhitespace(s[|TrimEnd(s)|..])
    decreases |s|
  {
    if s != [] && IsWhitespace(s[|s| - 1]) {
      TrimEndDropsWhitespace(s[..|s| - 1]);
      assert s[|TrimEnd(s)|..] == s[..|s| - 1][|TrimEnd(s[..|s| - 1])|..] + [s[|s| - 1]];
    }
  }

  /** Trimming the end of a text that starts with non-whitespace leaves it nonempty,
      and a final newline is among what it removes. */
  lemma TrimEndOfTrimmed(t: string)
    requires t == [] || !IsWhitespace(t[0])
    ensures TrimEnd(t) == [] <==> t == []
    ensures TrimEnd(t) != [] ==> !IsWhitespace(TrimEnd(t)[0])
    ensures EndsWithNewline(t) ==> |TrimEnd(t)| < |t|
  {
    var body := TrimEnd(t);
    TrimEndDropsWhitespace(t);
    if body != [] {
      assert body[0] == t[0];
    }
    if t != [] && body == [] {
      assert false;
    }
    if EndsWithNewline(t) && |body| == |t| {
      assert false;
    }
  }

  /** `str::trim_start` followed by `str::trim_end`. */
  function Trim(s: string): (r: string)
    ensures |r| <= |s|
    ensures r != [] ==> !IsWhitespace(r[0]) && !IsWhitespace(r[|r| - 1])
  {
    TrimEndOfTrimmed(TrimStart(s));
    TrimEnd(TrimStart(s))
  }

  /** Trimming the start of `ws + x` gives `x` when `ws` is whitespace and `x` starts otherwise. */
  lemma TrimStartSplit(s: string, ws: string, x: string)
    requires s == ws + x && AllWhitespace(ws)
    requires x == [] || !IsWhitespace(x[0])
    ensures TrimStart(s) == x
  {
    TrimStartDropsWhitespace(s);
    assert x == s[|ws|..];
  }

  /** Trimming the end of `x + ws` gives `x` when `ws` is whitespace and `x` ends otherwise. */
  lemma TrimEndSplit(s: string, x: string, ws: string)
    requires s == x + ws && AllWhitespace(ws)
    requires x == [] || !IsWhitespace(x[|x| - 1])
    ensures TrimEnd(s) == x
  {
    TrimEndDropsWhitespace(s);
    assert x == s[..|x|];
  }

  lemma SpacesAreWhitespace(n: nat)
    ensures AllWhitespace(Spaces(n))
  {
  }
}
