/**
 * `dejustify` (src/lib.rs:160-180): every run of two or more gap characters
 * becomes one space, and then, when more than one space is wanted after
 * punctuation, the gap character after each `.`, `?` and `!` becomes that
 * many spaces. Both steps are regular-expression replacements; the
 * expressions are `[' ']{2,}` and `\.[' ']`, `\?[' ']`, `![' ']`, whose
 * character class `[' ']` holds the space AND the apostrophe. The
 * replacements are modelled as the leftmost, non-overlapping, left-to-right
 * scans that a regular-expression `replace_all` performs for these
 * expressions.
 */
module Dejustify {
  import opened Text
  import opened Layout

  /** The character class `[' ']`: a space or an apostrophe. */
  predicate InClass(c: char)
    ensures InClass(c) && IsWhitespace(c) ==> c == ' '
    ensures InClass(c) && !IsWhitespace(c) ==> c == '\''
  {
    c == ' ' || c == '\''
  }

  predicate NoClassChar(s: string) {
    forall i :: 0 <= i < |s| ==> !InClass(s[i])
  }

  /** No two neighbouring characters are both in the class. */
  predicate NoClassPair(s: string) {
    forall i :: 0 <= i < |s| - 1 ==> !(InClass(s[i]) && InClass(s[i + 1]))
  }

  /** Length of the run of class characters that starts `s`. */
  function ClassRun(s: string): (k: nat)
    ensures k <= |s|
    ensures forall i :: 0 <= i < k ==> InClass(s[i])
    ensures k == |s| || !InClass(s[k])
  {
    if s == [] || !InClass(s[0]) then 0 else 1 + ClassRun(s[1..])
  }

  /** `replace_matches(text, "[' ']{2,}", " ")`: each maximal run of two or more
      class characters becomes a single space. */
  function Collapse(s: string): (r: string)
    ensures |r| <= |s|
    ensures s != [] ==> r != [] && (InClass(r[0]) <==> InClass(s[0]))
    ensures s != [] && !InClass(s[0]) ==> r[0] == s[0]
    decreases |s|
  {
    if s == [] then []
    else
      var k := ClassRun(s);
      if k >= 2 then " " + Collapse(s[k..])
      else [s[0]] + Collapse(s[1..])
  }

  /** After collapsing, no two class characters are neighbours. */
  lemma {:induction false} CollapseLeavesNoPair(s: string)
    ensures NoClassPair(Collapse(s))
    decreases |s|
  {
    if s != [] {
      var k := ClassRun(s);
      var next := if k >= 2 then s[k..] else s[1..];
      CollapseLeavesNoPair(next);
      var r, tail := Collapse(s), Collapse(next);
      assert r == r[..1] + tail;
      forall i | 0 <= i < |r| - 1 ensures !(InClass(r[i]) && InClass(r[i + 1])) {
        if i > 0 {
          assert r[i] == tail[i - 1] && r[i + 1] == tail[i];
        }
      }
    }
  }

  /** The sentence marks, in the order the three replacements run. */
  const SentenceMarks: seq<char> := ['.', '?', '!']
  const MarkSet: set<char> := set c | c in SentenceMarks

  /** `replace_matches(text, "<mark>[' ']", "<mark>" + " ".repeat(n))` for one mark. */
  function WidenAfter(s: string, mark: char, n: nat): (r: string)
    ensures s != [] ==> r != [] && r[0] == s[0]
    ensures n >= 1 ==> |s| <= |r|
    decreases |s|
  {
    if |s| < 2 then s
    else if s[0] == mark && InClass(s[1]) then [mark] + Spaces(n) + WidenAfter(s[2..], mark, n)
    else [s[0]] + WidenAfter(s[1..], mark, n)
  }

  /** All of the replacements for the marks in `marks`, done in one scan. */
  function WidenAfterAny(s: string, marks: set<char>, n: nat): (r: string)
    ensures s != [] ==> r != [] && r[0] == s[0]
    decreases |s|
  {
    if |s| < 2 then s
    else if s[0] in marks && InClass(s[1]) then [s[0]] + Spaces(n) + WidenAfterAny(s[2..], marks, n)
    else [s[0]] + WidenAfterAny(s[1..], marks, n)
  }

  /** What `dejustify(n)` returns. */
  function Dejustified(s: string, n: nat): (r: string)
    ensures s != [] ==> r != [] && (InClass(r[0]) <==> InClass(s[0]))
    ensures n <= 1 ==> |r| <= |s| && NoClassPair(r)
  {
    CollapseLeavesNoPair(s);
    if n > 1 then WidenAfterAny(Collapse(s), MarkSet, n) else Collapse(s)
  }

  /** `dejustify(n)` as the source runs it: collapse, then one replacement pass per mark. */
  method Dejustify(s: string, n: nat) returns (text: string)
    ensures text == Dejustified(s, n)
  {
    text := Collapse(s);
    if n > 1 {
      ghost var done: set<char> := {};
      WidenAfterNone(Collapse(s), n);
      for i := 0 to |SentenceMarks|
        invariant done == set c | c in SentenceMarks[..i]
        invariant text == WidenAfterAny(Collapse(s), done, n)
      {
        WidenAfterJoins(Collapse(s), done, SentenceMarks[i], n);
        text := WidenAfter(text, SentenceMarks[i], n);
        done := done + {SentenceMarks[i]};
      }
      assert SentenceMarks[..|SentenceMarks|] == SentenceMarks;
    }
  }

  /** With no marks, the widening scan changes nothing. */
  lemma {:induction false} WidenAfterNone(s: string, n: nat)
    ensures WidenAfterAny(s, {}, n) == s
    decreases |s|
  {
    if |s| >= 2 {
      WidenAfterNone(s[1..], n);
      assert s == [s[0]] + s[1..];
    }
  }

  /** A prefix that holds no `mark` passes through a `WidenAfter` scan unchanged. */
  lemma {:induction false} WidenAfterSkips(t: string, rest: string, mark: char, n: nat)
    requires forall i :: 0 <= i < |t| ==> t[i] != mark
    ensures WidenAfter(t + rest, mark, n) == t + WidenAfter(rest, mark, n)
    decreases |t|
  {
    var s := t + rest;
    if t == [] {
      assert s == rest;
    } else if |s| >= 2 {
      assert s[0] == t[0] != mark;
      assert s[1..] == t[1..] + rest;
      calc {
        WidenAfter(s, mark, n);
        [t[0]] + WidenAfter(t[1..] + rest, mark, n);
        { WidenAfterSkips(t[1..], rest, mark, n); }
        [t[0]] + (t[1..] + WidenAfter(rest, mark, n));
        { assert [t[0]] + t[1..] == t; }
        t + WidenAfter(rest, mark, n);
      }
    } else {
      assert rest == [] && s == t;
    }
  }

  /** Running one more mark's pass after the scan for `marks` is the scan for both:
      the three passes of `dejustify` amount to one scan over all three marks. */
  lemma {:induction false} WidenAfterJoins(s: string, marks: set<char>, mark: char, n: nat)
    requires mark !in marks && !InClass(mark)
    requires forall m :: m in marks ==> !InClass(m)
    ensures WidenAfter(WidenAfterAny(s, marks, n), mark, n) == WidenAfterAny(s, marks + {mark}, n)
    decreases |s|
  {
    if |s| >= 2 {
      var all := marks + {mark};
      var tail := WidenAfterAny(s[2..], marks, n);
      WidenAfterJoins(s[2..], marks, mark, n);
      if s[0] in marks && InClass(s[1]) {
        WidenAfterSkips([s[0]] + Spaces(n), tail, mark, n);
      } else if s[0] == mark && InClass(s[1]) {
        var scanned := [mark] + ([s[1]] + tail);
        assert WidenAfterAny(s, marks, n) == scanned;
        assert scanned[2..] == tail;
      } else {
        WidenAfterJoins(s[1..], marks, mark, n);
        var rest := WidenAfterAny(s[1..], marks, n);
        assert WidenAfterAny(s, marks, n) == [s[0]] + rest;
        assert ([s[0]] + rest)[1..] == rest;
      }
    }
  }

  /** One character followed by text: collapsing does not join them, unless both are class characters. */
  lemma CollapseCons(x: char, rest: string)
    requires InClass(x) ==> rest == [] || !InClass(rest[0])
    ensures Collapse([x] + rest) == [x] + Collapse(rest)
  {
    var s := [x] + rest;
    assert s[1..] == rest;
    assert ClassRun(s) <= 1;
  }

  /** A run of one or more spaces before a non-class character collapses to one space. */
  lemma CollapseSpaces(c: nat, rest: string)
    requires c >= 1
    requires rest == [] || !InClass(rest[0])
    ensures Collapse(Spaces(c) + rest) == " " + Collapse(rest)
  {
    var s := Spaces(c) + rest;
    assert ClassRun(s) == c;
    assert s[c..] == rest;
    if c == 1 {
      assert s == " " + rest;
    }
  }

  /** Text without class characters passes through `Collapse` unchanged. */
  lemma {:induction false} CollapseKeepsWord(w: string, rest: string)
    requires NoClassChar(w)
    ensures Collapse(w + rest) == w + Collapse(rest)
    decreases |w|
  {
    if w == [] {
      assert w + rest == rest;
    } else {
      CollapseKeepsWord(w[1..], rest);
      assert w + rest == [w[0]] + (w[1..] + rest);
      CollapseCons(w[0], w[1..] + rest);
    }
  }

  /** Text that has no run of two class characters is what `Collapse` leaves it as. */
  lemma {:induction false} CollapseFixed(s: string)
    requires NoClassPair(s)
    ensures Collapse(s) == s
    decreases |s|
  {
    if s != [] {
      assert NoClassPair(s[1..]) by {
        forall i | 0 <= i < |s[1..]| - 1 ensures !(InClass(s[1..][i]) && InClass(s[1..][i + 1])) {
          assert s[1..][i] == s[i + 1] && s[1..][i + 1] == s[i + 2];
        }
      }
      CollapseFixed(s[1..]);
      CollapseCons(s[0], s[1..]);
      assert s == [s[0]] + s[1..];
    }
  }

  /** Collapsing and widening again what was already widened gives it back. */
  lemma {:induction false} WidenCollapseWiden(u: string, marks: set<char>, n: nat)
    requires NoClassPair(u) && n >= 2
    requires forall m :: m in marks ==> !InClass(m)
    ensures WidenAfterAny(Collapse(WidenAfterAny(u, marks, n)), marks, n) == WidenAfterAny(u, marks, n)
    decreases |u|
  {
    if |u| < 2 {
      CollapseFixed(u);
    } else {
      assert NoClassPair(u[1..]) by {
        forall i | 0 <= i < |u[1..]| - 1 ensures !(InClass(u[1..][i]) && InClass(u[1..][i + 1])) {
          assert u[1..][i] == u[i + 1] && u[1..][i + 1] == u[i + 2];
        }
      }
      if u[0] in marks && InClass(u[1]) {
        assert NoClassPair(u[2..]) by {
          forall i | 0 <= i < |u[2..]| - 1 ensures !(InClass(u[2..][i]) && InClass(u[2..][i + 1])) {
            assert u[2..][i] == u[i + 2] && u[2..][i + 1] == u[i + 3];
          }
        }
        var tail := WidenAfterAny(u[2..], marks, n);
        WidenCollapseWiden(u[2..], marks, n);
        assert tail == [] || !InClass(tail[0]) by {
          if |u| > 2 { assert !InClass(u[2]); }
        }
        CollapseSpaces(n, tail);
        CollapseCons(u[0], Spaces(n) + tail);
        assert [u[0]] + Spaces(n) + tail == [u[0]] + (Spaces(n) + tail);
        var widened := [u[0]] + Spaces(n) + tail;
        assert WidenAfterAny(u, marks, n) == widened;
        var again := [u[0]] + " " + Collapse(tail);
        assert Collapse(widened) == again;
        assert again[0] == u[0] && again[1] == ' ' && again[2..] == Collapse(tail);
        assert WidenAfterAny(again, marks, n) == [u[0]] + Spaces(n) + WidenAfterAny(Collapse(tail), marks, n);
      } else {
        var tail := WidenAfterAny(u[1..], marks, n);
        WidenCollapseWiden(u[1..], marks, n);
        assert tail[0] == u[1];
        assert InClass(u[0]) ==> !InClass(u[1]);
        CollapseCons(u[0], tail);
        var again := [u[0]] + Collapse(tail);
        assert again[1..] == Collapse(tail);
        assert again[1] == u[1];
      }
    }
  }

  /** Dejustifying twice is dejustifying once. */
  lemma DejustifyIdempotent(s: string, n: nat)
    ensures Dejustified(Dejustified(s, n), n) == Dejustified(s, n)
  {
    CollapseLeavesNoPair(s);
    CollapseFixed(Collapse(s));
    if n > 1 {
      WidenCollapseWiden(Collapse(s), MarkSet, n);
    }
  }

  /** The text with every class character removed. */
  function NonGap(s: string): (r: string)
    ensures NoClassChar(r)
    decreases |s|
  {
    if s == [] then []
    else if InClass(s[0]) then NonGap(s[1..])
    else [s[0]] + NonGap(s[1..])
  }

  lemma {:induction false} NonGapAppend(a: string, b: string)
    ensures NonGap(a + b) == NonGap(a) + NonGap(b)
    decreases |a|
  {
    if a == [] {
      assert a + b == b;
    } else {
      NonGapAppend(a[1..], b);
      assert (a + b)[1..] == a[1..] + b;
    }
  }

  lemma {:induction false} NonGapSkipsRun(s: string, k: nat)
    requires k <= |s|
    requires forall i :: 0 <= i < k ==> InClass(s[i])
    ensures NonGap(s) == NonGap(s[k..])
    decreases k
  {
    if k > 0 {
      NonGapSkipsRun(s[1..], k - 1);
      assert s[1..][k - 1..] == s[k..];
    }
  }

  lemma {:induction false} CollapseKeepsText(s: string)
    ensures NonGap(Collapse(s)) == NonGap(s)
    decreases |s|
  {
    if s != [] {
      var k := ClassRun(s);
      if k >= 2 {
        CollapseKeepsText(s[k..]);
        NonGapSkipsRun(s, k);
        assert (" " + Collapse(s[k..]))[1..] == Collapse(s[k..]);
      } else {
        CollapseKeepsText(s[1..]);
        assert ([s[0]] + Collapse(s[1..]))[1..] == Collapse(s[1..]);
      }
    }
  }

  lemma {:induction false} WidenKeepsText(s: string, marks: set<char>, n: nat)
    ensures NonGap(WidenAfterAny(s, marks, n)) == NonGap(s)
    decreases |s|
  {
    if |s| >= 2 {
      if s[0] in marks && InClass(s[1]) {
        var tail := WidenAfterAny(s[2..], marks, n);
        WidenKeepsText(s[2..], marks, n);
        NonGapAppend([s[0]] + Spaces(n), tail);
        NonGapAppend([s[0]], Spaces(n));
        NonGapSkipsRun(Spaces(n), n);
        NonGapSkipsRun(s[1..], 1);
        assert s[1..][1..] == s[2..];
        assert [s[0]][1..] == [];
        assert s == [s[0]] + s[1..];
        NonGapAppend([s[0]], s[1..]);
      } else {
        WidenKeepsText(s[1..], marks, n);
        assert ([s[0]] + WidenAfterAny(s[1..], marks, n))[1..] == WidenAfterAny(s[1..], marks, n);
      }
    }
  }

  /** Dejustifying only rewrites gaps: every other character stays, in order. */
  lemma DejustifyKeepsText(s: string, n: nat)
    ensures NonGap(Dejustified(s, n)) == NonGap(s)
  {
    CollapseKeepsText(s);
    WidenKeepsText(Collapse(s), MarkSet, n);
  }

  /** Pieces of text with no gap character in them, such as the words of a line. */
  predicate Chunks(ws: seq<string>) {
    forall i :: 0 <= i < |ws| ==> ws[i] != [] && NoClassChar(ws[i])
  }

  /** Chunks written with gaps of any width collapse to the chunks one space apart. */
  lemma {:induction false} CollapseInterleave(ws: seq<string>, cs: seq<nat>, tail: string)
    requires |cs| == |ws| && Separating(cs) && Chunks(ws)
    requires NoClassChar(tail)
    ensures Collapse(Interleave(ws, cs) + tail) == Join(ws) + tail
    decreases |ws|
  {
    if |ws| == 1 {
      InterleaveLast(ws, cs);
      JoinOne(ws);
      CollapseKeepsWord(ws[0], tail);
      CollapseFixed(tail);
    } else {
      assert Separating(cs[1..]) by {
        assert cs[1..][|cs[1..]| - 1] == cs[|cs| - 1];
      }
      CollapseInterleave(ws[1..], cs[1..], tail);
      CollapseInterleaveStep(ws, cs, tail);
    }
  }

  /** One step of `CollapseInterleave`: the first gap collapses, the rest as given. */
  lemma CollapseInterleaveStep(ws: seq<string>, cs: seq<nat>, tail: string)
    requires |cs| == |ws| >= 2 && cs[0] >= 1
    requires ws[0] != [] && NoClassChar(ws[0]) && ws[1] != [] && !InClass(ws[1][0])
    requires Collapse(Interleave(ws[1..], cs[1..]) + tail) == Join(ws[1..]) + tail
    ensures Collapse(Interleave(ws, cs) + tail) == Join(ws) + tail
  {
    var written := Interleave(ws[1..], cs[1..]);
    var rest := written + tail;
    InterleaveConsTail(ws, cs, tail);
    assert rest[0] == written[0] == ws[1][0];
    CollapseGap(ws[0], cs[0], rest);
    JoinConsTail(ws, tail);
  }

  /** A chunk, a gap of one or more spaces, and more text: the gap becomes one space. */
  lemma CollapseGap(w: string, c: nat, rest: string)
    requires NoClassChar(w) && c >= 1
    requires rest == [] || !InClass(rest[0])
    ensures Collapse(w + Spaces(c) + rest) == w + " " + Collapse(rest)
  {
    assert w + Spaces(c) + rest == w + (Spaces(c) + rest);
    CollapseKeepsWord(w, Spaces(c) + rest);
    CollapseSpaces(c, rest);
  }

  /** Text without gap characters passes through the widening scan unchanged. */
  lemma {:induction false} WidenKeepsChunk(t: string, marks: set<char>, n: nat)
    requires NoClassChar(t)
    ensures WidenAfterAny(t, marks, n) == t
    decreases |t|
  {
    if |t| >= 2 {
      WidenKeepsChunk(t[1..], marks, n);
      assert t == [t[0]] + t[1..];
    }
  }

  /** Inside a chunk nothing is widened; only its last character can be. */
  lemma {:induction false} WidenChunk(w: string, rest: string, marks: set<char>, n: nat)
    requires w != [] && NoClassChar(w)
    ensures WidenAfterAny(w + rest, marks, n) == w[..|w| - 1] + WidenAfterAny([w[|w| - 1]] + rest, marks, n)
    decreases |w|
  {
    if |w| >= 2 {
      var s := w + rest;
      assert s[1] == w[1] && !InClass(s[1]);
      assert s[1..] == w[1..] + rest;
      assert WidenAfterAny(s, marks, n) == [w[0]] + WidenAfterAny(w[1..] + rest, marks, n);
      WidenChunk(w[1..], rest, marks, n);
      assert w[..|w| - 1] == [w[0]] + w[1..][..|w[1..]| - 1];
    } else {
      assert w[..|w| - 1] == [] && w == [w[|w| - 1]];
    }
  }

  /** The gap after a chunk once `dejustify(n)` widens its single space:
      `n` after a chunk that ends in a mark, one after any other. */
  function GapAfter(w: string, marks: set<char>, n: nat): nat {
    if w != [] && w[|w| - 1] in marks then n else 1
  }

  /** The gaps of a dejustified line: `GapAfter` each chunk but the last, none after the last. */
  function SentenceGaps(ws: seq<string>, marks: set<char>, n: nat): (cs: seq<nat>)
    ensures |cs| == |ws|
  {
    seq(|ws|, i requires 0 <= i < |ws| => if i + 1 == |ws| then 0 else GapAfter(ws[i], marks, n))
  }

  lemma SentenceGapsCons(ws: seq<string>, marks: set<char>, n: nat)
    requires |ws| >= 2
    ensures SentenceGaps(ws, marks, n)[0] == GapAfter(ws[0], marks, n)
    ensures SentenceGaps(ws, marks, n)[1..] == SentenceGaps(ws[1..], marks, n)
  {
  }

  /** A chunk's last character and one space: the space widens to `n` when the chunk
      ends in a mark. */
  lemma WidenSpaceAfter(w: string, rest: string, marks: set<char>, n: nat)
    requires w != [] && NoClassChar(w)
    requires rest == [] || !InClass(rest[0])
    requires forall m :: m in marks ==> !InClass(m)
    ensures WidenAfterAny([w[|w| - 1]] + " " + rest, marks, n)
         == [w[|w| - 1]] + Spaces(GapAfter(w, marks, n)) + WidenAfterAny(rest, marks, n)
  {
    var last := w[|w| - 1];
    var s := [last] + " " + rest;
    assert s[0] == last && s[1] == ' ' && !InClass(last);
    if last in marks {
      assert s[2..] == rest;
    } else {
      var spaced := " " + rest;
      assert s[1..] == spaced;
      assert ' ' !in marks;
      if rest != [] {
        assert spaced[1..] == rest;
        assert WidenAfterAny(spaced, marks, n) == " " + WidenAfterAny(rest, marks, n);
      }
    }
  }

  /** The scan passes over a chunk followed by a space up to the chunk's last character. */
  lemma WidenChunkSpace(w: string, rest: string, marks: set<char>, n: nat)
    requires w != [] && NoClassChar(w)
    ensures WidenAfterAny(w + " " + rest, marks, n)
         == w[..|w| - 1] + WidenAfterAny([w[|w| - 1]] + " " + rest, marks, n)
  {
    var spaced := " " + rest;
    assert w + " " + rest == w + spaced;
    assert [w[|w| - 1]] + spaced == [w[|w| - 1]] + " " + rest;
    WidenChunk(w, spaced, marks, n);
  }

  lemma Regroup(front: string, last: char, w: string, gap: string, after: string)
    requires front + [last] == w
    ensures front + ([last] + gap + after) == w + gap + after
  {
  }

  /** A chunk and one space: the space widens to `n` when the chunk ends in a mark. */
  lemma WidenGap(w: string, rest: string, marks: set<char>, n: nat)
    requires w != [] && NoClassChar(w)
    requires rest == [] || !InClass(rest[0])
    requires forall m :: m in marks ==> !InClass(m)
    ensures WidenAfterAny(w + " " + rest, marks, n) == w + Spaces(GapAfter(w, marks, n)) + WidenAfterAny(rest, marks, n)
  {
    WidenChunkSpace(w, rest, marks, n);
    WidenSpaceAfter(w, rest, marks, n);
    Regroup(w[..|w| - 1], w[|w| - 1], w, Spaces(GapAfter(w, marks, n)), WidenAfterAny(rest, marks, n));
  }

  /** Widening the single-spaced chunks puts `n` spaces after each chunk that ends a sentence. */
  lemma {:induction false} WidenJoin(ws: seq<string>, marks: set<char>, n: nat, tail: string)
    requires Chunks(ws) && |ws| > 0 && NoClassChar(tail)
    requires forall m :: m in marks ==> !InClass(m)
    ensures WidenAfterAny(Join(ws) + tail, marks, n) == Interleave(ws, SentenceGaps(ws, marks, n)) + tail
    decreases |ws|
  {
    var gaps := SentenceGaps(ws, marks, n);
    if |ws| == 1 {
      JoinOne(ws);
      InterleaveLast(ws, gaps);
      WidenKeepsChunk(ws[0] + tail, marks, n);
    } else {
      WidenJoin(ws[1..], marks, n, tail);
      WidenJoinStep(ws, marks, n, tail);
    }
  }

  lemma WidenJoinStep(ws: seq<string>, marks: set<char>, n: nat, tail: string)
    requires |ws| >= 2 && ws[0] != [] && NoClassChar(ws[0]) && ws[1] != [] && !InClass(ws[1][0])
    requires forall m :: m in marks ==> !InClass(m)
    requires WidenAfterAny(Join(ws[1..]) + tail, marks, n) == Interleave(ws[1..], SentenceGaps(ws[1..], marks, n)) + tail
    ensures WidenAfterAny(Join(ws) + tail, marks, n) == Interleave(ws, SentenceGaps(ws, marks, n)) + tail
  {
    var rest := Join(ws[1..]) + tail;
    var gaps := SentenceGaps(ws, marks, n);
    calc {
      WidenAfterAny(Join(ws) + tail, marks, n);
      { JoinCons(ws); assert Join(ws) + tail == ws[0] + " " + rest; }
      WidenAfterAny(ws[0] + " " + rest, marks, n);
      { assert rest[0] == ws[1][0]; WidenGap(ws[0], rest, marks, n); }
      ws[0] + Spaces(GapAfter(ws[0], marks, n)) + WidenAfterAny(rest, marks, n);
      { SentenceGapsCons(ws, marks, n); }
      ws[0] + Spaces(gaps[0]) + (Interleave(ws[1..], gaps[1..]) + tail);
      Interleave(ws, gaps) + tail;
    }
  }

  /** Dejustifying chunks written with any gaps of one or more spaces: the chunks come
      back one space apart, or `n` apart after a sentence mark when `n > 1`. */
  lemma DejustifyGapped(ws: seq<string>, cs: seq<nat>, tail: string, n: nat)
    requires |cs| == |ws| && Separating(cs) && Chunks(ws) && NoClassChar(tail)
    ensures Dejustified(Interleave(ws, cs) + tail, n)
         == (if n > 1 then Interleave(ws, SentenceGaps(ws, MarkSet, n)) else Join(ws)) + tail
  {
    CollapseInterleave(ws, cs, tail);
    if n > 1 {
      WidenJoin(ws, MarkSet, n, tail);
    }
  }

  /** The words of the first dejustify tests. */
  const BudWords: seq<string> := ["Hi", "bud.", "How", "are", "you?"]

  lemma BudJustified()
    ensures Interleave(BudWords, [4, 4, 4, 4, 0]) == "Hi    bud.    How    are    you?"
  {
  }

  lemma BudJoined()
    ensures Join(BudWords) == Interleave(BudWords, [1, 1, 1, 1, 0]) == "Hi bud. How are you?"
  {
    calc {
      Join(BudWords);
      { assert SingleGaps(5) == [1, 1, 1, 1, 0]; }
      Interleave(BudWords, [1, 1, 1, 1, 0]);
    }
  }

  lemma BudWidened()
    ensures Interleave(BudWords, SentenceGaps(BudWords, MarkSet, 2)) == Interleave(BudWords, [1, 2, 1, 1, 0])
         == "Hi bud.  How are you?"
  {
    calc {
      Interleave(BudWords, SentenceGaps(BudWords, MarkSet, 2));
      { assert '.' in MarkSet && 'i' !in MarkSet && 'w' !in MarkSet && 'e' !in MarkSet;
        assert SentenceGaps(BudWords, MarkSet, 2) == [1, 2, 1, 1, 0]; }
      Interleave(BudWords, [1, 2, 1, 1, 0]);
    }
  }

  /** The dejustify tests on the first line, with single spaces after sentences... */
  lemma DejustifyBudExample()
    ensures Dejustified("Hi    bud.    How    are    you?", 1) == "Hi bud. How are you?"
  {
    var cs := [4, 4, 4, 4, 0];
    calc {
      Dejustified("Hi    bud.    How    are    you?", 1);
      { BudJustified(); assert Interleave(BudWords, cs) + "" == Interleave(BudWords, cs); }
      Dejustified(Interleave(BudWords, cs) + "", 1);
      { DejustifyGapped(BudWords, cs, "", 1); }
      Join(BudWords) + "";
      { BudJoined(); }
      "Hi bud. How are you?";
    }
  }

  /** ... with two ... */
  lemma DejustifyBudWideExample()
    ensures Dejustified("Hi    bud.    How    are    you?", 2) == "Hi bud.  How are you?"
  {
    var cs := [4, 4, 4, 4, 0];
    calc {
      Dejustified("Hi    bud.    How    are    you?", 2);
      { BudJustified(); assert Interleave(BudWords, cs) + "" == Interleave(BudWords, cs); }
      Dejustified(Interleave(BudWords, cs) + "", 2);
      { DejustifyGapped(BudWords, cs, "", 2); }
      Interleave(BudWords, SentenceGaps(BudWords, MarkSet, 2)) + "";
      { BudWidened(); }
      "Hi bud.  How are you?";
    }
  }

  /** ... and the same with a final newline. */
  lemma DejustifyBudLineExample()
    ensures Dejustified("Hi    bud.    How    are    you?\n", 1) == "Hi bud. How are you?\n"
  {
    var cs := [4, 4, 4, 4, 0];
    calc {
      Dejustified("Hi    bud.    How    are    you?\n", 1);
      { BudJustified();
        assert "Hi    bud.    How    are    you?\n" == "Hi    bud.    How    are    you?" + "\n"; }
      Dejustified(Interleave(BudWords, cs) + "\n", 1);
      { DejustifyGapped(BudWords, cs, "\n", 1); }
      Join(BudWords) + "\n";
      { BudJoined(); assert "Hi bud. How are you?\n" == "Hi bud. How are you?" + "\n"; }
      "Hi bud. How are you?\n";
    }
  }

  lemma DejustifyBudWideLineExample()
    ensures Dejustified("Hi    bud.    How    are    you?\n", 2) == "Hi bud.  How are you?\n"
  {
    var cs := [4, 4, 4, 4, 0];
    calc {
      Dejustified("Hi    bud.    How    are    you?\n", 2);
      { BudJustified();
        assert "Hi    bud.    How    are    you?\n" == "Hi    bud.    How    are    you?" + "\n"; }
      Dejustified(Interleave(BudWords, cs) + "\n", 2);
      { DejustifyGapped(BudWords, cs, "\n", 2); }
      Interleave(BudWords, SentenceGaps(BudWords, MarkSet, 2)) + "\n";
      { BudWidened(); assert "Hi bud.  How are you?\n" == "Hi bud.  How are you?" + "\n"; }
      "Hi bud.  How are you?\n";
    }
  }

  /** The words of the other dejustify tests; the second holds a line break. */
  const HeyWords: seq<string> := ["Hi!", "Hey?", "Hello.", "Bud."]
  const HeyLines: seq<string> := ["Hi!", "Hey?\nHello.", "Bud."]

  lemma HeyJustified()
    ensures Interleave(HeyWords, [4, 4, 4, 0]) == "Hi!    Hey?    Hello.    Bud."
  {
  }

  lemma HeyLinesJustified()
    ensures Interleave(HeyLines, [4, 4, 0]) == "Hi!    Hey?\nHello.    Bud."
  {
  }

  lemma HeyWidened()
    ensures Interleave(HeyWords, SentenceGaps(HeyWords, MarkSet, 2)) == Interleave(HeyWords, [2, 2, 2, 0])
         == "Hi!  Hey?  Hello.  Bud."
  {
    calc {
      Interleave(HeyWords, SentenceGaps(HeyWords, MarkSet, 2));
      { assert '!' in MarkSet && '?' in MarkSet && '.' in MarkSet;
        assert SentenceGaps(HeyWords, MarkSet, 2) == [2, 2, 2, 0]; }
      Interleave(HeyWords, [2, 2, 2, 0]);
    }
  }

  lemma HeyLinesJoined()
    ensures Join(HeyLines) == Interleave(HeyLines, [1, 1, 0]) == "Hi! Hey?\nHello. Bud."
  {
    calc {
      Join(HeyLines);
      { assert SingleGaps(3) == [1, 1, 0]; }
      Interleave(HeyLines, [1, 1, 0]);
    }
  }

  /** Two spaces after every sentence. */
  lemma DejustifyHeyExample()
    ensures Dejustified("Hi!    Hey?    Hello.    Bud.", 2) == "Hi!  Hey?  Hello.  Bud."
  {
    var cs := [4, 4, 4, 0];
    calc {
      Dejustified("Hi!    Hey?    Hello.    Bud.", 2);
      { HeyJustified(); assert Interleave(HeyWords, cs) + "" == Interleave(HeyWords, cs); }
      Dejustified(Interleave(HeyWords, cs) + "", 2);
      { DejustifyGapped(HeyWords, cs, "", 2); }
      Interleave(HeyWords, SentenceGaps(HeyWords, MarkSet, 2)) + "";
      { HeyWidened(); }
      "Hi!  Hey?  Hello.  Bud.";
    }
  }

  /** A line break is not a gap: it stays where it is. */
  lemma DejustifyHeyLinesExample()
    ensures Dejustified("Hi!    Hey?\nHello.    Bud.", 1) == "Hi! Hey?\nHello. Bud."
  {
    var cs := [4, 4, 0];
    calc {
      Dejustified("Hi!    Hey?\nHello.    Bud.", 1);
      { HeyLinesJustified(); assert Interleave(HeyLines, cs) + "" == Interleave(HeyLines, cs); }
      Dejustified(Interleave(HeyLines, cs) + "", 1);
      { DejustifyGapped(HeyLines, cs, "", 1); }
      Join(HeyLines) + "";
      { HeyLinesJoined(); }
      "Hi! Hey?\nHello. Bud.";
    }
  }

  /** The same two tests with a final newline. */
  lemma DejustifyHeyLineExample()
    ensures Dejustified("Hi!    Hey?    Hello.    Bud.\n", 2) == "Hi!  Hey?  Hello.  Bud.\n"
  {
    var cs := [4, 4, 4, 0];
    calc {
      Dejustified("Hi!    Hey?    Hello.    Bud.\n", 2);
      { HeyJustified();
        assert "Hi!    Hey?    Hello.    Bud.\n" == "Hi!    Hey?    Hello.    Bud." + "\n"; }
      Dejustified(Interleave(HeyWords, cs) + "\n", 2);
      { DejustifyGapped(HeyWords, cs, "\n", 2); }
      Interleave(HeyWords, SentenceGaps(HeyWords, MarkSet, 2)) + "\n";
      { HeyWidened(); assert "Hi!  Hey?  Hello.  Bud.\n" == "Hi!  Hey?  Hello.  Bud." + "\n"; }
      "Hi!  Hey?  Hello.  Bud.\n";
    }
  }

  lemma DejustifyHeyLinesLineExample()
    ensures Dejustified("Hi!    Hey?\nHello.    Bud.\n", 1) == "Hi! Hey?\nHello. Bud.\n"
  {
    var cs := [4, 4, 0];
    calc {
      Dejustified("Hi!    Hey?\nHello.    Bud.\n", 1);
      { HeyLinesJustified();
        assert "Hi!    Hey?\nHello.    Bud.\n" == "Hi!    Hey?\nHello.    Bud." + "\n"; }
      Dejustified(Interleave(HeyLines, cs) + "\n", 1);
      { DejustifyGapped(HeyLines, cs, "\n", 1); }
      Join(HeyLines) + "\n";
      { HeyLinesJoined(); assert "Hi! Hey?\nHello. Bud.\n" == "Hi! Hey?\nHello. Bud." + "\n"; }
      "Hi! Hey?\nHello. Bud.\n";
    }
  }
}
