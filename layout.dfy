/**
 * Words and the gaps between them: `split_ascii_whitespace` (used by
 * `justify`, src/lib.rs:124), and the text made by writing each word
 * followed by a run of spaces (src/lib.rs:149-154).
 */
module Layout {
  import opened Text

  /** A piece of `split_ascii_whitespace`: nonempty, no ASCII whitespace in it. */
  predicate IsWord(w: string) {
    w != [] && forall i :: 0 <= i < |w| ==> !IsAsciiWhitespace(w[i])
  }

  predicate AllAsciiWhitespace(s: string) {
    forall i :: 0 <= i < |s| ==> IsAsciiWhitespace(s[i])
  }

  /** Length of the word that starts `s`. */
  function WordEnd(s: string): (k: nat)
    ensures k <= |s|
    ensures forall i :: 0 <= i < k ==> !IsAsciiWhitespace(s[i])
    ensures k == |s| || IsAsciiWhitespace(s[k])
  {
    if s == [] || IsAsciiWhitespace(s[0]) then 0 else 1 + WordEnd(s[1..])
  }

  function SumLengths(ws: seq<string>): (total: nat)
    ensures (forall i :: 0 <= i < |ws| ==> ws[i] != []) ==> |ws| <= total
  {
    if ws == [] then 0 else |ws[0]| + SumLengths(ws[1..])
  }

  function Sum(cs: seq<nat>): (total: nat)
  {
    if cs == [] then 0 else cs[0] + Sum(cs[1..])
  }

  /** `s.split_ascii_whitespace().collect()`: the maximal runs of characters that
      are not ASCII whitespace, in order. They are at least one character apart,
      so together with one separator between each two they fit in `s`. */
  function Words(s: string): (ws: seq<string>)
    ensures forall i :: 0 <= i < |ws| ==> IsWord(ws[i])
    ensures SumLengths(ws) + |ws| <= |s| + 1
    decreases |s|
  {
    if s == [] then []
    else if IsAsciiWhitespace(s[0]) then Words(s[1..])
    else
      var k := WordEnd(s);
      var rest := Words(s[k..]);
      assert k < |s| ==> rest == Words(s[k + 1..]);
      [s[..k]] + rest
  }

  /** Each word followed by its run of spaces, concatenated (the `zip`/`map`/`join`
      of src/lib.rs:149-154). */
  function Interleave(ws: seq<string>, cs: seq<nat>): (r: string)
    requires |cs| == |ws|
    ensures |ws| > 0 && ws[0] != [] ==> r != [] && r[0] == ws[0][0]
  {
    if ws == [] then [] else ws[0] + Spaces(cs[0]) + Interleave(ws[1..], cs[1..])
  }

  /** The written-out line is as long as its words and gaps together. */
  lemma {:induction false} InterleaveLength(ws: seq<string>, cs: seq<nat>)
    requires |cs| == |ws|
    ensures |Interleave(ws, cs)| == SumLengths(ws) + Sum(cs)
    decreases |ws|
  {
    if ws != [] {
      InterleaveLength(ws[1..], cs[1..]);
    }
  }

  /** One space after each word but the last. */
  function SingleGaps(count: nat): (cs: seq<nat>)
    ensures |cs| == count
  {
    seq(count, i => if i + 1 < count then 1 else 0)
  }

  /** The words, one space apart. */
  function Join(ws: seq<string>): (r: string)
  {
    Interleave(ws, SingleGaps(|ws|))
  }

  /** Gaps of at least one space between words, and none after the last. */
  predicate Separating(cs: seq<nat>) {
    |cs| > 0 && cs[|cs| - 1] == 0 && forall i :: 0 <= i < |cs| - 1 ==> cs[i] >= 1
  }

  lemma {:induction false} WordEndOfWord(w: string, rest: string)
    requires IsWord(w) || w == []
    requires rest == [] || IsAsciiWhitespace(rest[0])
    ensures WordEnd(w + rest) == |w|
    decreases |w|
  {
    if w == [] {
      assert w + rest == rest;
    } else {
      assert (w + rest)[1..] == w[1..] + rest;
      WordEndOfWord(w[1..], rest);
    }
  }

  /** A word before whitespace (or the end) is split off as it is. */
  lemma WordsAfterWord(w: string, rest: string)
    requires IsWord(w)
    requires rest == [] || IsAsciiWhitespace(rest[0])
    ensures Words(w + rest) == [w] + Words(rest)
  {
    WordEndOfWord(w, rest);
    assert (w + rest)[..|w|] == w && (w + rest)[|w|..] == rest;
  }

  /** Leading whitespace is skipped. */
  lemma {:induction false} WordsAfterBlank(b: string, rest: string)
    requires AllAsciiWhitespace(b)
    ensures Words(b + rest) == Words(rest)
    decreases |b|
  {
    if b == [] {
      assert b + rest == rest;
    } else {
      assert (b + rest)[1..] == b[1..] + rest;
      WordsAfterBlank(b[1..], rest);
    }
  }

  /** The last word, with no gap after it, is written as it is. */
  lemma InterleaveLast(ws: seq<string>, cs: seq<nat>)
    requires |cs| == |ws| == 1 && cs[0] == 0
    ensures Interleave(ws, cs) == ws[0]
  {
    assert Spaces(0) == [];
  }

  lemma JoinOne(ws: seq<string>)
    requires |ws| == 1
    ensures Join(ws) == ws[0]
  {
    InterleaveLast(ws, SingleGaps(1));
  }

  /** A word and a gap of one or more spaces are split off as that word. */
  lemma WordsAfterGap(w: string, c: nat, rest: string)
    requires IsWord(w) && c >= 1
    ensures Words(w + Spaces(c) + rest) == [w] + Words(rest)
  {
    var gap := Spaces(c);
    assert w + gap + rest == w + (gap + rest);
    WordsAfterWord(w, gap + rest);
    WordsAfterBlank(gap, rest);
  }

  /** Splitting words written out with separating gaps gives the words back. */
  lemma {:induction false} WordsOfInterleave(ws: seq<string>, cs: seq<nat>, tail: string)
    requires |cs| == |ws| && Separating(cs)
    requires forall i :: 0 <= i < |ws| ==> IsWord(ws[i])
    requires AllAsciiWhitespace(tail)
    ensures Words(Interleave(ws, cs) + tail) == ws
    decreases |ws|
  {
    if |ws| == 1 {
      InterleaveLast(ws, cs);
      WordsAfterWord(ws[0], tail);
      WordsAfterBlank(tail, []);
      assert tail + [] == tail;
    } else {
      var rest := Interleave(ws[1..], cs[1..]) + tail;
      WordsOfInterleave(ws[1..], cs[1..], tail);
      assert Interleave(ws, cs) + tail == ws[0] + Spaces(cs[0]) + rest;
      WordsAfterGap(ws[0], cs[0], rest);
      assert ws == [ws[0]] + ws[1..];
    }
  }

  lemma JoinCons(ws: seq<string>)
    requires |ws| >= 2
    ensures Join(ws) == ws[0] + " " + Join(ws[1..])
  {
    assert SingleGaps(|ws|)[1..] == SingleGaps(|ws| - 1);
  }

  /** The first word and its gap split off a written-out line followed by more text. */
  lemma InterleaveConsTail(ws: seq<string>, cs: seq<nat>, tail: string)
    requires |cs| == |ws| >= 1
    ensures Interleave(ws, cs) + tail == ws[0] + Spaces(cs[0]) + (Interleave(ws[1..], cs[1..]) + tail)
  {
  }

  /** The first word and its space split off joined words followed by more text. */
  lemma JoinConsTail(ws: seq<string>, tail: string)
    requires |ws| >= 2
    ensures Join(ws) + tail == ws[0] + " " + (Join(ws[1..]) + tail)
  {
    JoinCons(ws);
  }

  /** A character that is not in the text is in none of its words. */
  lemma {:induction false} WordsAvoid(s: string, c: char)
    requires c !in s
    ensures forall i :: 0 <= i < |Words(s)| ==> c !in Words(s)[i]
    decreases |s|
  {
    if s != [] {
      if IsAsciiWhitespace(s[0]) {
        assert c !in s[1..];
        WordsAvoid(s[1..], c);
      } else {
        var k := WordEnd(s);
        assert c !in s[..k] && c !in s[k..];
        WordsAvoid(s[k..], c);
      }
    }
  }

  /** Words one space apart, split again, are the same words. */
  lemma WordsOfJoin(ws: seq<string>, tail: string)
    requires |ws| > 0 && forall i :: 0 <= i < |ws| ==> IsWord(ws[i])
    requires AllAsciiWhitespace(tail)
    ensures Words(Join(ws) + tail) == ws
  {
    WordsOfInterleave(ws, SingleGaps(|ws|), tail);
  }

  /** With no gap after the last word, the text ends with the last word's last character. */
  lemma {:induction false} InterleaveLastChar(ws: seq<string>, cs: seq<nat>)
    requires |cs| == |ws| > 0 && cs[|cs| - 1] == 0 && ws[|ws| - 1] != []
    ensures var r, last := Interleave(ws, cs), ws[|ws| - 1];
      r != [] && r[|r| - 1] == last[|last| - 1]
    decreases |ws|
  {
    if |ws| == 1 {
      InterleaveLast(ws, cs);
    } else {
      InterleaveLastChar(ws[1..], cs[1..]);
    }
  }
}
