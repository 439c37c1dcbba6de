/**
 * `center_align`, `left_align` and `right_align` of the `TextAlign` trait
 * (src/lib.rs). Each trims the start of the line, measures it (a final
 * newline widens the target by one), returns the input unchanged when it is
 * already wide enough, and otherwise pads the fully trimmed text with blanks.
 */
module Align {
  import opened Text

  /** 1 when the start-trimmed line ends in a newline (`has_newline`), else 0. */
  function NewlineWidth(s: string): (w: nat)
    ensures w <= 1 && w <= |TrimStart(s)|
    ensures w == 1 <==> EndsWithNewline(TrimStart(s))
  {
    if EndsWithNewline(TrimStart(s)) then 1 else 0
  }

  /** The newline an alignment re-emits after the padding (`last_character`). */
  function NewlineSuffix(s: string): (r: string)
    ensures |r| == NewlineWidth(s) && AllWhitespace(r)
    ensures r != [] ==> r == TrimStart(s)[|TrimStart(s)| - 1..]
  {
    if EndsWithNewline(TrimStart(s)) then "\n" else ""
  }

  /** The line is already wide enough: `width` (plus one for a newline) is at most `text_length`. */
  predicate Fits(s: string, width: nat)
    ensures Fits(s, width) ==> width < |s| || (width == |s| && !EndsWithNewline(TrimStart(s)))
  {
    width + NewlineWidth(s) <= |TrimStart(s)|
  }

  /** The trailing whitespace that `text_length` counts but a padded result does not re-emit. */
  function Dropped(s: string): nat {
    TrimmedShape(s);
    |TrimStart(s)| - |Trim(s)| - NewlineWidth(s)
  }

  /** No leading whitespace, and no trailing whitespace except one final newline. */
  predicate Normalised(s: string) {
    TrimStart(s) == s && Dropped(s) == 0
  }

  /** `n / 2` on `usize`: rounds down. */
  function Half(n: nat): (h: nat)
    ensures h + h <= n <= h + h + 1
  {
    n / 2
  }

  function Max(a: nat, b: nat): nat {
    if a < b then b else a
  }

  /** The padding a line that does not fit receives: `width` (plus one for a newline)
      less `text_length`. */
  function Padding(s: string, width: nat): (p: nat)
    requires !Fits(s, width)
    ensures 1 <= p <= width + 1
    ensures p + |TrimStart(s)| == width + NewlineWidth(s)
  {
    width + NewlineWidth(s) - |TrimStart(s)|
  }

  /** `center_align`: half the padding (rounded down) before the text, the rest after it. */
  function CenterAlign(s: string, width: nat): (r: string)
    ensures Fits(s, width) ==> r == s
    ensures !Fits(s, width) ==> |r| == width + NewlineWidth(s) - Dropped(s)
  {
    if Fits(s, width) then s
    else
      var spaces := Padding(s, width);
      var leftPadding := Half(spaces);
      TrimmedShape(s);
      Spaces(leftPadding) + Trim(s) + Spaces(spaces - leftPadding) + NewlineSuffix(s)
  }

  /** `left_align`: all the padding after the text. */
  function LeftAlign(s: string, width: nat): (r: string)
    ensures Fits(s, width) ==> r == s
    ensures !Fits(s, width) ==> |r| == width + NewlineWidth(s) - Dropped(s)
  {
    if Fits(s, width) then s
    else
      TrimmedShape(s);
      Trim(s) + Spaces(Padding(s, width)) + NewlineSuffix(s)
  }

  /** `right_align`: all the padding before the text. */
  function RightAlign(s: string, width: nat): (r: string)
    ensures Fits(s, width) ==> r == s
    ensures !Fits(s, width) ==> |r| == width + NewlineWidth(s) - Dropped(s)
  {
    if Fits(s, width) then s
    else
      TrimmedShape(s);
      Spaces(Padding(s, width)) + Trim(s) + NewlineSuffix(s)
  }

  /** The fully trimmed text is empty exactly when the start-trimmed text is, and begins
      and ends with non-whitespace otherwise; the newline, when present, is among the
      trailing whitespace that trimming removes. */
  lemma TrimmedShape(s: string)
    ensures Trim(s) == [] <==> TrimStart(s) == []
    ensures Trim(s) != [] ==> !IsWhitespace(Trim(s)[0]) && !IsWhitespace(Trim(s)[|Trim(s)| - 1])
    ensures |TrimStart(s)| >= |Trim(s)| + NewlineWidth(s)
  {
    TrimEndOfTrimmed(TrimStart(s));
  }

  /** Trimming a padded text gives the text back. */
  lemma TrimPadded(left: nat, body: string, right: nat, tail: string)
    requires body == [] || (!IsWhitespace(body[0]) && !IsWhitespace(body[|body| - 1]))
    requires AllWhitespace(tail)
    ensures Trim(Spaces(left) + body + Spaces(right) + tail) == body
  {
    var blanks, trailing := Spaces(left), Spaces(right) + tail;
    var rest := body + trailing;
    var r := Spaces(left) + body + Spaces(right) + tail;
    assert r == blanks + rest;
    assert rest == body + Spaces(right) + tail;
    SpacesAreWhitespace(left);
    SpacesAreWhitespace(right);
    assert AllWhitespace(trailing);
    if body == [] {
      assert rest == trailing;
      TrimStartSplit(r, r, []);
    } else {
      TrimStartSplit(r, blanks, rest);
      TrimEndSplit(rest, body, trailing);
    }
  }

  /** Where the blanks go when a line is padded: after the text for `left_align`, before
      it for `right_align`, and split around it for `center_align` with the odd blank on
      the right. The newline, if any, comes last. */
  lemma AlignLayout(s: string, width: nat)
    requires !Fits(s, width)
    ensures exists padding: nat :: LeftAlign(s, width) == Trim(s) + Spaces(padding) + NewlineSuffix(s)
    ensures exists padding: nat :: RightAlign(s, width) == Spaces(padding) + Trim(s) + NewlineSuffix(s)
    ensures exists left: nat, right: nat ::
              left <= right <= left + 1
              && CenterAlign(s, width) == Spaces(left) + Trim(s) + Spaces(right) + NewlineSuffix(s)
  {
    var p := Padding(s, width);
    assert CenterAlign(s, width) == Spaces(Half(p)) + Trim(s) + Spaces(p - Half(p)) + NewlineSuffix(s);
  }

  /** No alignment changes the visible text: trimming the result gives the trimmed input. */
  lemma CenterAlignKeepsText(s: string, width: nat)
    ensures Trim(CenterAlign(s, width)) == Trim(s)
  {
    if !Fits(s, width) {
      var p := Padding(s, width);
      PaddedKeepsText(CenterAlign(s, width), s, Half(p), p - Half(p));
    }
  }

  lemma LeftAlignKeepsText(s: string, width: nat)
    ensures Trim(LeftAlign(s, width)) == Trim(s)
  {
    if !Fits(s, width) {
      assert Spaces(0) + Trim(s) == Trim(s);
      PaddedKeepsText(LeftAlign(s, width), s, 0, Padding(s, width));
    }
  }

  lemma RightAlignKeepsText(s: string, width: nat)
    ensures Trim(RightAlign(s, width)) == Trim(s)
  {
    if !Fits(s, width) {
      assert Trim(s) + Spaces(0) == Trim(s);
      PaddedKeepsText(RightAlign(s, width), s, Padding(s, width), 0);
    }
  }

  lemma PaddedKeepsText(r: string, s: string, left: nat, right: nat)
    requires r == Spaces(left) + Trim(s) + Spaces(right) + NewlineSuffix(s)
    ensures Trim(r) == Trim(s)
  {
    TrimmedShape(s);
    TrimPadded(left, Trim(s), right, NewlineSuffix(s));
  }

  /** For a line with no stray leading or trailing whitespace the result, newline
      included, is exactly as wide as requested or as the line, whichever is wider. */
  lemma AlignNormalisedWidth(s: string, width: nat)
    requires Normalised(s)
    ensures |CenterAlign(s, width)| == Max(width + NewlineWidth(s), |s|)
    ensures |LeftAlign(s, width)| == Max(width + NewlineWidth(s), |s|)
    ensures |RightAlign(s, width)| == Max(width + NewlineWidth(s), |s|)
  {
  }

  /** A line made of leading whitespace, a text without outer whitespace and an optional
      newline measures as that text. */
  lemma MeasureLine(s: string, lead: string, text: string, newline: bool)
    requires AllWhitespace(lead) && text != []
    requires !IsWhitespace(text[0]) && !IsWhitespace(text[|text| - 1])
    requires s == lead + text + (if newline then "\n" else "")
    ensures TrimStart(s) == text + (if newline then "\n" else "")
    ensures Trim(s) == text
    ensures NewlineWidth(s) == (if newline then 1 else 0)
  {
    var tail := if newline then "\n" else "";
    TrimStartSplit(s, lead, text + tail);
    TrimEndSplit(text + tail, text, tail);
  }

  /** The inline tests of `center_align` on an even-length text in src/lib.rs... */
  lemma CenterAlignEvenExamples()
    ensures CenterAlign("hi", 3) == "hi "
    ensures CenterAlign("hi", 5) == " hi  "
    ensures CenterAlign("hi", 8) == "   hi   "
  {
    MeasureLine("hi", "", "hi", false);
    assert Half(1) == 0 && Half(3) == 1 && Half(6) == 3;
    assert Spaces(1) == " " && Spaces(2) == "  " && Spaces(3) == "   ";
  }

  /** ... and on the same text with a final newline. */
  lemma CenterAlignEvenLineExamples()
    ensures CenterAlign("hi\n", 3) == "hi \n"
    ensures CenterAlign("hi\n", 5) == " hi  \n"
  {
    MeasureLine("hi\n", "", "hi", true);
    assert Half(1) == 0 && Half(3) == 1;
    assert Spaces(1) == " " && Spaces(2) == "  ";
  }

  lemma CenterAlignEvenLineWideExample()
    ensures CenterAlign("hi\n", 8) == "   hi   \n"
  {
    MeasureLine("hi\n", "", "hi", true);
    assert Half(6) == 3;
    assert Spaces(3) == "   ";
  }

  /** The inline tests of `center_align` on an odd-length text in src/lib.rs... */
  lemma CenterAlignOddExamples()
    ensures CenterAlign("doggy", 3) == "doggy"
    ensures CenterAlign("doggy", 8) == " doggy  "
    ensures CenterAlign("doggy", 9) == "  doggy  "
  {
    MeasureLine("doggy", "", "doggy", false);
    assert Half(3) == 1 && Half(4) == 2;
    assert Spaces(1) == " " && Spaces(2) == "  ";
  }

  /** ... and on the same text with a final newline. */
  lemma CenterAlignOddLineExamples()
    ensures CenterAlign("doggy\n", 3) == "doggy\n"
    ensures CenterAlign("doggy\n", 8) == " doggy  \n"
  {
    MeasureLine("doggy\n", "", "doggy", true);
    assert Half(3) == 1;
    assert Spaces(1) == " " && Spaces(2) == "  ";
  }

  lemma CenterAlignOddLineWideExample()
    ensures CenterAlign("doggy\n", 9) == "  doggy  \n"
  {
    MeasureLine("doggy\n", "", "doggy", true);
    assert Half(4) == 2;
    assert Spaces(2) == "  ";
  }

  /** The inline tests of `right_align` in src/lib.rs... */
  lemma RightAlignExamples()
    ensures RightAlign("hi", 1) == "hi"
    ensures RightAlign("hi", 3) == " hi"
    ensures RightAlign("hi", 5) == "   hi"
  {
    MeasureLine("hi", "", "hi", false);
    assert Spaces(1) == " " && Spaces(3) == "   ";
  }

  /** ... and on the same text with a final newline. */
  lemma RightAlignLineExamples()
    ensures RightAlign("hi\n", 1) == "hi\n"
    ensures RightAlign("hi\n", 3) == " hi\n"
    ensures RightAlign("hi\n", 5) == "   hi\n"
  {
    MeasureLine("hi\n", "", "hi", true);
    assert Spaces(1) == " " && Spaces(3) == "   ";
  }

  /** The inline tests of `left_align` in src/lib.rs... */
  lemma LeftAlignExamples()
    ensures LeftAlign("hi", 1) == "hi"
    ensures LeftAlign("hi", 3) == "hi "
    ensures LeftAlign(" hi", 5) == "hi   "
  {
    MeasureLine("hi", "", "hi", false);
    MeasureLine(" hi", " ", "hi", false);
    assert Spaces(1) == " " && Spaces(3) == "   ";
  }

  /** ... and on the same text with a final newline. */
  lemma LeftAlignLineExamples()
    ensures LeftAlign("hi\n", 1) == "hi\n"
    ensures LeftAlign(" hi\n", 3) == "hi \n"
    ensures LeftAlign(" hi\n", 5) == "hi   \n"
  {
    MeasureLine("hi\n", "", "hi", true);
    MeasureLine(" hi\n", " ", "hi", true);
    assert Spaces(1) == " " && Spaces(3) == "   ";
  }

  /** The line of the crate's documentation example. */
  const Greeting: string := "Hello my dearest friend!"

  /** The documentation example of `left_align`: the 26 leading blanks move after the text. */
  lemma LeftAlignGreeting()
    ensures LeftAlign(Spaces(26) + Greeting, 50) == Greeting + Spaces(26)
  {
    var lead, text := Spaces(26), Greeting;
    SpacesAreWhitespace(26);
    MeasureLine(lead + text, lead, text, false);
  }

  /** The documentation example of `right_align`: 26 blanks before the text. */
  lemma RightAlignGreeting()
    ensures RightAlign(Greeting, 50) == Spaces(26) + Greeting
  {
    var text := Greeting;
    MeasureLine(text, [], text, false);
  }

  /** The documentation example of `center_align`: 13 blanks on each side. */
  lemma CenterAlignGreeting()
    ensures CenterAlign(Greeting, 50) == Spaces(13) + Greeting + Spaces(13)
  {
    var text, spaces := Greeting, 26;
    MeasureLine(text, [], text, false);
    assert Half(spaces) == 13;
  }
}
