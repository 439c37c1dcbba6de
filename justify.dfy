/**
 * `justify` (src/lib.rs:112-157): the words of a line, spread out to fill
 * `width` by widening the gaps between them as evenly as possible. The
 * remainder that does not divide evenly goes to the gaps that the index
 * spreader picks; the spreader is a parameter, constrained by
 * `IndexSpread.SpreadContract`.
 */
module Justify {
  import opened Wrappers
  import opened Text
  import opened Layout
  import opened IndexSpread
  import opened Dejustify

  /** The text whose length is compared with `width`: a line that ends in a newline
      loses all of its trailing whitespace, any other line is kept whole. */
  function JustifyBody(line: string): (body: string)
    ensures |body| <= |line| && body == line[..|body|]
  {
    if EndsWithNewline(line) then TrimEnd(line) else line
  }

  /** The `last_character` appended to the result. */
  function LineEnd(line: string): (r: string)
    ensures AllAsciiWhitespace(r)
  {
    if EndsWithNewline(line) then "\n" else ""
  }

  /** `justify` panics when a line shorter than `width` has fewer than two words
      (a subtraction below zero for no words, a division by zero for one). */
  predicate JustifyDefined(line: string, width: nat)
    ensures width <= |JustifyBody(line)| ==> JustifyDefined(line, width)
  {
    width <= |JustifyBody(line)| || |Words(JustifyBody(line))| >= 2
  }

  /** `vec![value; count]` */
  function Repeat(value: nat, count: nat): (r: seq<nat>)
    ensures |r| == count
  {
    seq(count, _ => value)
  }

  /** `space_counts[index] += 1` for each index, in order. */
  function Increment(counts: seq<nat>, ix: seq<nat>): (r: seq<nat>)
    requires forall k :: 0 <= k < |ix| ==> ix[k] < |counts|
    ensures |r| == |counts|
    decreases |ix|
  {
    if ix == [] then counts
    else
      var before := Increment(counts, ix[..|ix| - 1]);
      var i := ix[|ix| - 1];
      before[i := before[i] + 1]
  }

  /** The space counts once the spreader's answer is applied (src/lib.rs:131-137). */
  function SpaceCounts(perBlock: nat, blocks: nat, picked: Option<seq<nat>>): (cs: seq<nat>)
    requires picked.Some? ==> forall k :: 0 <= k < |picked.value| ==> picked.value[k] < blocks
    ensures |cs| == blocks
  {
    match picked
    case None => Repeat(perBlock, blocks)
    case Some(ix) => Increment(Repeat(perBlock, blocks), ix)
  }

  /** The spaces `justify` must put between the words of a line it pads. A line
      shorter than `width` already holds its words and a space between each two, so
      there are more spaces to place than gaps: every gap gets at least one, which is
      why `spaces_per_block` (src/lib.rs:128) is never zero. */
  function SpacesRequired(line: string, width: nat): (required: nat)
    requires JustifyDefined(line, width) && |JustifyBody(line)| < width
    ensures required + SumLengths(Words(JustifyBody(line))) == width
    ensures required >= |Words(JustifyBody(line))|
  {
    width - SumLengths(Words(JustifyBody(line)))
  }

  function Blocks(line: string, width: nat): (blocks: nat)
    requires JustifyDefined(line, width) && |JustifyBody(line)| < width
    ensures blocks >= 1
  {
    |Words(JustifyBody(line))| - 1
  }

  /** The width of each gap between two words (before the zero pushed for the last word). */
  function GapWidths(line: string, width: nat, spread: (nat, nat) -> Option<seq<nat>>): (cs: seq<nat>)
    requires SpreadContract(spread) && JustifyDefined(line, width) && |JustifyBody(line)| < width
    ensures |cs| == Blocks(line, width)
  {
    var required: nat, blocks: nat := SpacesRequired(line, width), Blocks(line, width);
    var perBlock: nat, remaining: nat := required / blocks, required % blocks;
    var picked := spread(remaining, blocks);
    assert SpreadOk(picked, remaining, blocks);
    SpaceCounts(perBlock, blocks, picked)
  }

  /** What `justify(width)` returns. */
  function Justified(line: string, width: nat, spread: (nat, nat) -> Option<seq<nat>>): (r: string)
    requires SpreadContract(spread) && JustifyDefined(line, width)
    ensures width <= |JustifyBody(line)| ==> r == line
  {
    if width <= |JustifyBody(line)| then line
    else Interleave(Words(JustifyBody(line)), GapWidths(line, width, spread) + [0]) + LineEnd(line)
  }

  /** `justify(width)` as the source runs it, with the `space_counts` vector as an array. */
  method Justify(line: string, width: nat, spread: (nat, nat) -> Option<seq<nat>>) returns (r: string)
    requires SpreadContract(spread) && JustifyDefined(line, width)
    ensures r == Justified(line, width, spread)
  {
    var hasNewline := EndsWithNewline(line);
    var body := line;
    if hasNewline {
      body := TrimEnd(line);
    }
    assert body == JustifyBody(line);
    if width <= |body| {
      return line;
    }
    var words := Words(body);
    ghost var required := SpacesRequired(line, width);
    var spacesRequired: nat := width - SumLengths(words);
    var blocks: nat := |words| - 1;
    var perBlock: nat := spacesRequired / blocks;
    var remaining: nat := spacesRequired % blocks;
    assert spacesRequired == SpacesRequired(line, width) && blocks == Blocks(line, width);
    var picked := spread(remaining, blocks);
    assert SpreadOk(picked, remaining, blocks);
    var spaceCounts := FillSpaceCounts(perBlock, blocks, picked);
    assert spaceCounts == GapWidths(line, width, spread);
    var text := Concatenate(words, spaceCounts + [0]);
    var lastCharacter := if hasNewline then "\n" else "";
    r := text + lastCharacter;
  }

  /** `vec![spaces_per_block; space_blocks_required]`, then one more space at each
      picked index (src/lib.rs:131-137). */
  method FillSpaceCounts(perBlock: nat, blocks: nat, picked: Option<seq<nat>>) returns (counts: seq<nat>)
    requires picked.Some? ==> forall k :: 0 <= k < |picked.value| ==> picked.value[k] < blocks
    ensures counts == SpaceCounts(perBlock, blocks, picked)
  {
    var spaceCounts := new nat[blocks](_ => perBlock);
    assert spaceCounts[..] == Repeat(perBlock, blocks);
    if picked.Some? {
      AddOneAt(spaceCounts, picked.value);
    }
    counts := spaceCounts[..];
  }

  /** `for index in indices { space_counts[index] += 1 }` */
  method AddOneAt(spaceCounts: array<nat>, indices: seq<nat>)
    requires forall k :: 0 <= k < |indices| ==> indices[k] < spaceCounts.Length
    modifies spaceCounts
    ensures spaceCounts[..] == Increment(old(spaceCounts[..]), indices)
  {
    ghost var start := spaceCounts[..];
    for k := 0 to |indices|
      invariant spaceCounts[..] == Increment(start, indices[..k])
    {
      assert indices[..k + 1][..k] == indices[..k];
      spaceCounts[indices[k]] := spaceCounts[indices[k]] + 1;
    }
    assert indices[..|indices|] == indices;
  }

  /** Each word followed by its spaces, joined: the `zip`, `map` and `join("")` of src/lib.rs:149-154. */
  method Concatenate(words: seq<string>, counts: seq<nat>) returns (text: string)
    requires |counts| == |words|
    ensures text == Interleave(words, counts)
  {
    text := "";
    for i := 0 to |words|
      invariant text + Interleave(words[i..], counts[i..]) == Interleave(words, counts)
    {
      assert words[i..][1..] == words[i + 1..] && counts[i..][1..] == counts[i + 1..];
      assert Interleave(words[i..], counts[i..])
          == words[i] + Spaces(counts[i]) + Interleave(words[i + 1..], counts[i + 1..]);
      text := text + words[i] + Spaces(counts[i]);
    }
    assert words[|words|..] == [] && counts[|words|..] == [];
  }

  /** Each count grows by the number of times its index was picked. */
  lemma {:induction false} IncrementCounts(counts: seq<nat>, ix: seq<nat>)
    requires forall k :: 0 <= k < |ix| ==> ix[k] < |counts|
    ensures forall j :: 0 <= j < |counts| ==> Increment(counts, ix)[j] == counts[j] + multiset(ix)[j]
    decreases |ix|
  {
    if ix != [] {
      var init := ix[..|ix| - 1];
      IncrementCounts(counts, init);
      assert ix == init + [ix[|ix| - 1]];
      assert multiset(ix) == multiset(init) + multiset{ix[|ix| - 1]};
    }
  }

  lemma {:induction false} SumBump(cs: seq<nat>, i: nat)
    requires i < |cs|
    ensures Sum(cs[i := cs[i] + 1]) == Sum(cs) + 1
    decreases |cs|
  {
    if i > 0 {
      SumBump(cs[1..], i - 1);
      assert cs[i := cs[i] + 1][1..] == cs[1..][i - 1 := cs[i] + 1];
    }
  }

  /** Every picked index adds one space in total. */
  lemma {:induction false} IncrementSum(counts: seq<nat>, ix: seq<nat>)
    requires forall k :: 0 <= k < |ix| ==> ix[k] < |counts|
    ensures Sum(Increment(counts, ix)) == Sum(counts) + |ix|
    decreases |ix|
  {
    if ix != [] {
      IncrementSum(counts, ix[..|ix| - 1]);
      SumBump(Increment(counts, ix[..|ix| - 1]), ix[|ix| - 1]);
    }
  }

  lemma {:induction false} SumRepeat(value: nat, count: nat)
    ensures Sum(Repeat(value, count)) == value * count
    decreases count
  {
    if count > 0 {
      SumRepeat(value, count - 1);
      assert Repeat(value, count)[1..] == Repeat(value, count - 1);
    }
  }

  lemma {:induction false} SumAppendZero(cs: seq<nat>)
    ensures Sum(cs + [0]) == Sum(cs)
    decreases |cs|
  {
    if cs != [] {
      SumAppendZero(cs[1..]);
      assert (cs + [0])[1..] == cs[1..] + [0];
    }
  }

  /** A distinct index list picks each index at most once. */
  lemma {:induction false} DistinctOnce(ix: seq<nat>, x: nat)
    requires Distinct(ix)
    ensures multiset(ix)[x] <= 1
    decreases |ix|
  {
    if ix != [] {
      var rest := ix[1..];
      assert Distinct(rest) by {
        forall i, j | 0 <= i < j < |rest| ensures rest[i] != rest[j] {
          assert rest[i] == ix[i + 1] && rest[j] == ix[j + 1];
        }
      }
      DistinctOnce(rest, x);
      assert ix == [ix[0]] + rest;
      if ix[0] == x {
        assert x !in rest by {
          forall j | 0 <= j < |rest| ensures rest[j] != x {
            assert rest[j] == ix[j + 1];
          }
        }
      }
    }
  }

  /** The per-gap quotient, plus one for each gap the spreader picks. */
  lemma SpaceCountsEven(perBlock: nat, blocks: nat, remaining: nat, picked: Option<seq<nat>>)
    requires remaining < blocks && SpreadOk(picked, remaining, blocks)
    ensures var cs := SpaceCounts(perBlock, blocks, picked);
      && (forall j :: 0 <= j < |cs| ==> perBlock <= cs[j] <= perBlock + 1)
      && Sum(cs) == perBlock * blocks + remaining
  {
    SumRepeat(perBlock, blocks);
    if picked.Some? {
      var ix: seq<nat> := picked.value;
      IncrementCounts(Repeat(perBlock, blocks), ix);
      IncrementSum(Repeat(perBlock, blocks), ix);
      forall j: nat | j < blocks ensures multiset(ix)[j] <= 1 {
        DistinctOnce(ix, j);
      }
    }
  }

  /** The spaces are spread evenly: each gap gets the quotient or one more, at least
      one space separates any two words, and the gaps and the words fill `width`. */
  lemma GapWidthsEven(line: string, width: nat, spread: (nat, nat) -> Option<seq<nat>>)
    requires SpreadContract(spread) && JustifyDefined(line, width) && |JustifyBody(line)| < width
    ensures var cs, perBlock := GapWidths(line, width, spread), SpacesRequired(line, width) / Blocks(line, width);
      && perBlock >= 1
      && (forall j :: 0 <= j < |cs| ==> perBlock <= cs[j] <= perBlock + 1)
      && Sum(cs) + SumLengths(Words(JustifyBody(line))) == width
  {
    var required, blocks := SpacesRequired(line, width), Blocks(line, width);
    var remaining := required % blocks;
    assert SpreadOk(spread(remaining, blocks), remaining, blocks);
    QuotientAtLeastOne(required, blocks);
    SpaceCountsEven(required / blocks, blocks, remaining, spread(remaining, blocks));
  }

  lemma QuotientAtLeastOne(a: nat, b: nat)
    requires 0 < b <= a
    ensures a / b >= 1
    ensures a == a / b * b + a % b
  {
  }

  /** A padded line is exactly `width` long, plus its newline. */
  lemma JustifiedWidth(line: string, width: nat, spread: (nat, nat) -> Option<seq<nat>>)
    requires SpreadContract(spread) && JustifyDefined(line, width) && |JustifyBody(line)| < width
    ensures |Justified(line, width, spread)| == width + |LineEnd(line)|
  {
    var cs := GapWidths(line, width, spread);
    GapWidthsEven(line, width, spread);
    InterleaveLength(Words(JustifyBody(line)), cs + [0]);
    SumAppendZero(cs);
  }

  /** Justifying keeps the words: splitting the result gives the line's words back. */
  lemma JustifiedWords(line: string, width: nat, spread: (nat, nat) -> Option<seq<nat>>)
    requires SpreadContract(spread) && JustifyDefined(line, width) && |JustifyBody(line)| < width
    ensures Words(Justified(line, width, spread)) == Words(JustifyBody(line))
  {
    var cs := GapWidths(line, width, spread) + [0];
    GapWidthsEven(line, width, spread);
    assert Separating(cs);
    WordsOfInterleave(Words(JustifyBody(line)), cs, LineEnd(line));
  }

  /** `dejustify` undoes `justify`: the padded line collapses to its words one space
      apart (or `n` apart after a sentence mark when `n > 1`). A line with an apostrophe
      is excluded, since the gap class of `dejustify` also takes apostrophes. */
  lemma DejustifyJustified(line: string, width: nat, spread: (nat, nat) -> Option<seq<nat>>, n: nat)
    requires SpreadContract(spread) && JustifyDefined(line, width) && |JustifyBody(line)| < width
    requires '\'' !in line
    ensures var ws := Words(JustifyBody(line));
      Dejustified(Justified(line, width, spread), n)
        == (if n > 1 then Interleave(ws, SentenceGaps(ws, MarkSet, n)) else Join(ws)) + LineEnd(line)
  {
    var body := JustifyBody(line);
    var ws := Words(body);
    var cs := GapWidths(line, width, spread) + [0];
    GapWidthsEven(line, width, spread);
    assert Separating(cs);
    assert '\'' !in body by {
      assert body == line[..|body|];
    }
    WordsAvoid(body, '\'');
    assert Chunks(ws);
    DejustifyGapped(ws, cs, LineEnd(line), n);
  }

  /** A line of words one space apart, optionally ending in a newline: its body is
      the words one space apart, and splitting it gives the words. */
  lemma JoinedBody(ws: seq<string>, tail: string)
    requires |ws| > 0 && forall i :: 0 <= i < |ws| ==> IsWord(ws[i])
    requires ws[|ws| - 1] != [] && !IsWhitespace(ws[|ws| - 1][|ws[|ws| - 1]| - 1])
    requires tail == "" || tail == "\n"
    ensures JustifyBody(Join(ws) + tail) == Join(ws)
    ensures Words(Join(ws)) == ws
    ensures LineEnd(Join(ws) + tail) == tail
  {
    var line := Join(ws) + tail;
    WordsOfJoin(ws, []);
    assert Join(ws) + [] == Join(ws);
    InterleaveLastChar(ws, SingleGaps(|ws|));
    if tail == "\n" {
      TrimEndSplit(line, Join(ws), tail);
    } else {
      assert line == Join(ws);
    }
  }

  /** Such a line justified: the words with the spreader's gaps. */
  lemma JustifyJoined(ws: seq<string>, tail: string, width: nat, spread: (nat, nat) -> Option<seq<nat>>)
    requires SpreadContract(spread)
    requires |ws| >= 2 && forall i :: 0 <= i < |ws| ==> IsWord(ws[i])
    requires ws[|ws| - 1] != [] && !IsWhitespace(ws[|ws| - 1][|ws[|ws| - 1]| - 1])
    requires tail == "" || tail == "\n"
    requires |Join(ws)| < width
    ensures JustifyBody(Join(ws) + tail) == Join(ws) && Words(Join(ws)) == ws
    ensures JustifyDefined(Join(ws) + tail, width)
    ensures Justified(Join(ws) + tail, width, spread)
         == Interleave(ws, GapWidths(Join(ws) + tail, width, spread) + [0]) + tail
  {
    JoinedBody(ws, tail);
  }

  /** Words that `Join` lays out as a line `justify` can pad: two or more, the last not ending in whitespace. */
  predicate JoinableWords(ws: seq<string>) {
    && |ws| >= 2
    && (forall i :: 0 <= i < |ws| ==> IsWord(ws[i]))
    && ws[|ws| - 1] != [] && !IsWhitespace(ws[|ws| - 1][|ws[|ws| - 1]| - 1])
  }

  /**
   * A joined line justified, with the quotient and remainder of the spaces over the gaps, the
   * spreader's pick for that remainder and the resulting gap widths given.
   */
  lemma JustifyJoinedSplit(ws: seq<string>, line: string, tail: string, width: nat, spread: (nat, nat) -> Option<seq<nat>>,
                           blocks: nat, perBlock: nat, remaining: nat, picked: Option<seq<nat>>, cs: seq<nat>)
    requires SpreadContract(spread) && JoinableWords(ws) && line == Join(ws) && (tail == "" || tail == "\n")
    requires blocks == |ws| - 1 && |line| < width && remaining < blocks && width == SumLengths(ws) + perBlock * blocks + remaining
    requires spread(remaining, blocks) == picked && SpreadOk(picked, remaining, blocks)
    requires SpaceCounts(perBlock, blocks, picked) == cs
    ensures JustifyDefined(line + tail, width)
    ensures Justified(line + tail, width, spread) == Interleave(ws, cs + [0]) + tail
  {
    JustifyJoined(ws, tail, width, spread);
    var full := line + tail;
    var required := SpacesRequired(full, width);
    assert Blocks(full, width) == blocks && required == width - SumLengths(ws);
    DivUnique(required, blocks, perBlock, remaining);
    assert GapWidths(full, width, spread) == SpaceCounts(perBlock, blocks, picked);
  }

  const GoodDog: seq<string> := ["Good", "dog"]

  lemma GoodDogJoined()
    ensures Join(GoodDog) == "Good dog"
  {
    calc {
      Join(GoodDog);
      { assert SingleGaps(2) == [1, 0]; }
      Interleave(GoodDog, [1, 0]);
    }
  }

  lemma GoodDogWords()
    ensures JoinableWords(GoodDog) && SumLengths(GoodDog) == 7
  {
  }

  /** A two-word line has one gap, which takes every space; the spreader is asked for nothing. */
  lemma GoodDogGaps(tail: string, width: nat, perBlock: nat)
    requires tail == "" || tail == "\n"
    requires width == 7 + perBlock && 8 < width
    ensures JustifyDefined("Good dog" + tail, width)
    ensures Justified("Good dog" + tail, width, IndexSpread.IndexSpread) == Interleave(GoodDog, [perBlock, 0]) + tail
  {
    GoodDogJoined();
    GoodDogWords();
    assert IndexSpread.IndexSpread(0, 1) == None;
    assert SpaceCounts(perBlock, 1, None) == [perBlock];
    IndexSpreadMeetsContract();
    JustifyJoinedSplit(GoodDog, "Good dog", tail, width, IndexSpread.IndexSpread, 1, perBlock, 0, None, [perBlock]);
    assert [perBlock] + [0] == [perBlock, 0];
  }

  lemma GoodDogLayouts()
    ensures Interleave(GoodDog, [2, 0]) == "Good  dog"
    ensures Interleave(GoodDog, [3, 0]) == "Good   dog"
  {
  }

  /** `"Good dog".justify(w)` from the inline tests: a line already wide enough is kept... */
  lemma JustifyGoodDogFits()
    ensures Justified("Good dog", 1, IndexSpread.IndexSpread) == "Good dog"
    ensures Justified("Good dog", 8, IndexSpread.IndexSpread) == "Good dog"
  {
    assert !EndsWithNewline("Good dog");
  }

  /** ... and a wider one gets all the extra spaces in its single gap. */
  lemma JustifyGoodDogNine()
    ensures JustifyDefined("Good dog", 9)
    ensures Justified("Good dog", 9, IndexSpread.IndexSpread) == "Good  dog"
  {
    assert "Good dog" + "" == "Good dog";
    GoodDogGaps("", 9, 2);
    GoodDogLayouts();
  }

  lemma JustifyGoodDogTen()
    ensures JustifyDefined("Good dog", 10)
    ensures Justified("Good dog", 10, IndexSpread.IndexSpread) == "Good   dog"
  {
    assert "Good dog" + "" == "Good dog";
    GoodDogGaps("", 10, 3);
    GoodDogLayouts();
  }

  /** The same tests on the line with a final newline. */
  lemma JustifyGoodDogLineFits()
    ensures JustifyDefined("Good dog\n", 1) && JustifyDefined("Good dog\n", 8)
    ensures Justified("Good dog\n", 1, IndexSpread.IndexSpread) == "Good dog\n"
    ensures Justified("Good dog\n", 8, IndexSpread.IndexSpread) == "Good dog\n"
  {
    GoodDogJoined();
    GoodDogWords();
    assert "Good dog\n" == "Good dog" + "\n";
    JoinedBody(GoodDog, "\n");
  }

  lemma JustifyGoodDogLineNine()
    ensures JustifyDefined("Good dog\n", 9)
    ensures Justified("Good dog\n", 9, IndexSpread.IndexSpread) == "Good  dog\n"
  {
    assert "Good dog\n" == "Good dog" + "\n";
    GoodDogGaps("\n", 9, 2);
    GoodDogLayouts();
    assert "Good  dog\n" == "Good  dog" + "\n";
  }

  lemma JustifyGoodDogLineTen()
    ensures JustifyDefined("Good dog\n", 10)
    ensures Justified("Good dog\n", 10, IndexSpread.IndexSpread) == "Good   dog\n"
  {
    assert "Good dog\n" == "Good dog" + "\n";
    GoodDogGaps("\n", 10, 3);
    GoodDogLayouts();
    assert "Good   dog\n" == "Good   dog" + "\n";
  }

  const ReallyGoodDog: seq<string> := ["Really", "good", "dog"]

  lemma ReallyGoodDogJoined()
    ensures Join(ReallyGoodDog) == "Really good dog"
  {
    calc {
      Join(ReallyGoodDog);
      { assert SingleGaps(3) == [1, 1, 0]; }
      Interleave(ReallyGoodDog, [1, 1, 0]);
    }
  }

  lemma ReallyGoodDogWords()
    ensures JoinableWords(ReallyGoodDog) && SumLengths(ReallyGoodDog) == 13
  {
  }

  /** One space left over after one each: the spreader picks the second gap. */
  lemma ReallyGoodDogCountsSixteen()
    ensures SpaceCounts(1, 2, Some([1])) == [1, 2]
  {
    calc {
      SpaceCounts(1, 2, Some([1]));
      Increment(Repeat(1, 2), [1]);
      { assert [1][..0] == []; }
      Increment(Repeat(1, 2), [])[1 := Increment(Repeat(1, 2), [])[1] + 1];
      { assert Repeat(1, 2) == [1, 1]; }
      [1, 1][1 := 2];
    }
  }

  /** One space left over after two each: the second gap again. */
  lemma ReallyGoodDogCountsEighteen()
    ensures SpaceCounts(2, 2, Some([1])) == [2, 3]
  {
    calc {
      SpaceCounts(2, 2, Some([1]));
      Increment(Repeat(2, 2), [1]);
      { assert [1][..0] == []; }
      Increment(Repeat(2, 2), [])[1 := Increment(Repeat(2, 2), [])[1] + 1];
      { assert Repeat(2, 2) == [2, 2]; }
      [2, 2][1 := 3];
    }
  }

  lemma ReallyGoodDogGaps(tail: string, width: nat, perBlock: nat, remaining: nat, picked: Option<seq<nat>>, cs: seq<nat>)
    requires tail == "" || tail == "\n"
    requires remaining < 2 && width == 13 + perBlock + perBlock + remaining && 15 < width
    requires IndexSpread.IndexSpread(remaining, 2) == picked && SpreadOk(picked, remaining, 2)
    requires SpaceCounts(perBlock, 2, picked) == cs
    ensures JustifyDefined("Really good dog" + tail, width)
    ensures Justified("Really good dog" + tail, width, IndexSpread.IndexSpread) == Interleave(ReallyGoodDog, cs + [0]) + tail
  {
    ReallyGoodDogJoined();
    ReallyGoodDogWords();
    IndexSpreadMeetsContract();
    assert perBlock * 2 == perBlock + perBlock;
    JustifyJoinedSplit(ReallyGoodDog, "Really good dog", tail, width, IndexSpread.IndexSpread, 2, perBlock, remaining, picked, cs);
  }


  lemma ReallyGoodDogLayouts()
    ensures Interleave(ReallyGoodDog, [1, 2, 0]) == "Really good  dog"
    ensures Interleave(ReallyGoodDog, [2, 2, 0]) == "Really  good  dog"
    ensures Interleave(ReallyGoodDog, [2, 3, 0]) == "Really  good   dog"
  {
  }

  /** `"Really good dog"`, with the given tail, justified to `width` gives `expected`
      when the gap counts lay out to it. */
  lemma ReallyGoodDogCase(line: string, tail: string, width: nat, perBlock: nat, remaining: nat,
                          picked: Option<seq<nat>>, cs: seq<nat>, expected: string)
    requires (tail == "" || tail == "\n") && line == "Really good dog" + tail
    requires remaining < 2 && width == 13 + perBlock + perBlock + remaining && 15 < width
    requires IndexSpread.IndexSpread(remaining, 2) == picked && SpreadOk(picked, remaining, 2)
    requires SpaceCounts(perBlock, 2, picked) == cs
    requires expected == Interleave(ReallyGoodDog, cs + [0]) + tail
    ensures JustifyDefined(line, width)
    ensures Justified(line, width, IndexSpread.IndexSpread) == expected
  {
    ReallyGoodDogGaps(tail, width, perBlock, remaining, picked, cs);
  }

  /** `"Really good dog".justify(w)`: one space left over goes to the second gap... */
  lemma JustifyReallyGoodDogSixteen()
    ensures JustifyDefined("Really good dog", 16)
    ensures Justified("Really good dog", 16, IndexSpread.IndexSpread) == "Really good  dog"
  {
    ReallyGoodDogCountsSixteen();
    ReallyGoodDogLayouts();
    var extra, slots := 1, 2;
    SpreadOneOverTwo(extra, slots);
    ReallyGoodDogCase("Really good dog", "", 16, 1, extra, Some([1]), [1, 2], "Really good  dog");
  }

  /** ... none is left over at 17 ... */
  lemma JustifyReallyGoodDogSeventeen()
    ensures JustifyDefined("Really good dog", 17)
    ensures Justified("Really good dog", 17, IndexSpread.IndexSpread) == "Really  good  dog"
  {
    assert IndexSpread.IndexSpread(0, 2) == None;
    assert Repeat(2, 2) == [2, 2];
    ReallyGoodDogLayouts();
    ReallyGoodDogCase("Really good dog", "", 17, 2, 0, None, [2, 2], "Really  good  dog");
  }

  /** ... and one again at 18. */
  lemma JustifyReallyGoodDogEighteen()
    ensures JustifyDefined("Really good dog", 18)
    ensures Justified("Really good dog", 18, IndexSpread.IndexSpread) == "Really  good   dog"
  {
    ReallyGoodDogCountsEighteen();
    ReallyGoodDogLayouts();
    var extra, slots := 1, 2;
    SpreadOneOverTwo(extra, slots);
    ReallyGoodDogCase("Really good dog", "", 18, 2, extra, Some([1]), [2, 3], "Really  good   dog");
  }

  /** The same three on the line with a final newline. */
  lemma JustifyReallyGoodDogLineSixteen()
    ensures JustifyDefined("Really good dog\n", 16)
    ensures Justified("Really good dog\n", 16, IndexSpread.IndexSpread) == "Really good  dog\n"
  {
    ReallyGoodDogCountsSixteen();
    ReallyGoodDogLayouts();
    var extra, slots := 1, 2;
    SpreadOneOverTwo(extra, slots);
    ReallyGoodDogCase("Really good dog\n", "\n", 16, 1, extra, Some([1]), [1, 2], "Really good  dog\n");
  }

  lemma JustifyReallyGoodDogLineSeventeen()
    ensures JustifyDefined("Really good dog\n", 17)
    ensures Justified("Really good dog\n", 17, IndexSpread.IndexSpread) == "Really  good  dog\n"
  {
    assert IndexSpread.IndexSpread(0, 2) == None;
    assert Repeat(2, 2) == [2, 2];
    ReallyGoodDogLayouts();
    ReallyGoodDogCase("Really good dog\n", "\n", 17, 2, 0, None, [2, 2], "Really  good  dog\n");
  }

  lemma JustifyReallyGoodDogLineEighteen()
    ensures JustifyDefined("Really good dog\n", 18)
    ensures Justified("Really good dog\n", 18, IndexSpread.IndexSpread) == "Really  good   dog\n"
  {
    ReallyGoodDogCountsEighteen();
    ReallyGoodDogLayouts();
    var extra, slots := 1, 2;
    SpreadOneOverTwo(extra, slots);
    ReallyGoodDogCase("Really good dog\n", "\n", 18, 2, extra, Some([1]), [2, 3], "Really  good   dog\n");
  }

  const GreetingWordList: seq<string> := ["Hello", "my", "dearest", "friend!"]

  /** The crate documentation's line, justified to 50 columns: the words with 10, 10 and 9 spaces between. */
  const JustifiedGreeting: string := "Hello" + Spaces(10) + "my" + Spaces(10) + "dearest" + Spaces(9) + "friend!"

  lemma GreetingJoined()
    ensures Join(GreetingWordList) == "Hello my dearest friend!"
  {
    calc {
      Join(GreetingWordList);
      { assert SingleGaps(4) == [1, 1, 1, 0]; }
      Interleave(GreetingWordList, [1, 1, 1, 0]);
    }
  }

  lemma GreetingWords()
    ensures JoinableWords(GreetingWordList) && SumLengths(GreetingWordList) == 21
  {
  }

  lemma GreetingLayout()
    ensures Interleave(GreetingWordList, [10, 10, 9, 0]) == JustifiedGreeting
  {
    calc {
      Interleave(GreetingWordList, [10, 10, 9, 0]);
      "Hello" + Spaces(10) + Interleave(GreetingWordList[1..], [10, 9, 0]);
      "Hello" + Spaces(10) + ("my" + Spaces(10) + Interleave(GreetingWordList[2..], [9, 0]));
      "Hello" + Spaces(10) + ("my" + Spaces(10) + ("dearest" + Spaces(9) + "friend!"));
    }
  }

  /** The two spaces left over from 29 over 3 gaps go to the first two gaps. */
  lemma GreetingCounts()
    ensures SpaceCounts(9, 3, Some([0, 1])) == [10, 10, 9]
  {
    var base := Repeat(9, 3);
    assert base == [9, 9, 9];
    calc {
      SpaceCounts(9, 3, Some([0, 1]));
      Increment(base, [0, 1]);
      { assert [0, 1][..1] == [0]; }
      Increment(base, [0])[1 := Increment(base, [0])[1] + 1];
      { assert [0][..0] == []; assert Increment(base, [0]) == [10, 9, 9]; }
      [10, 9, 9][1 := 10];
    }
  }

  lemma GreetingGaps()
    ensures JustifyDefined("Hello my dearest friend!" + "", 50)
    ensures Justified("Hello my dearest friend!" + "", 50, IndexSpread.IndexSpread) == Interleave(GreetingWordList, [10, 10, 9] + [0]) + ""
  {
    GreetingJoined();
    GreetingWords();
    GreetingCounts();
    IndexSpreadMeetsContract();
    var extra, slots := 2, 3;
    SpreadTwoOverThree(extra, slots);
    JustifyJoinedSplit(GreetingWordList, "Hello my dearest friend!", "", 50, IndexSpread.IndexSpread, slots, 9, extra, Some([0, 1]), [10, 10, 9]);
  }


  /** The crate's documentation example of `justify`... */
  lemma JustifyGreeting()
    ensures JustifyDefined("Hello my dearest friend!", 50)
    ensures Justified("Hello my dearest friend!", 50, IndexSpread.IndexSpread) == JustifiedGreeting
  {
    GreetingGaps();
    assert "Hello my dearest friend!" + "" == "Hello my dearest friend!";
    assert [10, 10, 9] + [0] == [10, 10, 9, 0];
    GreetingLayout();
  }

  /** None of the greeting's first three words ends in a sentence mark. */
  lemma GreetingSentenceGaps()
    ensures SentenceGaps(GreetingWordList, MarkSet, 2) == [1, 1, 1, 0]
  {
    assert 'o' !in MarkSet && 'y' !in MarkSet && 't' !in MarkSet;
  }

  /** ... and of `dejustify(2)` on its result: no word ends a sentence, so every gap becomes one space. */
  lemma DejustifyGreeting()
    ensures Dejustified(JustifiedGreeting, 2) == "Hello my dearest friend!"
  {
    var cs := [10, 10, 9, 0];
    calc {
      Dejustified(JustifiedGreeting, 2);
      { GreetingLayout(); assert Interleave(GreetingWordList, cs) + "" == Interleave(GreetingWordList, cs); }
      Dejustified(Interleave(GreetingWordList, cs) + "", 2);
      { DejustifyGapped(GreetingWordList, cs, "", 2); }
      Interleave(GreetingWordList, SentenceGaps(GreetingWordList, MarkSet, 2)) + "";
      { GreetingSentenceGaps(); }
      Interleave(GreetingWordList, [1, 1, 1, 0]) + "";
      { GreetingJoined(); assert SingleGaps(4) == [1, 1, 1, 0]; }
      "Hello my dearest friend!";
    }
  }
}
