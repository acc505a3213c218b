/** The reference pages' Markdown splitter: which lines make which block. */
module Markdown {
  import opened Strings

  /** White space, as the programming language's `strip` takes it. */
  datatype Spaces = Spaces(space: char -> bool)

  function LStrip(sp: Spaces, s: string): string {
    if s != "" && sp.space(s[0]) then LStrip(sp, s[1..]) else s
  }

  function RStrip(sp: Spaces, s: string): string {
    if s != "" && sp.space(s[|s| - 1]) then RStrip(sp, s[..|s| - 1]) else s
  }

  function Strip(sp: Spaces, s: string): string {
    RStrip(sp, LStrip(sp, s))
  }

  predicate Blank(sp: Spaces, s: string) {
    Strip(sp, s) == ""
  }

  predicate Fence(line: string) { "```" <= line }

  predicate Indent(line: string) { "    " <= line }

  predicate Item(line: string) { "- " <= line }

  /** The three kinds of block that go on as long as their lines do. */
  datatype Run = CodeRun | ListRun | ParaRun

  ghost predicate GoesOn(sp: Spaces, run: Run, line: string) {
    match run
    case CodeRun => "    " <= line || Blank(sp, line)
    case ListRun => "- " <= line || "  " <= line
    case ParaRun => !Blank(sp, line) && !("- " <= line) && !("```" <= line) && !("    " <= line)
  }

  // ------------------------------------------------------------------ what a block is

  datatype Block =
    | Fenced(text: string)
    | Indented(text: string)
    | Listed(entries: seq<string>)
    | Paragraph(text: string)

  /** A block and the lines first, …, past - 1 it was made of. */
  datatype Placed = Placed(first: nat, past: nat, block: Block)

  ghost predicate RunsOver(sp: Spaces, run: Run, lines: seq<string>, first: nat, past: nat) {
    past <= |lines| && forall n :: first <= n < past ==> GoesOn(sp, run, lines[n])
  }

  /** The run goes on over the lines from `first` to `past`, and not over the next one. */
  ghost predicate Maximal(sp: Spaces, run: Run, lines: seq<string>, first: nat, past: nat) {
    && first < past <= |lines|
    && RunsOver(sp, run, lines, first, past)
    && (past < |lines| ==> !GoesOn(sp, run, lines[past]))
  }

  function RStripNewlines(s: string): string {
    if s != "" && s[|s| - 1] == '\n' then RStripNewlines(s[..|s| - 1]) else s
  }

  /** An item begins an entry, any other line goes on with the last one. */
  function WithLine(sp: Spaces, entries: seq<string>, line: string): seq<string> {
    if Item(line) then entries + [Strip(sp, line[2..])]
    else if entries == [] then []
    else entries[..|entries| - 1] + [entries[|entries| - 1] + " " + Strip(sp, line)]
  }

  function Entries(sp: Spaces, ls: seq<string>): seq<string> {
    if ls == [] then [] else WithLine(sp, Entries(sp, ls[..|ls| - 1]), ls[|ls| - 1])
  }

  lemma RunGrows(sp: Spaces, run: Run, lines: seq<string>, first: nat, past: nat)
    requires past < |lines| && RunsOver(sp, run, lines, first, past) && GoesOn(sp, run, lines[past])
    ensures RunsOver(sp, run, lines, first, past + 1)
  {
  }

  /** The same, of the lines from i to j. */
  function EntriesOver(sp: Spaces, lines: seq<string>, i: nat, j: nat): seq<string>
    requires i <= j <= |lines|
  {
    if i == j then [] else WithLine(sp, EntriesOver(sp, lines, i, j - 1), lines[j - 1])
  }

  lemma EntriesStep(sp: Spaces, lines: seq<string>, i: nat, j: nat, before: seq<string>)
    requires i < j <= |lines| && before == Entries(sp, lines[i..j - 1])
    ensures Entries(sp, lines[i..j]) == WithLine(sp, before, lines[j - 1])
  {
    assert lines[i..j][..j - 1 - i] == lines[i..j - 1];
  }

  lemma {:induction false} EntriesOverIs(sp: Spaces, lines: seq<string>, i: nat, j: nat)
    requires i <= j <= |lines|
    ensures EntriesOver(sp, lines, i, j) == Entries(sp, lines[i..j])
  {
    if i < j {
      EntriesOverIs(sp, lines, i, j - 1);
      EntriesStep(sp, lines, i, j, EntriesOver(sp, lines, i, j - 1));
    }
  }

  lemma EntriesGoOn(sp: Spaces, lines: seq<string>, i: nat, j: nat)
    requires i <= j < |lines| && (Item(lines[j]) || EntriesOver(sp, lines, i, j) != [])
    ensures EntriesOver(sp, lines, i, j + 1) == WithLine(sp, EntriesOver(sp, lines, i, j), lines[j]) != []
  {
  }

  function Stripped(sp: Spaces, ls: seq<string>): seq<string> {
    seq(|ls|, i requires 0 <= i < |ls| => Strip(sp, ls[i]))
  }

  /** The next fence after the first line, or the end of the lines, and the block is past it. */
  ghost predicate ClosedAt(lines: seq<string>, b: Placed, close: nat) {
    && b.first < close <= |lines| && b.past == (if close < |lines| then close + 1 else close)
    && (forall n :: b.first < n < close ==> !("```" <= lines[n]))
    && (close < |lines| ==> "```" <= lines[close])
  }

  /** What makes these lines this block. */
  ghost predicate IsBlock(sp: Spaces, lines: seq<string>, b: Placed) {
    && b.first < b.past <= |lines|
    && !Blank(sp, lines[b.first])
    && match b.block
       case Fenced(text) =>
         "```" <= lines[b.first] && exists close: nat ::
           ClosedAt(lines, b, close) && text == Joined(lines[b.first + 1..close], "\n")
       case Indented(text) =>
         && "    " <= lines[b.first]
         && Maximal(sp, CodeRun, lines, b.first, b.past)
         && text == RStripNewlines(Joined(lines[b.first..b.past], "\n"))
       case Listed(entries) =>
         && "- " <= lines[b.first]
         && Maximal(sp, ListRun, lines, b.first, b.past)
         && entries == Entries(sp, lines[b.first..b.past])
       case Paragraph(text) =>
         && Maximal(sp, ParaRun, lines, b.first, b.past)
         && text == Joined(Stripped(sp, lines[b.first..b.past]), " ")
  }

  /** The lines from i to j read as blocks, one after the other, with nothing but blank lines before, between and after
      them. */
  ghost predicate IsReading(sp: Spaces, lines: seq<string>, i: nat, j: nat, out: seq<Placed>)
    requires j <= |lines|
    decreases |out|
  {
    if out == [] then i <= j && forall n :: i <= n < j ==> Blank(sp, lines[n])
    else
      && IsBlock(sp, lines, out[0])
      && i <= out[0].first && out[0].past <= j
      && (forall n :: i <= n < out[0].first ==> Blank(sp, lines[n]))
      && IsReading(sp, lines, out[0].past, j, out[1..])
  }

  // ------------------------------------------------------------------ there is only one reading

  lemma SameBlock(sp: Spaces, lines: seq<string>, b: Placed, c: Placed)
    requires IsBlock(sp, lines, b) && IsBlock(sp, lines, c) && b.first == c.first
    ensures b == c
  {
    var line := lines[b.first];
    FirstLetters(line);
  }

  /** A line begins at most one kind of block. */
  lemma FirstLetters(line: string)
    ensures !(Fence(line) && Indent(line)) && !(Fence(line) && Item(line)) && !(Indent(line) && Item(line))
  {
    assert "```"[0] == '`' && "    "[0] == ' ' && "- "[0] == '-';
  }

  /** The lines decide the blocks: there are no two ways to read them. */
  lemma {:induction false} OneReading(
    sp: Spaces, lines: seq<string>, i: nat, j: nat, out: seq<Placed>, out': seq<Placed>)
    requires j <= |lines| && IsReading(sp, lines, i, j, out) && IsReading(sp, lines, i, j, out')
    ensures out == out'
    decreases |out|
  {
    if out != [] && out' != [] {
      var b, c := out[0], out'[0];
      assert b.first == c.first;
      SameBlock(sp, lines, b, c);
      OneReading(sp, lines, b.past, j, out[1..], out'[1..]);
      assert out == [b] + out[1..] && out' == [b] + out'[1..];
    }
  }

  // ------------------------------------------------------------------ every line is in one block

  lemma {:induction false} EachIsABlock(sp: Spaces, lines: seq<string>, i: nat, j: nat, out: seq<Placed>, k: nat)
    requires j <= |lines| && IsReading(sp, lines, i, j, out) && k < |out|
    ensures i <= out[k].first < out[k].past <= j && IsBlock(sp, lines, out[k])
    decreases |out|
  {
    if k > 0 {
      EachIsABlock(sp, lines, out[0].past, j, out[1..], k - 1);
    }
  }

  lemma {:induction false} BlocksAreInOrder(sp: Spaces, lines: seq<string>, i: nat, j: nat, out: seq<Placed>,
                                            k: nat, m: nat)
    requires j <= |lines| && IsReading(sp, lines, i, j, out) && k < m < |out|
    ensures out[k].past <= out[m].first
    decreases |out|
  {
    if k == 0 {
      EachIsABlock(sp, lines, out[0].past, j, out[1..], m - 1);
    } else {
      BlocksAreInOrder(sp, lines, out[0].past, j, out[1..], k - 1, m - 1);
    }
  }

  predicate Holds(b: Placed, n: nat) { b.first <= n < b.past }

  lemma {:induction false} SomeBlockHolds(sp: Spaces, lines: seq<string>, i: nat, j: nat, out: seq<Placed>, n: nat)
    returns (k: nat)
    requires j <= |lines| && IsReading(sp, lines, i, j, out) && i <= n < j && !Blank(sp, lines[n])
    ensures k < |out| && Holds(out[k], n)
    decreases |out|
  {
    if n < out[0].past {
      k := 0;
    } else {
      k := SomeBlockHolds(sp, lines, out[0].past, j, out[1..], n);
      k := k + 1;
    }
  }

  /** Every line that is not blank lies in exactly one block. */
  lemma EveryLineOnce(sp: Spaces, lines: seq<string>, out: seq<Placed>, n: nat)
    requires IsReading(sp, lines, 0, |lines|, out) && n < |lines| && !Blank(sp, lines[n])
    ensures exists k: nat :: k < |out| && Holds(out[k], n)
    ensures forall k: nat, m: nat :: k < m < |out| ==> !(Holds(out[k], n) && Holds(out[m], n))
  {
    var _ := SomeBlockHolds(sp, lines, 0, |lines|, out, n);
    forall k: nat, m: nat | k < m < |out| ensures !(Holds(out[k], n) && Holds(out[m], n)) {
      BlocksAreInOrder(sp, lines, 0, |lines|, out, k, m);
    }
  }

  // ------------------------------------------------------------------ the splitter

  lemma {:induction false} ReadingTakesBlank(sp: Spaces, lines: seq<string>, i: nat, j: nat, out: seq<Placed>)
    requires j < |lines| && IsReading(sp, lines, i, j, out) && Blank(sp, lines[j])
    ensures IsReading(sp, lines, i, j + 1, out)
    decreases |out|
  {
    if out != [] { ReadingTakesBlank(sp, lines, out[0].past, j, out[1..]); }
  }

  lemma {:induction false} ReadingTakesBlock(
    sp: Spaces, lines: seq<string>, i: nat, j: nat, out: seq<Placed>, b: Placed)
    requires j <= |lines| && IsReading(sp, lines, i, j, out) && IsBlock(sp, lines, b) && b.first == j
    ensures IsReading(sp, lines, i, b.past, out + [b])
    decreases |out|
  {
    if out == [] {
      assert (out + [b])[0] == b && (out + [b])[1..] == [];
    } else {
      assert (out + [b])[0] == out[0] && (out + [b])[1..] == out[1..] + [b];
      ReadingTakesBlock(sp, lines, out[0].past, j, out[1..], b);
    }
  }

  method FencedAt(sp: Spaces, lines: seq<string>, i: nat) returns (b: Placed)
    requires i < |lines| && Fence(lines[i]) && !Blank(sp, lines[i])
    ensures b.first == i && IsBlock(sp, lines, b)
  {
    var j := i + 1;
    while j < |lines| && !Fence(lines[j])
      invariant i < j <= |lines| && forall n :: i < n < j ==> !Fence(lines[n])
    {
      j := j + 1;
    }
    b := Placed(i, if j < |lines| then j + 1 else j, Fenced(Joined(lines[i + 1..j], "\n")));
    assert ClosedAt(lines, b, j);
  }

  method IndentedAt(sp: Spaces, lines: seq<string>, i: nat) returns (b: Placed)
    requires i < |lines| && Indent(lines[i]) && !Blank(sp, lines[i])
    ensures b.first == i && IsBlock(sp, lines, b)
  {
    var j := i;
    while j < |lines| && (Indent(lines[j]) || Blank(sp, lines[j]))
      invariant i <= j <= |lines| && RunsOver(sp, CodeRun, lines, i, j)
    {
      j := j + 1;
    }
    b := Placed(i, j, Indented(RStripNewlines(Joined(lines[i..j], "\n"))));
  }

  lemma ListFound(sp: Spaces, lines: seq<string>, i: nat, j: nat, entries: seq<string>)
    requires i < j <= |lines| && Item(lines[i]) && !Blank(sp, lines[i])
    requires RunsOver(sp, ListRun, lines, i, j) && (j < |lines| ==> !GoesOn(sp, ListRun, lines[j]))
    requires entries == Entries(sp, lines[i..j])
    ensures IsBlock(sp, lines, Placed(i, j, Listed(entries)))
  {
  }

  /** The lines of the list, gathered into its entries. */
  method GatherList(sp: Spaces, lines: seq<string>, i: nat) returns (j: nat, entries: seq<string>)
    requires i < |lines| && Item(lines[i])
    ensures i < j <= |lines| && RunsOver(sp, ListRun, lines, i, j)
    ensures j < |lines| ==> !GoesOn(sp, ListRun, lines[j])
    ensures entries == Entries(sp, lines[i..j])
  {
    entries := [];
    j := i;
    while j < |lines| && (Item(lines[j]) || ("  " <= lines[j] && entries != []))
      invariant i <= j <= |lines| && RunsOver(sp, ListRun, lines, i, j)
      invariant entries == EntriesOver(sp, lines, i, j) && (entries == [] <==> i == j)
    {
      RunGrows(sp, ListRun, lines, i, j);
      EntriesGoOn(sp, lines, i, j);
      if Item(lines[j]) {
        entries := entries + [Strip(sp, lines[j][2..])];
      } else {
        entries := entries[..|entries| - 1] + [entries[|entries| - 1] + " " + Strip(sp, lines[j])];
      }
      j := j + 1;
    }
    EntriesOverIs(sp, lines, i, j);
  }

  method ListedAt(sp: Spaces, lines: seq<string>, i: nat) returns (b: Placed)
    requires i < |lines| && Item(lines[i]) && !Blank(sp, lines[i])
    ensures b.first == i && IsBlock(sp, lines, b)
  {
    var j, entries := GatherList(sp, lines, i);
    ListFound(sp, lines, i, j, entries);
    b := Placed(i, j, Listed(entries));
  }

  method ParagraphAt(sp: Spaces, lines: seq<string>, i: nat) returns (b: Placed)
    requires i < |lines| && GoesOn(sp, ParaRun, lines[i])
    ensures b.first == i && IsBlock(sp, lines, b)
  {
    var para: seq<string> := [];
    var j := i;
    while j < |lines| && !Blank(sp, lines[j]) && !Item(lines[j]) && !Fence(lines[j]) && !Indent(lines[j])
      invariant i <= j <= |lines| && RunsOver(sp, ParaRun, lines, i, j)
      invariant para == Stripped(sp, lines[i..j])
    {
      para := para + [Strip(sp, lines[j])];
      j := j + 1;
    }
    b := Placed(i, j, Paragraph(Joined(para, " ")));
  }

  /** The block that begins at line i. */
  method BlockAt(sp: Spaces, lines: seq<string>, i: nat) returns (b: Placed)
    requires i < |lines| && !Blank(sp, lines[i])
    ensures b.first == i && IsBlock(sp, lines, b)
  {
    if Fence(lines[i]) {
      b := FencedAt(sp, lines, i);
    } else if Indent(lines[i]) {
      b := IndentedAt(sp, lines, i);
    } else if Item(lines[i]) {
      b := ListedAt(sp, lines, i);
    } else {
      b := ParagraphAt(sp, lines, i);
    }
  }

  /** One turn of the loop: a blank line is passed over, any other begins a block. */
  method TakeNext(sp: Spaces, lines: seq<string>, i: nat, out: seq<Placed>) returns (i': nat, out': seq<Placed>)
    requires i < |lines| && IsReading(sp, lines, 0, i, out)
    ensures i < i' <= |lines| && IsReading(sp, lines, 0, i', out')
  {
    if Blank(sp, lines[i]) {
      ReadingTakesBlank(sp, lines, 0, i, out);
      i', out' := i + 1, out;
    } else {
      var b := BlockAt(sp, lines, i);
      ReadingTakesBlock(sp, lines, 0, i, out, b);
      i', out' := b.past, out + [b];
    }
  }

  // ------------------------------------------------------------------ nothing but space and marks is lost

  /** The characters that leave ink. */
  function Ink(sp: Spaces, s: string): string {
    if s == "" then "" else (if sp.space(s[0]) then "" else [s[0]]) + Ink(sp, s[1..])
  }

  function InkOfAll(sp: Spaces, ls: seq<string>): string {
    if ls == [] then "" else InkOfAll(sp, ls[..|ls| - 1]) + Ink(sp, ls[|ls| - 1])
  }

  /** What a line of a block is there to show: fences are not, and an item's mark is not. */
  function Content(b: Block, line: string): string {
    if b.Fenced? && Fence(line) then "" else if b.Listed? && Item(line) then line[2..] else line
  }

  function Contents(b: Block, ls: seq<string>): (cs: seq<string>)
    ensures |cs| == |ls|
  {
    if ls == [] then [] else Contents(b, ls[..|ls| - 1]) + [Content(b, ls[|ls| - 1])]
  }

  function BlockInk(sp: Spaces, b: Block): string {
    match b
    case Fenced(text) => Ink(sp, text)
    case Indented(text) => Ink(sp, text)
    case Listed(entries) => InkOfAll(sp, entries)
    case Paragraph(text) => Ink(sp, text)
  }

  lemma {:induction false} InkAppend(sp: Spaces, a: string, b: string)
    ensures Ink(sp, a + b) == Ink(sp, a) + Ink(sp, b)
  {
    if a == "" {
      assert a + b == b;
    } else {
      assert (a + b)[1..] == a[1..] + b;
      InkAppend(sp, a[1..], b);
    }
  }

  lemma {:induction false} InkOfLStrip(sp: Spaces, s: string)
    ensures Ink(sp, LStrip(sp, s)) == Ink(sp, s)
  {
    if s != "" && sp.space(s[0]) { InkOfLStrip(sp, s[1..]); }
  }

  lemma InkOfOne(sp: Spaces, c: char)
    ensures Ink(sp, [c]) == if sp.space(c) then "" else [c]
  {
    assert [c][1..] == "";
  }

  lemma InkOfLast(sp: Spaces, s: string)
    requires s != ""
    ensures Ink(sp, s) == Ink(sp, s[..|s| - 1]) + Ink(sp, [s[|s| - 1]])
  {
    assert s == s[..|s| - 1] + [s[|s| - 1]];
    InkAppend(sp, s[..|s| - 1], [s[|s| - 1]]);
  }

  lemma {:induction false} InkOfRStrip(sp: Spaces, s: string)
    ensures Ink(sp, RStrip(sp, s)) == Ink(sp, s)
  {
    if s != "" && sp.space(s[|s| - 1]) {
      InkOfLast(sp, s);
      InkOfOne(sp, s[|s| - 1]);
      InkOfRStrip(sp, s[..|s| - 1]);
    }
  }

  lemma InkOfStrip(sp: Spaces, s: string)
    ensures Ink(sp, Strip(sp, s)) == Ink(sp, s)
  {
    InkOfLStrip(sp, s);
    InkOfRStrip(sp, LStrip(sp, s));
  }

  lemma {:induction false} InkOfRStripNewlines(sp: Spaces, s: string)
    requires sp.space('\n')
    ensures Ink(sp, RStripNewlines(s)) == Ink(sp, s)
  {
    if s != "" && s[|s| - 1] == '\n' {
      InkOfLast(sp, s);
      InkOfOne(sp, '\n');
      InkOfRStripNewlines(sp, s[..|s| - 1]);
    }
  }

  lemma InkOfFirst(sp: Spaces, ls: seq<string>)
    requires ls != []
    ensures InkOfAll(sp, ls) == Ink(sp, ls[0]) + InkOfAll(sp, ls[1..])
  {
    var one := [ls[0]];
    assert ls == one + ls[1..] && one[..0] == [];
    InkOfAllAppend(sp, one, ls[1..]);
    assert "" + Ink(sp, ls[0]) == Ink(sp, ls[0]);
  }

  lemma InkWithGap(sp: Spaces, a: string, between: string, rest: string)
    requires Ink(sp, between) == ""
    ensures Ink(sp, a + between + rest) == Ink(sp, a) + Ink(sp, rest)
  {
    InkAppend(sp, a + between, rest);
    InkAppend(sp, a, between);
    assert Ink(sp, a) + "" == Ink(sp, a);
  }

  lemma {:induction false} InkOfJoined(sp: Spaces, ls: seq<string>, between: string)
    requires Ink(sp, between) == ""
    ensures Ink(sp, Joined(ls, between)) == InkOfAll(sp, ls)
  {
    if |ls| == 1 {
      InkOfFirst(sp, ls);
      assert Ink(sp, ls[0]) + "" == Ink(sp, ls[0]);
    } else if |ls| > 1 {
      InkOfFirst(sp, ls);
      InkWithGap(sp, ls[0], between, Joined(ls[1..], between));
      InkOfJoined(sp, ls[1..], between);
    }
  }

  lemma {:induction false} InkOfStripped(sp: Spaces, ls: seq<string>)
    ensures InkOfAll(sp, Stripped(sp, ls)) == InkOfAll(sp, ls)
  {
    if ls != [] {
      InkOfStripped(sp, ls[..|ls| - 1]);
      InkOfStrip(sp, ls[|ls| - 1]);
      assert Stripped(sp, ls)[..|ls| - 1] == Stripped(sp, ls[..|ls| - 1]);
    }
  }

  /** In blocks without marks every line is content. */
  lemma {:induction false} UnmarkedContents(b: Block, ls: seq<string>)
    requires !b.Listed? && (b.Fenced? ==> forall k :: 0 <= k < |ls| ==> !Fence(ls[k]))
    ensures Contents(b, ls) == ls
  {
    if ls != [] { UnmarkedContents(b, ls[..|ls| - 1]); }
  }

  lemma WithLineInk(sp: Spaces, es: seq<string>, line: string)
    requires sp.space(' ') && (es != [] || Item(line))
    ensures InkOfAll(sp, WithLine(sp, es, line)) == InkOfAll(sp, es) + Ink(sp, if Item(line) then line[2..] else line)
  {
    if Item(line) {
      InkOfStrip(sp, line[2..]);
      assert (es + [Strip(sp, line[2..])])[..|es|] == es;
    } else {
      var last := es[|es| - 1];
      InkOfStrip(sp, line);
      InkAppend(sp, last + " ", Strip(sp, line));
      InkAppend(sp, last, " ");
      assert " "[1..] == "";
      assert WithLine(sp, es, line)[..|es| - 1] == es[..|es| - 1];
    }
  }

  lemma {:induction false} ContentsAppend(b: Block, x: seq<string>, y: seq<string>)
    ensures Contents(b, x + y) == Contents(b, x) + Contents(b, y)
  {
    if y == [] {
      assert x + y == x;
    } else {
      assert (x + y)[..|x + y| - 1] == x + y[..|y| - 1];
      ContentsAppend(b, x, y[..|y| - 1]);
    }
  }

  lemma {:induction false} InkOfAllAppend(sp: Spaces, x: seq<string>, y: seq<string>)
    ensures InkOfAll(sp, x + y) == InkOfAll(sp, x) + InkOfAll(sp, y)
  {
    if y == [] {
      assert x + y == x;
    } else {
      assert (x + y)[..|x + y| - 1] == x + y[..|y| - 1];
      InkOfAllAppend(sp, x, y[..|y| - 1]);
    }
  }

  lemma ContentInkAppends(sp: Spaces, b: Block, x: seq<string>, y: seq<string>)
    ensures InkOfAll(sp, Contents(b, x + y)) == InkOfAll(sp, Contents(b, x)) + InkOfAll(sp, Contents(b, y))
  {
    ContentsAppend(b, x, y);
    InkOfAllAppend(sp, Contents(b, x), Contents(b, y));
  }

  lemma ContentInkOfOne(sp: Spaces, b: Block, line: string)
    ensures InkOfAll(sp, Contents(b, [line])) == Ink(sp, Content(b, line))
  {
    assert [line][..0] == [];
    assert Contents(b, [line]) == [Content(b, line)];
    assert [Content(b, line)][..0] == [];
  }

  /** One line more of a list. */
  lemma ListInkStep(sp: Spaces, front: seq<string>, line: string, b: Block)
    requires b.Listed? && sp.space(' ') && (Entries(sp, front) != [] || Item(line))
    requires InkOfAll(sp, Entries(sp, front)) == InkOfAll(sp, Contents(b, front))
    ensures InkOfAll(sp, WithLine(sp, Entries(sp, front), line)) == InkOfAll(sp, Contents(b, front + [line]))
  {
    WithLineInk(sp, Entries(sp, front), line);
    ContentInkAppends(sp, b, front, [line]);
    ContentInkOfOne(sp, b, line);
  }

  lemma {:induction false} ListInk(sp: Spaces, ls: seq<string>, b: Block)
    requires b.Listed? && ls != [] && Item(ls[0]) && sp.space(' ')
    ensures Entries(sp, ls) != [] && InkOfAll(sp, Entries(sp, ls)) == InkOfAll(sp, Contents(b, ls))
  {
    var line, front := ls[|ls| - 1], ls[..|ls| - 1];
    assert ls == front + [line];
    if front == [] {
      assert Entries(sp, front) == [] && Contents(b, front) == [];
    } else {
      ListInk(sp, front, b);
    }
    ListInkStep(sp, front, line, b);
  }

  /** Of a fenced block the lines between the fences are content. */
  lemma FencedInk(sp: Spaces, b: Block, opening: string, inner: seq<string>, closing: seq<string>)
    requires b.Fenced? && Fence(opening) && |closing| <= 1 && forall k :: 0 <= k < |closing| ==> Fence(closing[k])
    requires forall k :: 0 <= k < |inner| ==> !Fence(inner[k])
    ensures InkOfAll(sp, Contents(b, [opening] + inner + closing)) == InkOfAll(sp, inner)
  {
    ContentInkAppends(sp, b, [opening] + inner, closing);
    ContentInkAppends(sp, b, [opening], inner);
    ContentInkOfOne(sp, b, opening);
    UnmarkedContents(b, inner);
    if closing != [] {
      assert closing == [closing[0]];
      ContentInkOfOne(sp, b, closing[0]);
    }
  }

  lemma IndentedShows(sp: Spaces, b: Block, ls: seq<string>)
    requires sp.space('\n') && b.Indented? && b.text == RStripNewlines(Joined(ls, "\n"))
    ensures BlockInk(sp, b) == InkOfAll(sp, Contents(b, ls))
  {
    UnmarkedContents(b, ls);
    InkOfRStripNewlines(sp, Joined(ls, "\n"));
    InkOfOne(sp, '\n');
    InkOfJoined(sp, ls, "\n");
  }

  lemma ParagraphShows(sp: Spaces, b: Block, ls: seq<string>)
    requires sp.space(' ') && b.Paragraph? && b.text == Joined(Stripped(sp, ls), " ")
    ensures BlockInk(sp, b) == InkOfAll(sp, Contents(b, ls))
  {
    UnmarkedContents(b, ls);
    InkOfOne(sp, ' ');
    InkOfJoined(sp, Stripped(sp, ls), " ");
    InkOfStripped(sp, ls);
  }

  lemma FencedShows(sp: Spaces, lines: seq<string>, b: Placed, close: nat)
    requires sp.space('\n') && b.block.Fenced? && ClosedAt(lines, b, close) && Fence(lines[b.first])
    requires b.block.text == Joined(lines[b.first + 1..close], "\n")
    ensures BlockInk(sp, b.block) == InkOfAll(sp, Contents(b.block, lines[b.first..b.past]))
  {
    assert lines[b.first..b.past] == [lines[b.first]] + lines[b.first + 1..close] + lines[close..b.past];
    FencedInk(sp, b.block, lines[b.first], lines[b.first + 1..close], lines[close..b.past]);
    InkOfOne(sp, '\n');
    InkOfJoined(sp, lines[b.first + 1..close], "\n");
  }

  /** A block shows, in order, exactly the ink of its lines, but for fences and item marks. */
  lemma BlockShowsItsLines(sp: Spaces, lines: seq<string>, b: Placed)
    requires sp.space(' ') && sp.space('\n') && IsBlock(sp, lines, b)
    ensures BlockInk(sp, b.block) == InkOfAll(sp, Contents(b.block, lines[b.first..b.past]))
  {
    var ls := lines[b.first..b.past];
    match b.block {
      case Fenced(text) =>
        var close: nat :| ClosedAt(lines, b, close) && text == Joined(lines[b.first + 1..close], "\n");
        FencedShows(sp, lines, b, close);
      case Indented(_) => IndentedShows(sp, b.block, ls);
      case Listed(_) => ListInk(sp, ls, b.block);
      case Paragraph(_) => ParagraphShows(sp, b.block, ls);
    }
  }

  // ------------------------------------------------------------------ the whole page

  function PageInk(sp: Spaces, out: seq<Placed>): string {
    if out == [] then "" else BlockInk(sp, out[0].block) + PageInk(sp, out[1..])
  }

  /** What line n is there to show: its content in the block that holds it, or itself outside all blocks. */
  function LineShown(lines: seq<string>, out: seq<Placed>, n: nat): string
    requires n < |lines|
  {
    if out == [] || n < out[0].first then lines[n]
    else if n < out[0].past then Content(out[0].block, lines[n])
    else LineShown(lines, out[1..], n)
  }

  function LinesShown(lines: seq<string>, out: seq<Placed>, i: nat, j: nat): (ls: seq<string>)
    requires i <= j <= |lines|
    ensures |ls| == j - i
  {
    seq(j - i, k requires 0 <= k < j - i => LineShown(lines, out, i + k))
  }

  lemma BlankHasNoInk(sp: Spaces, line: string)
    requires Blank(sp, line)
    ensures Ink(sp, line) == ""
  {
    InkOfStrip(sp, line);
  }

  lemma {:induction false} BlanksHaveNoInk(sp: Spaces, ls: seq<string>)
    requires forall n :: 0 <= n < |ls| ==> Blank(sp, ls[n])
    ensures InkOfAll(sp, ls) == ""
  {
    if ls != [] {
      BlanksHaveNoInk(sp, ls[..|ls| - 1]);
      BlankHasNoInk(sp, ls[|ls| - 1]);
    }
  }

  lemma {:induction false} ContentsAt(b: Block, ls: seq<string>, k: nat)
    requires k < |ls|
    ensures Contents(b, ls)[k] == Content(b, ls[k])
  {
    if k < |ls| - 1 { ContentsAt(b, ls[..|ls| - 1], k); }
  }

  lemma LinesShownSplit(lines: seq<string>, out: seq<Placed>, i: nat, m: nat, j: nat)
    requires i <= m <= j <= |lines|
    ensures LinesShown(lines, out, i, j) == LinesShown(lines, out, i, m) + LinesShown(lines, out, m, j)
  {
  }

  lemma LinesOutside(lines: seq<string>, out: seq<Placed>, i: nat, j: nat)
    requires i <= j <= |lines| && (out == [] || j <= out[0].first)
    ensures LinesShown(lines, out, i, j) == lines[i..j]
  {
    forall k | 0 <= k < j - i ensures LineShown(lines, out, i + k) == lines[i..j][k] {
    }
  }

  lemma LinesOfBlock(lines: seq<string>, out: seq<Placed>)
    requires out != [] && out[0].first <= out[0].past <= |lines|
    ensures LinesShown(lines, out, out[0].first, out[0].past)
         == Contents(out[0].block, lines[out[0].first..out[0].past])
  {
    var b := out[0];
    var held := lines[b.first..b.past];
    forall k | 0 <= k < |held| ensures LineShown(lines, out, b.first + k) == Contents(b.block, held)[k] {
      ContentsAt(b.block, held, k);
    }
  }

  lemma LinesOfRest(lines: seq<string>, out: seq<Placed>, j: nat)
    requires out != [] && out[0].first <= out[0].past <= j <= |lines|
    ensures LinesShown(lines, out, out[0].past, j) == LinesShown(lines, out[1..], out[0].past, j)
  {
    forall n | out[0].past <= n < j ensures LineShown(lines, out, n) == LineShown(lines, out[1..], n) {
    }
  }

  /** The lines before the first block, those it holds, and the rest. */
  lemma LinesByBlock(lines: seq<string>, out: seq<Placed>, i: nat, j: nat)
    requires out != [] && i <= out[0].first <= out[0].past <= j <= |lines|
    ensures LinesShown(lines, out, i, j)
         == lines[i..out[0].first] + Contents(out[0].block, lines[out[0].first..out[0].past])
            + LinesShown(lines, out[1..], out[0].past, j)
  {
    LinesShownSplit(lines, out, i, out[0].past, j);
    LinesShownSplit(lines, out, i, out[0].first, out[0].past);
    LinesOutside(lines, out, i, out[0].first);
    LinesOfBlock(lines, out);
    LinesOfRest(lines, out, j);
  }

  lemma ShownInOrder(sp: Spaces, lines: seq<string>, out: seq<Placed>, i: nat, j: nat)
    requires out != [] && i <= out[0].first <= out[0].past <= j <= |lines|
    ensures InkOfAll(sp, LinesShown(lines, out, i, j))
         == InkOfAll(sp, lines[i..out[0].first])
            + InkOfAll(sp, Contents(out[0].block, lines[out[0].first..out[0].past]))
            + InkOfAll(sp, LinesShown(lines, out[1..], out[0].past, j))
  {
    var before, held := lines[i..out[0].first], Contents(out[0].block, lines[out[0].first..out[0].past]);
    LinesByBlock(lines, out, i, j);
    InkOfAllAppend(sp, before + held, LinesShown(lines, out[1..], out[0].past, j));
    InkOfAllAppend(sp, before, held);
  }

  lemma NothingInFront(a: string, x: string, y: string)
    requires a == ""
    ensures a + x + y == x + y
  {
  }

  lemma PageStep(sp: Spaces, lines: seq<string>, i: nat, j: nat, out: seq<Placed>, ink: string)
    requires out != [] && i <= out[0].first <= out[0].past <= j <= |lines|
    requires InkOfAll(sp, lines[i..out[0].first]) == ""
    requires ink == InkOfAll(sp, Contents(out[0].block, lines[out[0].first..out[0].past]))
    ensures InkOfAll(sp, LinesShown(lines, out, i, j))
         == ink + InkOfAll(sp, LinesShown(lines, out[1..], out[0].past, j))
  {
    ShownInOrder(sp, lines, out, i, j);
    var rest := InkOfAll(sp, LinesShown(lines, out[1..], out[0].past, j));
    NothingInFront(InkOfAll(sp, lines[i..out[0].first]), ink, rest);
  }

  /** All blocks together show, in order, exactly the ink of all lines, but for fences and item marks. */
  lemma {:induction false} PageShowsItsLines(sp: Spaces, lines: seq<string>, i: nat, j: nat, out: seq<Placed>)
    requires sp.space(' ') && sp.space('\n') && j <= |lines| && IsReading(sp, lines, i, j, out)
    ensures i <= j && PageInk(sp, out) == InkOfAll(sp, LinesShown(lines, out, i, j))
    decreases |out|
  {
    if out == [] {
      LinesOutside(lines, out, i, j);
      BlanksHaveNoInk(sp, lines[i..j]);
    } else {
      PageShowsItsLines(sp, lines, out[0].past, j, out[1..]);
      BlanksHaveNoInk(sp, lines[i..out[0].first]);
      BlockShowsItsLines(sp, lines, out[0]);
      PageStep(sp, lines, i, j, out, BlockInk(sp, out[0].block));
    }
  }

  // ------------------------------------------------------------------ what a block's text is, in its lines alone

  predicate AllSpace(sp: Spaces, s: string) {
    forall k :: 0 <= k < |s| ==> sp.space(s[k])
  }

  predicate StartsWithSpace(sp: Spaces, s: string) { s != "" && sp.space(s[0]) }

  predicate EndsWithSpace(sp: Spaces, s: string) { s != "" && sp.space(s[|s| - 1]) }

  /** What is left of s without the white space around it. */
  ghost predicate StripsTo(sp: Spaces, s: string, t: string) {
    exists a: nat, b: nat :: a <= b <= |s| && s[a..b] == t && AllSpace(sp, s[..a]) && AllSpace(sp, s[b..])
                             && !StartsWithSpace(sp, t) && !EndsWithSpace(sp, t)
  }

  ghost predicate StripTo(sp: Spaces, raw: seq<string>, parts: seq<string>) {
    |parts| == |raw| && forall k :: 0 <= k < |raw| ==> StripsTo(sp, raw[k], parts[k])
  }

  /** The raw strings, stripped, with a space between each and the next: their words in turn. It begins or ends with
      white space only where there are several of them and the first or the last is nothing else. */
  ghost predicate ShowsStripped(sp: Spaces, raw: seq<string>, text: string)
    requires raw != []
  {
    && (exists parts :: StripTo(sp, raw, parts) && text == Joined(parts, " "))
    && WordsOf(sp.space, text) == WordsOfAll(sp.space, raw)
    && (StartsWithSpace(sp, text) <==> |raw| > 1 && AllSpace(sp, raw[0]))
    && (EndsWithSpace(sp, text) <==> |raw| > 1 && AllSpace(sp, raw[|raw| - 1]))
  }

  /** Entry k's lines: an item's, without its mark, and those up to the next item. */
  function RawEntry(ls: seq<string>, starts: seq<nat>, k: nat): seq<string>
    requires k < |starts| && StartsIn(ls, starts)
  {
    [ls[starts[k]][2..]] + ls[starts[k] + 1..if k + 1 < |starts| then starts[k + 1] else |ls|]
  }

  /** The lines with items, the first of them line 0. */
  predicate StartsIn(ls: seq<string>, starts: seq<nat>) {
    && (starts != [] ==> starts[0] == 0)
    && (forall j, k :: 0 <= j < k < |starts| ==> starts[j] < starts[k])
    && (forall k :: 0 <= k < |starts| ==> starts[k] < |ls| && "- " <= ls[starts[k]])
    && (forall n: nat :: n < |ls| && "- " <= ls[n] ==> n in starts)
  }

  /** An entry for each item. */
  ghost predicate ListedBy(sp: Spaces, ls: seq<string>, starts: seq<nat>, entries: seq<string>) {
    && |starts| == |entries| && StartsIn(ls, starts)
    && forall k :: 0 <= k < |starts| ==> ShowsStripped(sp, RawEntry(ls, starts, k), entries[k])
  }

  /** What the block shows of its lines. */
  ghost predicate ShowsLines(sp: Spaces, lines: seq<string>, b: Placed)
    requires b.first < b.past <= |lines|
  {
    match b.block
    case Fenced(text) => exists close: nat ::
        ClosedAt(lines, b, close) &&
        if close == b.first + 1 then text == "" else Split(text, '\n') == lines[b.first + 1..close]
    case Indented(text) => exists m: nat ::
        b.first < m <= b.past && Split(text, '\n') == lines[b.first..m] && lines[m - 1] != ""
        && forall n :: m <= n < b.past ==> lines[n] == ""
    case Listed(entries) => exists starts :: ListedBy(sp, lines[b.first..b.past], starts, entries)
    case Paragraph(text) =>
      && ShowsStripped(sp, lines[b.first..b.past], text)
      && text != "" && !StartsWithSpace(sp, text) && !EndsWithSpace(sp, text)
  }

  // ------------------------------------------------------------------ stripping

  lemma {:induction false} LStripIs(sp: Spaces, s: string) returns (a: nat)
    ensures a <= |s| && LStrip(sp, s) == s[a..] && AllSpace(sp, s[..a]) && !StartsWithSpace(sp, s[a..])
  {
    a := 0;
    if s != "" && sp.space(s[0]) {
      a := LStripIs(sp, s[1..]);
      assert s[1..][a..] == s[a + 1..];
      assert forall k :: 0 < k <= a ==> s[k] == s[1..][..a][k - 1];
      a := a + 1;
    }
  }

  lemma {:induction false} RStripIs(sp: Spaces, s: string) returns (b: nat)
    ensures b <= |s| && RStrip(sp, s) == s[..b] && AllSpace(sp, s[b..]) && !EndsWithSpace(sp, s[..b])
  {
    b := |s|;
    if s != "" && sp.space(s[|s| - 1]) {
      b := RStripIs(sp, s[..|s| - 1]);
      assert s[..|s| - 1][..b] == s[..b];
      assert forall k :: 0 <= k < |s| - 1 - b ==> s[b..][k] == s[..|s| - 1][b..][k];
    }
  }

  lemma StripIs(sp: Spaces, s: string)
    ensures StripsTo(sp, s, Strip(sp, s))
    ensures Strip(sp, s) == "" <==> AllSpace(sp, s)
  {
    var a := LStripIs(sp, s);
    var n := RStripIs(sp, s[a..]);
    var b := a + n;
    assert s[a..][..n] == s[a..b] && s[a..][n..] == s[b..];
    assert n > 0 ==> s[a..b][0] == s[a..][0];
    assert s[a..b] == "" ==> s == s[..a] + s[b..];
    assert a < b ==> s[a] == s[a..][0];
  }

  lemma {:induction false} WordsOfLStrip(sp: Spaces, s: string)
    ensures WordsOf(sp.space, LStrip(sp, s)) == WordsOf(sp.space, s)
  {
    if s != "" && sp.space(s[0]) { WordsOfLStrip(sp, s[1..]); }
  }

  lemma {:induction false} WordsOfRStrip(sp: Spaces, s: string)
    ensures WordsOf(sp.space, RStrip(sp, s)) == WordsOf(sp.space, s)
  {
    if s != "" && sp.space(s[|s| - 1]) {
      var front, c := s[..|s| - 1], s[|s| - 1];
      WordsOfRStrip(sp, front);
      assert s == front + [c] + "";
      WordsApart(sp.space, front, c, "");
    }
  }

  lemma {:induction false} WordsOfStripped(sp: Spaces, raw: seq<string>)
    ensures WordsOfAll(sp.space, Stripped(sp, raw)) == WordsOfAll(sp.space, raw)
  {
    if raw != [] {
      WordsOfStripped(sp, raw[1..]);
      WordsOfLStrip(sp, raw[0]);
      WordsOfRStrip(sp, LStrip(sp, raw[0]));
      assert Stripped(sp, raw)[1..] == Stripped(sp, raw[1..]);
    }
  }

  /** Where a joined string begins and ends. */
  lemma {:induction false} EndsOfJoined(parts: seq<string>)
    requires parts != []
    ensures var t := Joined(parts, " ");
            && (parts[0] != "" ==> t != "" && t[0] == parts[0][0])
            && (parts[0] == "" && |parts| > 1 ==> t != "" && t[0] == ' ')
            && (parts[|parts| - 1] != "" ==> t != "" && t[|t| - 1] == parts[|parts| - 1][|parts[|parts| - 1]| - 1])
            && (parts[|parts| - 1] == "" && |parts| > 1 ==> t != "" && t[|t| - 1] == ' ')
            && (|parts| == 1 ==> t == parts[0])
  {
    if |parts| > 1 {
      var rest := Joined(parts[1..], " ");
      EndsOfJoined(parts[1..]);
      assert Joined(parts, " ") == parts[0] + " " + rest;
    }
  }

  lemma StrippedShow(sp: Spaces, raw: seq<string>)
    requires sp.space(' ') && raw != []
    ensures ShowsStripped(sp, raw, Joined(Stripped(sp, raw), " "))
  {
    var parts := Stripped(sp, raw);
    forall k | 0 <= k < |raw| ensures StripsTo(sp, raw[k], parts[k]) && (parts[k] == "" <==> AllSpace(sp, raw[k])) {
      StripIs(sp, raw[k]);
    }
    assert StripTo(sp, raw, parts);
    WordsOfJoined(sp.space, parts, ' ');
    WordsOfStripped(sp, raw);
    EndsOfJoined(parts);
    assert !StartsWithSpace(sp, parts[0]) && !EndsWithSpace(sp, parts[|parts| - 1]);
  }

  // ------------------------------------------------------------------ the items of a list

  function ItemStarts(ls: seq<string>): seq<nat> {
    if ls == [] then []
    else ItemStarts(ls[..|ls| - 1]) + if Item(ls[|ls| - 1]) then [|ls| - 1] else []
  }

  lemma OneMoreStart(ls: seq<string>, starts: seq<nat>)
    requires ls != [] && StartsIn(ls[..|ls| - 1], starts) && Item(ls[|ls| - 1]) && (starts == [] ==> |ls| == 1)
    ensures StartsIn(ls, starts + [|ls| - 1])
  {
    var front, all := ls[..|ls| - 1], starts + [|ls| - 1];
    assert all[|starts|] == |ls| - 1;
    forall n: nat | n < |ls| && "- " <= ls[n] ensures n in all {
      if n < |front| { assert "- " <= front[n]; }
    }
  }

  lemma NoMoreStart(ls: seq<string>, starts: seq<nat>)
    requires ls != [] && StartsIn(ls[..|ls| - 1], starts) && !Item(ls[|ls| - 1])
    ensures StartsIn(ls, starts)
  {
    forall n: nat | n < |ls| && "- " <= ls[n] ensures n in starts {
      assert "- " <= ls[..|ls| - 1][n];
    }
  }

  lemma {:induction false} ItemsStart(ls: seq<string>)
    requires ls != [] && Item(ls[0])
    ensures ItemStarts(ls) != [] && StartsIn(ls, ItemStarts(ls))
  {
    var front := ls[..|ls| - 1];
    if front == [] {
      assert StartsIn(front, []);
      OneMoreStart(ls, []);
    } else {
      ItemsStart(front);
      if Item(ls[|ls| - 1]) { OneMoreStart(ls, ItemStarts(front)); } else { NoMoreStart(ls, ItemStarts(front)); }
    }
  }

  ghost predicate EntriesBy(sp: Spaces, ls: seq<string>, starts: seq<nat>, entries: seq<string>) {
    && |starts| == |entries| && StartsIn(ls, starts)
    && forall k :: 0 <= k < |starts| ==> entries[k] == Joined(Stripped(sp, RawEntry(ls, starts, k)), " ")
  }

  lemma StrippedMore(sp: Spaces, raw: seq<string>, line: string)
    requires raw != []
    ensures Joined(Stripped(sp, raw + [line]), " ") == Joined(Stripped(sp, raw), " ") + " " + Strip(sp, line)
  {
    assert Stripped(sp, raw + [line]) == Stripped(sp, raw) + [Strip(sp, line)];
    JoinedWithLast(Stripped(sp, raw), Strip(sp, line), " ");
  }

  /** An entry that the last line does not belong to. */
  lemma EarlierEntry(ls: seq<string>, starts: seq<nat>, more: seq<nat>, k: nat)
    requires ls != [] && StartsIn(ls[..|ls| - 1], starts) && StartsIn(ls, starts + more) && k < |starts|
    requires k + 1 < |starts| || more == [|ls| - 1]
    ensures RawEntry(ls, starts + more, k) == RawEntry(ls[..|ls| - 1], starts, k)
  {
    var front := ls[..|ls| - 1];
    var past := if k + 1 < |starts| then starts[k + 1] else |front|;
    assert front[starts[k] + 1..past] == ls[starts[k] + 1..past];
  }

  lemma LastEntry(ls: seq<string>, starts: seq<nat>)
    requires ls != [] && starts != [] && StartsIn(ls[..|ls| - 1], starts) && StartsIn(ls, starts)
    ensures RawEntry(ls, starts, |starts| - 1) == RawEntry(ls[..|ls| - 1], starts, |starts| - 1) + [ls[|ls| - 1]]
  {
    var front, a := ls[..|ls| - 1], starts[|starts| - 1];
    assert ls[a + 1..] == front[a + 1..] + [ls[|ls| - 1]];
  }

  lemma OneMoreEntry(sp: Spaces, ls: seq<string>, starts: seq<nat>, entries: seq<string>)
    requires ls != [] && EntriesBy(sp, ls[..|ls| - 1], starts, entries)
    requires Item(ls[|ls| - 1]) && StartsIn(ls, starts + [|ls| - 1])
    ensures EntriesBy(sp, ls, starts + [|ls| - 1], entries + [Strip(sp, ls[|ls| - 1][2..])])
  {
    var all := starts + [|ls| - 1];
    forall k | 0 <= k < |starts| ensures RawEntry(ls, all, k) == RawEntry(ls[..|ls| - 1], starts, k) {
      EarlierEntry(ls, starts, [|ls| - 1], k);
    }
    var line := ls[|ls| - 1][2..];
    assert RawEntry(ls, all, |starts|) == [line];
    assert Stripped(sp, [line]) == [Strip(sp, line)];
  }

  lemma LongerEntry(sp: Spaces, ls: seq<string>, starts: seq<nat>, entries: seq<string>)
    requires ls != [] && EntriesBy(sp, ls[..|ls| - 1], starts, entries) && starts != [] && StartsIn(ls, starts)
    ensures var longer := entries[|entries| - 1] + " " + Strip(sp, ls[|ls| - 1]);
            EntriesBy(sp, ls, starts, entries[..|entries| - 1] + [longer])
  {
    var last, front := |starts| - 1, ls[..|ls| - 1];
    forall k | 0 <= k < last ensures RawEntry(ls, starts, k) == RawEntry(front, starts, k) {
      assert starts + [] == starts;
      EarlierEntry(ls, starts, [], k);
    }
    LastEntry(ls, starts);
    StrippedMore(sp, RawEntry(front, starts, last), ls[|ls| - 1]);
  }

  lemma EntriesMore(sp: Spaces, ls: seq<string>, starts: seq<nat>, entries: seq<string>)
    requires ls != [] && EntriesBy(sp, ls[..|ls| - 1], starts, entries)
    requires starts == [] ==> |ls| == 1 && Item(ls[0])
    ensures var line := ls[|ls| - 1];
            EntriesBy(sp, ls, starts + if Item(line) then [|ls| - 1] else [], WithLine(sp, entries, line))
  {
    if Item(ls[|ls| - 1]) {
      OneMoreStart(ls, starts);
      OneMoreEntry(sp, ls, starts, entries);
    } else {
      NoMoreStart(ls, starts);
      LongerEntry(sp, ls, starts, entries);
      assert starts + [] == starts;
    }
  }

  lemma {:induction false} EntriesAreBy(sp: Spaces, ls: seq<string>)
    requires ls == [] || Item(ls[0])
    ensures EntriesBy(sp, ls, ItemStarts(ls), Entries(sp, ls))
  {
    if ls != [] {
      var front := ls[..|ls| - 1];
      EntriesAreBy(sp, front);
      if front != [] { ItemsStart(front); }
      EntriesMore(sp, ls, ItemStarts(front), Entries(sp, front));
    }
  }

  lemma EntriesAreListed(sp: Spaces, ls: seq<string>)
    requires ls != [] && Item(ls[0]) && sp.space(' ')
    ensures ListedBy(sp, ls, ItemStarts(ls), Entries(sp, ls))
  {
    EntriesAreBy(sp, ls);
    forall k | 0 <= k < |ItemStarts(ls)|
      ensures ShowsStripped(sp, RawEntry(ls, ItemStarts(ls), k), Entries(sp, ls)[k])
    {
      StrippedShow(sp, RawEntry(ls, ItemStarts(ls), k));
    }
  }

  /** An entry can end with a space: an item, and a blank line of two spaces under it. */
  lemma EntryEndsWithSpace(sp: Spaces)
    requires sp.space(' ') && !sp.space('a')
    ensures Entries(sp, ["- a", "  "]) == ["a "]
  {
    var ls := ["- a", "  "];
    assert ls[..1] == ["- a"] && ["- a"][..0] == [];
    assert "- a"[2..] == "a" && "  "[1..] == " " && " "[1..] == "";
    assert LStrip(sp, "  ") == LStrip(sp, " ") == "";
    assert Strip(sp, "a") == "a" && Strip(sp, "  ") == "";
    assert Entries(sp, ["- a"]) == ["a"];
    assert "a" + " " + "" == "a ";
  }

  // ------------------------------------------------------------------ the lines of code

  ghost predicate Unbroken(ls: seq<string>) {
    forall n :: 0 <= n < |ls| ==> '\n' !in ls[n]
  }

  /** Taking line ends off the end takes off the empty lines there. */
  lemma {:induction false} WithoutEmptyEnd(ls: seq<string>) returns (m: nat)
    requires ls != [] && Unbroken(ls) && ls[0] != ""
    ensures 0 < m <= |ls| && ls[m - 1] != "" && forall n :: m <= n < |ls| ==> ls[n] == ""
    ensures RStripNewlines(Joined(ls, "\n")) == Joined(ls[..m], "\n")
  {
    var front, last := ls[..|ls| - 1], ls[|ls| - 1];
    var t := Joined(ls, "\n");
    if front != [] {
      assert ls == front + [last];
      JoinedWithLast(front, last, "\n");
    }
    if last != "" {
      m := |ls|;
      assert t[|t| - 1] == last[|last| - 1] && last[|last| - 1] in last;
      assert ls[..m] == ls;
    } else {
      m := WithoutEmptyEnd(front);
      assert t[..|t| - 1] == Joined(front, "\n") && front[..m] == ls[..m];
    }
  }

  /** Of the lines from first to past, m are left. */
  lemma LeftOfCode(lines: seq<string>, first: nat, past: nat, m: nat)
    requires first < past <= |lines| && 0 < m <= past - first && lines[first..past][m - 1] != ""
    requires forall n :: m <= n < past - first ==> lines[first..past][n] == ""
    ensures lines[first..past][..m] == lines[first..first + m] && lines[first + m - 1] != ""
    ensures forall n :: first + m <= n < past ==> lines[n] == ""
  {
    assert forall n :: first <= n < past ==> lines[n] == lines[first..past][n - first];
  }

  lemma CodeShows(sp: Spaces, lines: seq<string>, b: Placed)
    requires Unbroken(lines) && IsBlock(sp, lines, b) && b.block.Indented?
    ensures ShowsLines(sp, lines, b)
  {
    var ls := lines[b.first..b.past];
    assert ls[0] == lines[b.first];
    var m := WithoutEmptyEnd(ls);
    SplitOfJoined(ls[..m], '\n');
    LeftOfCode(lines, b.first, b.past, m);
  }

  lemma FencedCodeShows(sp: Spaces, lines: seq<string>, b: Placed)
    requires Unbroken(lines) && IsBlock(sp, lines, b) && b.block.Fenced?
    ensures ShowsLines(sp, lines, b)
  {
    var close: nat :| ClosedAt(lines, b, close) && b.block.text == Joined(lines[b.first + 1..close], "\n");
    if close > b.first + 1 { SplitOfJoined(lines[b.first + 1..close], '\n'); }
  }

  lemma ParagraphEnds(sp: Spaces, ls: seq<string>)
    requires ls != [] && !Blank(sp, ls[0]) && !Blank(sp, ls[|ls| - 1])
    ensures Joined(Stripped(sp, ls), " ") != "" && !AllSpace(sp, ls[0]) && !AllSpace(sp, ls[|ls| - 1])
  {
    EndsOfJoined(Stripped(sp, ls));
    StripIs(sp, ls[0]);
    StripIs(sp, ls[|ls| - 1]);
  }

  lemma ParagraphReads(sp: Spaces, lines: seq<string>, b: Placed)
    requires sp.space(' ') && IsBlock(sp, lines, b) && b.block.Paragraph?
    ensures ShowsLines(sp, lines, b)
  {
    var ls := lines[b.first..b.past];
    assert GoesOn(sp, ParaRun, lines[b.past - 1]);
    assert ls[0] == lines[b.first] && ls[|ls| - 1] == lines[b.past - 1];
    StrippedShow(sp, ls);
    ParagraphEnds(sp, ls);
  }

  /** Read off the lines alone: code keeps its lines, and the words of a paragraph or of a list's entry are those of its
      lines, stripped and a space apart. */
  lemma BlockReadsItsLines(sp: Spaces, lines: seq<string>, b: Placed)
    requires sp.space(' ') && Unbroken(lines) && IsBlock(sp, lines, b)
    ensures ShowsLines(sp, lines, b)
  {
    match b.block {
      case Fenced(_) => FencedCodeShows(sp, lines, b);
      case Indented(_) => CodeShows(sp, lines, b);
      case Listed(_) => EntriesAreListed(sp, lines[b.first..b.past]);
      case Paragraph(_) => ParagraphReads(sp, lines, b);
    }
  }

  // ------------------------------------------------------------------ the page

  /** Splits the text into lines and the lines into blocks, in the one way there is. */
  method Markdown(sp: Spaces, text: string) returns (lines: seq<string>, out: seq<Placed>)
    requires sp.space(' ')
    ensures lines == Split(text, '\n') && Joined(lines, "\n") == text
    ensures IsReading(sp, lines, 0, |lines|, out)
    ensures forall k :: 0 <= k < |out| ==> out[k].first < out[k].past <= |lines| && ShowsLines(sp, lines, out[k])
  {
    lines := Split(text, '\n');
    JoinedOfSplit(text, '\n');
    out := [];
    var i := 0;
    while i < |lines|
      invariant i <= |lines| && IsReading(sp, lines, 0, i, out)
    {
      i, out := TakeNext(sp, lines, i, out);
    }
    forall k | 0 <= k < |out| ensures out[k].first < out[k].past <= |lines| && ShowsLines(sp, lines, out[k]) {
      EachIsABlock(sp, lines, 0, |lines|, out, k);
      BlockReadsItsLines(sp, lines, out[k]);
    }
  }
}
