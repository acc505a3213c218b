/** The guide's syntax highlighter: whatever it is given, a reader of its page sees exactly the source, each character
    in the colours of the token it belongs to. */
module Highlighter {
  import opened Wrappers
  import opened Tokenizer

  // ------------------------------------------------------------------ reading a page

  /** A character shown, and the classes of the spans around it, the innermost last. */
  datatype Cell = Cell(c: char, classes: seq<string>)

  function Prepend<T>(t: seq<T>, r: Option<seq<T>>): Option<seq<T>> {
    if r.Some? then Some(t + r.value) else None
  }

  /** What follows the tag that opens a span, with the span's class: the name up to the closing quote. */
  function Opened(h: string): (r: Option<(string, string)>)
    ensures r.Some? ==> |r.value.1| < |h|
  {
    if "<span class=\"" <= h then
      var n := RunEnd(h, 13, (c: char) => c != '"');
      if n + 1 < |h| && h[n + 1] == '>' then Some((h[13..n], h[n + 2..])) else None
    else None
  }

  /** The characters a page shows within the spans around it, if all spans are closed in turn and every escape is
      known. */
  function Seen(h: string, around: seq<string>): Option<seq<Cell>>
    decreases |h|
  {
    if h == "" then (if around == [] then Some([]) else None)
    else if "</span>" <= h then (if around != [] then Seen(h[7..], around[..|around| - 1]) else None)
    else if h[0] == '<' then
      var tag := Opened(h);
      if tag.Some? then Seen(tag.value.1, around + [tag.value.0]) else None
    else if h[0] == '&' then
      if "&amp;" <= h then Prepend([Cell('&', around)], Seen(h[5..], around))
      else if "&lt;" <= h then Prepend([Cell('<', around)], Seen(h[4..], around))
      else if "&gt;" <= h then Prepend([Cell('>', around)], Seen(h[4..], around))
      else if "&quot;" <= h then Prepend([Cell('"', around)], Seen(h[6..], around))
      else if "&#x27;" <= h then Prepend([Cell('\'', around)], Seen(h[6..], around))
      else None
    else Prepend([Cell(h[0], around)], Seen(h[1..], around))
  }

  /** The text, all in the same spans. */
  function Painted(t: string, around: seq<string>): (cells: seq<Cell>)
    ensures |cells| == |t|
  {
    seq(|t|, k requires 0 <= k < |t| => Cell(t[k], around))
  }

  // ------------------------------------------------------------------ what is to be seen

  datatype Vocabulary = Vocabulary(keywords: set<string>, types: set<string>, prelude: set<string>)

  predicate DiagChar(c: char) { LowerOrDigit(c) || c == '-' }

  lemma DiagCharIs(c: char)
    ensures DiagChar(c) <==> c in {'a', 'b', 'c', 'd', 'e', 'f', 'g', 'h', 'i', 'j', 'k', 'l', 'm', 'n', 'o', 'p', 'q',
                                   'r', 's', 't', 'u', 'v', 'w', 'x', 'y', 'z', '0', '1', '2', '3', '4', '5', '6', '7',
                                   '8', '9', '-'}
  {
  }

  /** A name of a diagnostic begins at a: the word, a point, and at least one more character. */
  ghost predicate NameAt(text: string, a: nat) {
    a + 5 < |text| && text[a..a + 5] == "diag." && DiagChar(text[a + 5])
  }

  /** And reaches k. */
  ghost predicate NameReaches(text: string, a: nat, k: nat) {
    && a <= k < |text| && NameAt(text, a)
    && forall m :: a + 5 <= m <= k ==> DiagChar(text[m])
  }

  /** It is found from left to right: no name found before reaches where it begins. */
  ghost predicate NameFound(text: string, a: nat)
    decreases a
  {
    NameAt(text, a) && forall b: nat :: b < a && NameFound(text, b) ==> !NameReaches(text, b, a)
  }

  /** The classes around character k of a token. */
  ghost function ClassesAt(v: Vocabulary, kind: Kind, text: string, k: nat): seq<string>
    requires k < |text|
  {
    match kind
    case Comment =>
      if text[k] == '\U{2713}' then ["c", "ok"]
      else if text[k] == '\U{2717}' then ["c", "bad"]
      else if exists a: nat :: NameFound(text, a) && NameReaches(text, a, k) then ["c", "dg"]
      else ["c"]
    case Text => ["s"]
    case Number => ["n"]
    case Ident =>
      if text in v.keywords then ["k"] else if text in v.types then ["t"] else if text in v.prelude then ["p"] else []
    case Other => []
  }

  ghost predicate TokenColoured(v: Vocabulary, kind: Kind, text: string, cells: seq<Cell>) {
    |cells| == |text| && forall k :: 0 <= k < |text| ==> cells[k] == Cell(text[k], ClassesAt(v, kind, text, k))
  }

  /** From i on, where a token begins: the first alternative's longest match, in its colours, and so on from its end. */
  ghost predicate Coloured(v: Vocabulary, cl: Classes, src: string, i: nat, cells: seq<Cell>)
    decreases |src| - i
  {
    if i >= |src| then cells == []
    else exists kind: Kind, j: nat ::
        && FirstLongest(cl, src, i, kind, j) && j - i <= |cells|
        && TokenColoured(v, kind, src[i..j], cells[..j - i])
        && Coloured(v, cl, src, j, cells[j - i..])
  }

  /** The page's spans are closed in turn, and it shows the source exactly, every character in the colours of the token
      it belongs to. */
  ghost predicate Highlights(v: Vocabulary, cl: Classes, src: string, page: string) {
    var seen := Seen(page, []);
    seen.Some? && TextOf(seen.value) == src && Coloured(v, cl, src, 0, seen.value)
  }

  function TextOf(cells: seq<Cell>): string {
    seq(|cells|, k requires 0 <= k < |cells| => cells[k].c)
  }

  lemma TextJoins(cells: seq<Cell>, n: nat, a: string, b: string)
    requires n <= |cells| && TextOf(cells[n..]) == b
    requires |a| == n && forall k :: 0 <= k < n ==> cells[..n][k].c == a[k]
    ensures TextOf(cells) == a + b
  {
    forall k | 0 <= k < |cells| ensures cells[k].c == (a + b)[k] {
      if k < n { assert cells[k] == cells[..n][k]; } else { assert cells[n..][k - n].c == TextOf(cells[n..])[k - n]; }
    }
  }

  lemma {:induction false} ColouredSpells(v: Vocabulary, cl: Classes, src: string, i: nat, cells: seq<Cell>)
    requires i <= |src| && Coloured(v, cl, src, i, cells)
    ensures TextOf(cells) == src[i..]
    decreases |src| - i
  {
    if i < |src| {
      var kind: Kind, j: nat :| FirstLongest(cl, src, i, kind, j) && j - i <= |cells|
        && TokenColoured(v, kind, src[i..j], cells[..j - i]) && Coloured(v, cl, src, j, cells[j - i..]);
      ColouredSpells(v, cl, src, j, cells[j - i..]);
      TextJoins(cells, j - i, src[i..j], src[j..]);
      assert src[i..] == src[i..j] + src[j..];
    }
  }

  // ------------------------------------------------------------------ escaping

  function EscapedChar(c: char): string {
    if c == '&' then "&amp;"
    else if c == '<' then "&lt;"
    else if c == '>' then "&gt;"
    else if c == '"' then "&quot;"
    else if c == '\'' then "&#x27;"
    else [c]
  }

  function Escaped(s: string): string {
    if s == "" then "" else EscapedChar(s[0]) + Escaped(s[1..])
  }

  /** No entity but its own begins with an escaped character's second letter. */
  lemma EntitiesDiffer(h: string)
    requires |h| > 1
    ensures h[1] != 'a' ==> !("&amp;" <= h)
    ensures h[1] != 'l' ==> !("&lt;" <= h)
    ensures h[1] != 'g' ==> !("&gt;" <= h)
    ensures h[1] != 'q' ==> !("&quot;" <= h)
  {
    assert "&amp;"[1] == 'a' && "&lt;"[1] == 'l' && "&gt;"[1] == 'g' && "&quot;"[1] == 'q';
  }

  lemma SeenChar(c: char, rest: string, around: seq<string>)
    ensures Seen(EscapedChar(c) + rest, around) == Prepend([Cell(c, around)], Seen(rest, around))
  {
    var e := EscapedChar(c);
    var h := e + rest;
    assert h[|e|..] == rest && e <= h && h[0] == e[0] && "</span>"[0] == '<';
    if |e| > 1 {
      assert h[1] == e[1];
      EntitiesDiffer(h);
    }
  }

  lemma PrependNothing<T>(r: Option<seq<T>>)
    ensures Prepend([], r) == r
  {
    if r.Some? { assert [] + r.value == r.value; }
  }

  lemma PrependJoins<T>(a: seq<T>, b: seq<T>, r: Option<seq<T>>)
    ensures Prepend(a, Prepend(b, r)) == Prepend(a + b, r)
  {
    if r.Some? {
      assert a + (b + r.value) == a + b + r.value;
    }
  }

  /** What is seen as a, followed by what is seen as b, is seen as a + b. */
  lemma SeenInTurn(a: seq<Cell>, x: string, b: seq<Cell>, y: string, rest: string, around: seq<string>)
    requires Seen(x + (y + rest), around) == Prepend(a, Seen(y + rest, around))
    requires Seen(y + rest, around) == Prepend(b, Seen(rest, around))
    ensures Seen(x + y + rest, around) == Prepend(a + b, Seen(rest, around))
  {
    assert x + y + rest == x + (y + rest);
    PrependJoins(a, b, Seen(rest, around));
  }

  lemma {:induction false} SeenEscaped(t: string, rest: string, around: seq<string>)
    ensures Seen(Escaped(t) + rest, around) == Prepend(Painted(t, around), Seen(rest, around))
  {
    if t == "" {
      assert Escaped(t) + rest == rest;
      PrependNothing(Seen(rest, around));
    } else {
      SeenChar(t[0], Escaped(t[1..]) + rest, around);
      SeenEscaped(t[1..], rest, around);
      SeenInTurn([Cell(t[0], around)], EscapedChar(t[0]), Painted(t[1..], around), Escaped(t[1..]), rest, around);
      assert Painted(t, around) == [Cell(t[0], around)] + Painted(t[1..], around);
    }
  }

  // ------------------------------------------------------------------ spans

  const CLOSE := "</span>"

  function Opening(className: string): string {
    "<span class=\"" + className + "\">"
  }

  function Spanned(className: string, inner: string): string {
    Opening(className) + inner + CLOSE
  }

  lemma SeenOpening(className: string, rest: string, around: seq<string>)
    requires '"' !in className
    ensures Seen(Opening(className) + rest, around) == Seen(rest, around + [className])
  {
    var h, n := Opening(className) + rest, 13 + |className|;
    assert h[..13] == "<span class=\"" && h[13..n] == className && h[n] == '"' && h[n + 1] == '>' && h[n + 2..] == rest;
    forall k | 13 <= k < n ensures h[k] != '"' { assert h[k] == h[13..n][k - 13] && h[13..n][k - 13] in className; }
    RunEndIs(h, 13, n, (c: char) => c != '"');
    assert h[0] == '<' && h[1] == 's' && "</span>"[1] == '/';
  }

  lemma SeenClose(rest: string, around: seq<string>, className: string)
    ensures Seen(CLOSE + rest, around + [className]) == Seen(rest, around)
  {
    var h, more := CLOSE + rest, around + [className];
    assert "</span>" <= h && h[7..] == rest && more[..|more| - 1] == around;
  }

  /** What is seen inside a span is seen with the span around it. */
  lemma SeenSpanned(className: string, inner: string, cells: seq<Cell>, rest: string, around: seq<string>)
    requires '"' !in className
    requires var inside := around + [className];
             Seen(inner + (CLOSE + rest), inside) == Prepend(cells, Seen(CLOSE + rest, inside))
    ensures Seen(Spanned(className, inner) + rest, around) == Prepend(cells, Seen(rest, around))
  {
    assert Spanned(className, inner) + rest == Opening(className) + (inner + (CLOSE + rest));
    SeenOpening(className, inner + (CLOSE + rest), around);
    SeenClose(rest, around, className);
  }

  lemma SeenSpannedText(className: string, t: string, rest: string, around: seq<string>)
    requires '"' !in className
    ensures Seen(Spanned(className, Escaped(t)) + rest, around)
         == Prepend(Painted(t, around + [className]), Seen(rest, around))
  {
    SeenEscaped(t, CLOSE + rest, around + [className]);
    SeenSpanned(className, Escaped(t), Painted(t, around + [className]), rest, around);
  }

  // ------------------------------------------------------------------ comments

  const TICK: char := '\U{2713}'
  const CROSS: char := '\U{2717}'

  /** Every `c` replaced. */
  function Replaced(h: string, c: char, with: string): string {
    if h == "" then "" else (if h[0] == c then with else [h[0]]) + Replaced(h[1..], c, with)
  }

  /** A diagnostic's name at the start of h: the word, a point, and at least one more character. */
  predicate NamesDiag(h: string) {
    "diag." <= h && |h| > 5 && DiagChar(h[5])
  }

  /** Every diagnostic's name in a span, found from left to right. */
  function DiagsMarked(h: string): string
    decreases |h|
  {
    if h == "" then ""
    else if NamesDiag(h) then
      var n := RunEnd(h, 5, DiagChar);
      Spanned("dg", h[..n]) + DiagsMarked(h[n..])
    else [h[0]] + DiagsMarked(h[1..])
  }

  /** The comment as it is written: escaped, then rewritten three times. */
  function CommentHtml(text: string): string {
    var t := Escaped(text);
    var t' := Replaced(t, TICK, Spanned("ok", [TICK]));
    var t'' := Replaced(t', CROSS, Spanned("bad", [CROSS]));
    Spanned("c", DiagsMarked(t''))
  }

  /** The same read off the source, one character or one name at a time. */
  function Block(c: char): string {
    if c == TICK then Spanned("ok", [c])
    else if c == CROSS then Spanned("bad", [c])
    else EscapedChar(c)
  }

  function Blocks(text: string): string {
    if text == "" then "" else Block(text[0]) + Blocks(text[1..])
  }

  function BlocksAndNames(text: string): string
    decreases |text|
  {
    if text == "" then ""
    else if NamesDiag(text) then
      var n := RunEnd(text, 5, DiagChar);
      Spanned("dg", text[..n]) + BlocksAndNames(text[n..])
    else Block(text[0]) + BlocksAndNames(text[1..])
  }

  lemma {:induction false} ReplacedAppend(a: string, b: string, c: char, with: string)
    ensures Replaced(a + b, c, with) == Replaced(a, c, with) + Replaced(b, c, with)
  {
    if a == "" {
      assert a + b == b;
    } else {
      assert (a + b)[1..] == a[1..] + b;
      ReplacedAppend(a[1..], b, c, with);
    }
  }

  lemma {:induction false} ReplacedNothing(h: string, c: char, with: string)
    requires c !in h
    ensures Replaced(h, c, with) == h
  {
    if h != "" { ReplacedNothing(h[1..], c, with); }
  }

  lemma ReplacedAlone(c: char, with: string)
    ensures Replaced([c], c, with) == with
  {
    assert [c][1..] == "" && with + "" == with;
  }

  lemma MarksDoNotMeet(c: char)
    ensures CROSS !in Spanned("ok", [TICK])
    ensures c != TICK ==> TICK !in EscapedChar(c)
    ensures c != CROSS ==> CROSS !in EscapedChar(c)
  {
  }

  lemma BothReplaced(c: char)
    ensures Replaced(Replaced(EscapedChar(c), TICK, Spanned("ok", [TICK])), CROSS, Spanned("bad", [CROSS])) == Block(c)
  {
    TwoReplaced(c, Spanned("ok", [TICK]), Spanned("bad", [CROSS]));
  }

  lemma TwoReplaced(c: char, ok: string, bad: string)
    requires CROSS !in ok
    ensures Replaced(Replaced(EscapedChar(c), TICK, ok), CROSS, bad) ==
            if c == TICK then ok else if c == CROSS then bad else EscapedChar(c)
  {
    MarksDoNotMeet(c);
    var e := EscapedChar(c);
    if c == TICK {
      ReplacedAlone(TICK, ok);
      ReplacedNothing(ok, CROSS, bad);
    } else {
      ReplacedNothing(e, TICK, ok);
      if c == CROSS { ReplacedAlone(CROSS, bad); } else { ReplacedNothing(e, CROSS, bad); }
    }
  }

  /** The marks can be put in character by character. */
  lemma {:induction false} ReplacedIsBlocks(text: string)
    ensures Replaced(Replaced(Escaped(text), TICK, Spanned("ok", [TICK])), CROSS, Spanned("bad", [CROSS]))
         == Blocks(text)
  {
    if text != "" {
      var e, r := EscapedChar(text[0]), Escaped(text[1..]);
      ReplacedAppend(e, r, TICK, Spanned("ok", [TICK]));
      ReplacedAppend(Replaced(e, TICK, Spanned("ok", [TICK])), Replaced(r, TICK, Spanned("ok", [TICK])), CROSS,
                     Spanned("bad", [CROSS]));
      BothReplaced(text[0]);
      ReplacedIsBlocks(text[1..]);
    }
  }

  // ------------------------------------------------------------------ names found after the marks

  /** A character that passes through unchanged. */
  predicate Plain(c: char) { Block(c) == [c] }

  lemma PlainChars(c: char)
    ensures DiagChar(c) || c == '.' ==> Plain(c)
    ensures !Plain(c) ==> !DiagChar(Block(c)[0]) && Block(c)[0] != '.'
  {
  }

  lemma PrefixStep(word: string, h: string)
    requires word != "" && h != ""
    ensures word <= h <==> word[0] == h[0] && word[1..] <= h[1..]
  {
    if word[0] == h[0] && word[1..] <= h[1..] {
      assert forall k :: 0 < k < |word| ==> word[k] == word[1..][k - 1] && h[k] == h[1..][k - 1];
    }
  }

  /** A plain word begins the rewritten text just when it begins the text. */
  lemma {:induction false} WordShinesThrough(word: string, text: string)
    requires forall k :: 0 <= k < |word| ==> DiagChar(word[k]) || word[k] == '.'
    ensures word <= Blocks(text) <==> word <= text
  {
    if word != "" && text != "" {
      var b := Blocks(text);
      PlainChars(text[0]);
      PlainChars(word[0]);
      WordShinesThrough(word[1..], text[1..]);
      PrefixStep(word, text);
      PrefixStep(word, b);
      assert b[0] == Block(text[0])[0];
      if Plain(text[0]) {
        assert b[1..] == Blocks(text[1..]);
      }
    }
  }

  lemma Regrouped(a: string, b: string, c: string)
    ensures a + (b + c) == (a + b) + c
  {
  }

  lemma PlainFirst(text: string)
    requires text != "" && Plain(text[0])
    ensures Blocks(text) == [text[0]] + Blocks(text[1..])
  {
  }

  lemma FirstOfStart(text: string, n: nat)
    requires 0 < n <= |text|
    ensures text[1..][n - 1..] == text[n..] && [text[0]] + text[1..][..n - 1] == text[..n]
  {
  }

  lemma {:induction false} PlainStart(text: string, n: nat)
    requires n <= |text| && forall k :: 0 <= k < n ==> Plain(text[k])
    ensures Blocks(text) == text[..n] + Blocks(text[n..])
  {
    if n == 0 {
      assert text[0..] == text && text[..0] == "";
    } else {
      PlainFirst(text);
      PlainStart(text[1..], n - 1);
      FirstOfStart(text, n);
      Regrouped([text[0]], text[1..][..n - 1], Blocks(text[1..][n - 1..]));
    }
  }

  lemma {:induction false} PlainIsNotEscaped(text: string)
    requires forall k :: 0 <= k < |text| ==> EscapedChar(text[k]) == [text[k]]
    ensures Escaped(text) == text
  {
    if text != "" { PlainIsNotEscaped(text[1..]); }
  }

  lemma NameBegins(h: string)
    requires NamesDiag(h)
    ensures "diag." + [h[5]] <= h
  {
  }

  lemma NamesShineThrough(text: string)
    ensures NamesDiag(Blocks(text)) <==> NamesDiag(text)
  {
    var b := Blocks(text);
    if NamesDiag(b) {
      NameBegins(b);
      WordShinesThrough("diag." + [b[5]], text);
    }
    if NamesDiag(text) {
      NameBegins(text);
      WordShinesThrough("diag." + [text[5]], text);
    }
  }

  lemma NameIsPlain(text: string)
    requires NamesDiag(text)
    ensures forall k :: 0 <= k < RunEnd(text, 5, DiagChar) ==> Plain(text[k])
  {
    forall k | 0 <= k < RunEnd(text, 5, DiagChar) ensures Plain(text[k]) {
      assert k < 5 ==> text[k] == "diag."[k];
      PlainChars(text[k]);
    }
  }

  /** And as far as in the text. */
  lemma NameShinesThrough(text: string) returns (n: nat)
    requires NamesDiag(text)
    ensures NamesDiag(Blocks(text))
    ensures n == RunEnd(text, 5, DiagChar) == RunEnd(Blocks(text), 5, DiagChar)
    ensures forall k :: 0 <= k < n ==> Plain(text[k])
    ensures Blocks(text)[..n] == text[..n] && Blocks(text)[n..] == Blocks(text[n..])
  {
    NamesShineThrough(text);
    n := RunEnd(text, 5, DiagChar);
    NameIsPlain(text);
    PlainStart(text, n);
    var b := Blocks(text);
    assert b[..n] == text[..n] && b[n..] == Blocks(text[n..]);
    assert forall k :: 0 <= k < n ==> b[k] == text[..n][k];
    if n < |text| {
      PlainChars(text[n]);
      assert b[n] == Blocks(text[n..])[0] == Block(text[n])[0];
    }
    RunEndIs(b, 5, n, DiagChar);
  }

  /** No name begins inside a block of several characters, whatever follows it. */
  ghost predicate Quiet(b: string) {
    forall k :: 0 <= k < |b| && b[k] == 'd' ==> k + 1 < |b| && b[k + 1] != 'i'
  }

  lemma MarksAreQuiet()
    ensures Quiet(Spanned("ok", [TICK])) && Quiet(Spanned("bad", [CROSS]))
  {
    assert Spanned("ok", [TICK]) == "<span class=\"ok\">" + [TICK] + "</span>";
    assert Spanned("bad", [CROSS]) == "<span class=\"bad\">" + [CROSS] + "</span>";
  }

  lemma BlocksAreQuiet(c: char)
    ensures !Plain(c) ==> Quiet(Block(c))
  {
    MarksAreQuiet();
  }

  lemma NotNamed(h: string)
    requires h != "" && (h[0] != 'd' || (|h| > 1 && h[1] != 'i'))
    ensures !NamesDiag(h)
  {
    assert "diag."[0] == 'd' && "diag."[1] == 'i';
  }

  lemma {:induction false} QuietPasses(b: string, rest: string)
    requires Quiet(b)
    ensures DiagsMarked(b + rest) == b + DiagsMarked(rest)
  {
    if b == "" {
      assert b + rest == rest;
    } else {
      var h := b + rest;
      assert h[0] == b[0] && (|b| > 1 ==> h[1] == b[1]);
      NotNamed(h);
      assert h[1..] == b[1..] + rest;
      assert forall k :: 0 <= k < |b[1..]| ==> b[1..][k] == b[k + 1];
      QuietPasses(b[1..], rest);
      Regrouped([b[0]], b[1..], DiagsMarked(rest));
      assert b == [b[0]] + b[1..];
    }
  }

  /** The three rewritings in turn do what is read off the source. */
  lemma {:induction false} RewritingIsLocal(text: string)
    ensures DiagsMarked(Blocks(text)) == BlocksAndNames(text)
    decreases |text|
  {
    if text != "" {
      NamesShineThrough(text);
      if NamesDiag(text) {
        var n := NameShinesThrough(text);
        RewritingIsLocal(text[n..]);
      } else {
        RewritingIsLocal(text[1..]);
        BlocksAreQuiet(text[0]);
        if Plain(text[0]) {
          assert Blocks(text)[1..] == Blocks(text[1..]);
        } else {
          QuietPasses(Block(text[0]), Blocks(text[1..]));
        }
      }
    }
  }

  lemma PlainNames(text: string, n: nat)
    requires n <= |text| && forall k :: 0 <= k < n ==> Plain(text[k])
    ensures forall k :: 0 <= k < n ==> EscapedChar(text[..n][k]) == [text[..n][k]]
  {
    forall k | 0 <= k < n ensures EscapedChar(text[..n][k]) == [text[..n][k]] {
      PlainIsSingle(text[k]);
    }
  }

  lemma PlainIsSingle(c: char)
    requires Plain(c)
    ensures EscapedChar(c) == [c]
  {
  }

  // ------------------------------------------------------------------ a comment as it is seen

  /** What is seen of a rewritten comment, one character or one name at a time. */
  function CommentCells(text: string, around: seq<string>): seq<Cell>
    decreases |text|
  {
    if text == "" then []
    else if NamesDiag(text) then
      var n := RunEnd(text, 5, DiagChar);
      Painted(text[..n], around + ["dg"]) + CommentCells(text[n..], around)
    else [BlockCell(text[0], around)] + CommentCells(text[1..], around)
  }

  function BlockCell(c: char, around: seq<string>): Cell {
    if c == TICK then Cell(c, around + ["ok"]) else if c == CROSS then Cell(c, around + ["bad"]) else Cell(c, around)
  }

  lemma SeenBlock(c: char, rest: string, around: seq<string>)
    ensures Seen(Block(c) + rest, around) == Prepend([BlockCell(c, around)], Seen(rest, around))
  {
    if c == TICK || c == CROSS {
      var className := if c == TICK then "ok" else "bad";
      PlainIsNotEscaped([c]);
      SeenSpannedText(className, [c], rest, around);
      assert Painted([c], around + [className]) == [Cell(c, around + [className])];
    } else {
      SeenChar(c, rest, around);
    }
  }

  lemma SeenName(text: string, rest: string, around: seq<string>) returns (n: nat)
    requires NamesDiag(text)
    ensures 0 < n <= |text| && n == RunEnd(text, 5, DiagChar)
    ensures Seen(Spanned("dg", text[..n]) + rest, around)
         == Prepend(Painted(text[..n], around + ["dg"]), Seen(rest, around))
  {
    n := NameShinesThrough(text);
    PlainNames(text, n);
    PlainIsNotEscaped(text[..n]);
    SeenSpannedText("dg", text[..n], rest, around);
  }

  lemma {:induction false} SeenRewritten(text: string, rest: string, around: seq<string>)
    ensures Seen(BlocksAndNames(text) + rest, around) == Prepend(CommentCells(text, around), Seen(rest, around))
    decreases |text|
  {
    if text == "" {
      assert BlocksAndNames(text) + rest == rest;
      PrependNothing(Seen(rest, around));
    } else if NamesDiag(text) {
      SeenRewritten(text[RunEnd(text, 5, DiagChar)..], rest, around);
      SeenNameFirst(text, rest, around);
    } else {
      SeenRewritten(text[1..], rest, around);
      SeenBlockFirst(text, rest, around);
    }
  }

  lemma SeenNameFirst(text: string, rest: string, around: seq<string>)
    requires NamesDiag(text)
    requires var more := text[RunEnd(text, 5, DiagChar)..];
             Seen(BlocksAndNames(more) + rest, around) == Prepend(CommentCells(more, around), Seen(rest, around))
    ensures Seen(BlocksAndNames(text) + rest, around) == Prepend(CommentCells(text, around), Seen(rest, around))
  {
    var n := RunEnd(text, 5, DiagChar);
    var y, cells := BlocksAndNames(text[n..]), CommentCells(text[n..], around);
    n := SeenName(text, y + rest, around);
    SeenInTurn(Painted(text[..n], around + ["dg"]), Spanned("dg", text[..n]), cells, y, rest, around);
  }

  lemma SeenBlockFirst(text: string, rest: string, around: seq<string>)
    requires text != "" && !NamesDiag(text)
    requires Seen(BlocksAndNames(text[1..]) + rest, around)
          == Prepend(CommentCells(text[1..], around), Seen(rest, around))
    ensures Seen(BlocksAndNames(text) + rest, around) == Prepend(CommentCells(text, around), Seen(rest, around))
  {
    var y, cells := BlocksAndNames(text[1..]), CommentCells(text[1..], around);
    SeenBlock(text[0], y + rest, around);
    SeenInTurn([BlockCell(text[0], around)], Block(text[0]), cells, y, rest, around);
  }

  lemma SeenComment(text: string, rest: string, around: seq<string>)
    ensures Seen(CommentHtml(text) + rest, around) == Prepend(CommentCells(text, around + ["c"]), Seen(rest, around))
  {
    ReplacedIsBlocks(text);
    RewritingIsLocal(text);
    SeenRewritten(text, CLOSE + rest, around + ["c"]);
    SeenSpanned("c", BlocksAndNames(text), CommentCells(text, around + ["c"]), rest, around);
  }

  // ------------------------------------------------------------------ which names are found

  lemma NameIsAt(text: string, i: nat)
    requires i <= |text|
    ensures NamesDiag(text[i..]) <==> NameAt(text, i)
  {
    if i + 5 < |text| {
      assert text[i..][..5] == text[i..i + 5] && text[i..][5] == text[i + 5];
    }
  }

  /** It reaches as far as it is marked. */
  lemma NameReachesIts(text: string, i: nat, k: nat)
    requires i <= k < |text| && NameAt(text, i) && NamesDiag(text[i..])
    ensures NameReaches(text, i, k) <==> k < i + RunEnd(text[i..], 5, DiagChar)
  {
    var n := RunEnd(text[i..], 5, DiagChar);
    forall m | i + 5 <= m <= k
      ensures m < i + n ==> DiagChar(text[m])
      ensures m == i + n ==> !DiagChar(text[m])
    {
      assert text[m] == text[i..][m - i];
    }
  }

  /** No name found before i reaches it. */
  ghost predicate Fresh(text: string, i: nat) {
    forall b: nat :: b < i && NameFound(text, b) ==> !NameReaches(text, b, i)
  }

  lemma ReachesLess(text: string, b: nat, i: nat, k: nat)
    requires NameReaches(text, b, k) && b <= i <= k
    ensures NameReaches(text, b, i)
  {
  }

  lemma NotPastName(text: string, i: nat, b: nat)
    requires i < |text| && Fresh(text, i) && NameFound(text, i) && NamesDiag(text[i..])
    requires b < i + RunEnd(text[i..], 5, DiagChar) < |text| && NameFound(text, b)
    ensures !NameReaches(text, b, i + RunEnd(text[i..], 5, DiagChar))
  {
    var e := i + RunEnd(text[i..], 5, DiagChar);
    NameReachesIts(text, i, e);
    if b > i {
      NameReachesIts(text, i, b);
    } else if b < i && NameReaches(text, b, e) {
      ReachesLess(text, b, i, e);
    }
  }

  lemma FreshAfterName(text: string, i: nat)
    requires i < |text| && Fresh(text, i) && NameAt(text, i) && NamesDiag(text[i..])
    ensures NameFound(text, i) && Fresh(text, i + RunEnd(text[i..], 5, DiagChar))
  {
    var e := i + RunEnd(text[i..], 5, DiagChar);
    forall b: nat | b < e && NameFound(text, b) ensures !NameReaches(text, b, e) {
      if e < |text| { NotPastName(text, i, b); }
    }
  }

  lemma FreshAfterOther(text: string, i: nat)
    requires i < |text| && Fresh(text, i) && !NameAt(text, i)
    ensures Fresh(text, i + 1)
    ensures !(exists a: nat :: NameFound(text, a) && NameReaches(text, a, i))
  {
    forall b: nat | b < i + 1 && NameFound(text, b) ensures !NameReaches(text, b, i + 1) {
      assert b < i ==> !NameReaches(text, b, i);
    }
  }

  /** The characters of a name are no marks. */
  lemma NameHasNoMarks(text: string, i: nat, k: nat)
    requires NameReaches(text, i, k)
    ensures text[k] != TICK && text[k] != CROSS
  {
    if k < i + 5 {
      assert text[k] == text[i..i + 5][k - i] == "diag."[k - i];
    }
  }

  lemma CommentCell(v: Vocabulary, text: string, k: nat, i: nat)
    requires i <= k < |text| && NameFound(text, i) && NameReaches(text, i, k)
    ensures ClassesAt(v, Comment, text, k) == ["c", "dg"]
  {
    NameHasNoMarks(text, i, k);
  }

  ghost predicate CellIs(v: Vocabulary, text: string, i: nat, cells: seq<Cell>, k: nat) {
    i <= k < |text| && k - i < |cells| && cells[k - i] == Cell(text[k], ClassesAt(v, Comment, text, k))
  }

  /** From i on as it is to be seen, up to j. */
  ghost predicate CellsAre(v: Vocabulary, text: string, i: nat, j: nat, cells: seq<Cell>) {
    i <= j <= |text| && |cells| == j - i && forall k: nat :: i <= k < j ==> CellIs(v, text, i, cells, k)
  }

  lemma CellsJoin(v: Vocabulary, text: string, i: nat, j: nat, first: seq<Cell>, rest: seq<Cell>)
    requires CellsAre(v, text, i, j, first) && CellsAre(v, text, j, |text|, rest)
    ensures CellsAre(v, text, i, |text|, first + rest)
  {
    forall k: nat | i <= k < |text| ensures CellIs(v, text, i, first + rest, k) {
      assert if k < j then CellIs(v, text, i, first, k) else CellIs(v, text, j, rest, k);
    }
  }

  /** A name is seen as one. */
  lemma NameIsColoured(v: Vocabulary, text: string, i: nat)
    requires i < |text| && NameFound(text, i) && NamesDiag(text[i..])
    ensures var n := RunEnd(text[i..], 5, DiagChar);
            CellsAre(v, text, i, i + n, Painted(text[i..][..n], ["c"] + ["dg"]))
  {
    var n := RunEnd(text[i..], 5, DiagChar);
    forall k: nat | i <= k < i + n ensures CellIs(v, text, i, Painted(text[i..][..n], ["c"] + ["dg"]), k) {
      NameReachesIts(text, i, k);
      CommentCell(v, text, k, i);
    }
  }

  lemma BlockIsColoured(v: Vocabulary, text: string, i: nat)
    requires i < |text| && !(exists a: nat :: NameFound(text, a) && NameReaches(text, a, i))
    ensures CellsAre(v, text, i, i + 1, [BlockCell(text[i], ["c"])])
  {
    assert ["c"] + ["ok"] == ["c", "ok"] && ["c"] + ["bad"] == ["c", "bad"];
  }

  lemma NameComesFirst(v: Vocabulary, text: string, i: nat, n: nat)
    requires i < |text| && NameFound(text, i) && NamesDiag(text[i..]) && n == RunEnd(text[i..], 5, DiagChar)
    requires CellsAre(v, text, i + n, |text|, CommentCells(text[i..][n..], ["c"]))
    ensures CellsAre(v, text, i, |text|, CommentCells(text[i..], ["c"]))
  {
    NameIsColoured(v, text, i);
    CellsJoin(v, text, i, i + n, Painted(text[i..][..n], ["c"] + ["dg"]), CommentCells(text[i..][n..], ["c"]));
  }

  lemma BlockComesFirst(v: Vocabulary, text: string, i: nat)
    requires i < |text| && !(exists a: nat :: NameFound(text, a) && NameReaches(text, a, i)) && !NamesDiag(text[i..])
    requires CellsAre(v, text, i + 1, |text|, CommentCells(text[i..][1..], ["c"]))
    ensures CellsAre(v, text, i, |text|, CommentCells(text[i..], ["c"]))
  {
    BlockIsColoured(v, text, i);
    CellsJoin(v, text, i, i + 1, [BlockCell(text[i], ["c"])], CommentCells(text[i..][1..], ["c"]));
  }

  /** Character by character a comment is seen as it is to be seen. */
  lemma {:induction false} CommentIsColoured(v: Vocabulary, text: string, i: nat)
    requires i <= |text| && Fresh(text, i)
    ensures CellsAre(v, text, i, |text|, CommentCells(text[i..], ["c"]))
    decreases |text| - i
  {
    if i < |text| {
      NameIsAt(text, i);
      if NameAt(text, i) {
        var n := RunEnd(text[i..], 5, DiagChar);
        FreshAfterName(text, i);
        CommentIsColoured(v, text, i + n);
        assert text[i..][n..] == text[i + n..];
        NameComesFirst(v, text, i, n);
      } else {
        FreshAfterOther(text, i);
        CommentIsColoured(v, text, i + 1);
        assert text[i..][1..] == text[i + 1..];
        BlockComesFirst(v, text, i);
      }
    }
  }

  // ------------------------------------------------------------------ the page

  function TokenHtml(v: Vocabulary, t: Token): string {
    match t.kind
    case Comment => CommentHtml(t.text)
    case Text => Spanned("s", Escaped(t.text))
    case Number => Spanned("n", Escaped(t.text))
    case Ident =>
      if t.text in v.keywords then Spanned("k", t.text)
      else if t.text in v.types then Spanned("t", t.text)
      else if t.text in v.prelude then Spanned("p", t.text)
      else Escaped(t.text)
    case Other => Escaped(t.text)
  }

  function PageOf(v: Vocabulary, ts: seq<Token>): string {
    if ts == [] then "" else TokenHtml(v, ts[0]) + PageOf(v, ts[1..])
  }

  lemma WholeComment(v: Vocabulary, text: string)
    ensures TokenColoured(v, Comment, text, CommentCells(text, ["c"]))
  {
    CommentIsColoured(v, text, 0);
    assert text[0..] == text;
    forall k | 0 <= k < |text| ensures CommentCells(text, ["c"])[k] == Cell(text[k], ClassesAt(v, Comment, text, k)) {
      assert CellIs(v, text, 0, CommentCells(text, ["c"]), k);
    }
  }

  /** Only names need no escaping, and no token that is not one goes unescaped. */
  lemma TokenIsSeen(v: Vocabulary, t: Token, rest: string) returns (cells: seq<Cell>)
    requires t.kind.Ident? ==> forall k :: 0 <= k < |t.text| ==> IdentPart(t.text[k])
    ensures Seen(TokenHtml(v, t) + rest, []) == Prepend(cells, Seen(rest, []))
    ensures TokenColoured(v, t.kind, t.text, cells)
  {
    match t.kind {
      case Comment =>
        SeenComment(t.text, rest, []);
        assert [] + ["c"] == ["c"];
        cells := CommentCells(t.text, ["c"]);
        WholeComment(v, t.text);
      case Text =>
        SeenSpannedText("s", t.text, rest, []);
        cells := Painted(t.text, [] + ["s"]);
      case Number =>
        SeenSpannedText("n", t.text, rest, []);
        cells := Painted(t.text, [] + ["n"]);
      case Ident => cells := NameIsSeen(v, t.text, rest);
      case Other =>
        SeenEscaped(t.text, rest, []);
        cells := Painted(t.text, []);
    }
  }

  lemma NameIsSeen(v: Vocabulary, name: string, rest: string) returns (cells: seq<Cell>)
    requires forall k :: 0 <= k < |name| ==> IdentPart(name[k])
    ensures Seen(TokenHtml(v, Token(Ident, name)) + rest, []) == Prepend(cells, Seen(rest, []))
    ensures TokenColoured(v, Ident, name, cells)
  {
    PlainIsNotEscaped(name);
    if name in v.keywords || name in v.types || name in v.prelude {
      var className := if name in v.keywords then "k" else if name in v.types then "t" else "p";
      SeenSpannedText(className, name, rest, []);
      cells := Painted(name, [] + [className]);
    } else {
      SeenEscaped(name, rest, []);
      cells := Painted(name, []);
    }
  }

  /** The token at i, in its colours. */
  lemma TokenAtIsSeen(v: Vocabulary, cl: Classes, src: string, i: nat, rest: string) returns (cells: seq<Cell>)
    requires i < |src| && Sane(cl)
    ensures var (kind, j) := MatchAt(cl, src, i);
            && FirstLongest(cl, src, i, kind, j)
            && Seen(TokenHtml(v, Token(kind, src[i..j])) + rest, []) == Prepend(cells, Seen(rest, []))
            && TokenColoured(v, kind, src[i..j], cells)
  {
    MatchAtIsFirstLongest(cl, src, i);
    var (kind, j) := MatchAt(cl, src, i);
    if kind.Ident? {
      assert IdentStart(src[i]) && All(src, i + 1, j, IdentPart);
      assert forall k :: 0 <= k < j - i ==> src[i..j][k] == src[i + k];
    }
    cells := TokenIsSeen(v, Token(kind, src[i..j]), rest);
  }

  lemma MatchAdvances(cl: Classes, src: string, i: nat)
    requires i < |src| && Sane(cl)
    ensures i < MatchAt(cl, src, i).1 <= |src|
  {
    MatchAtIsFirstLongest(cl, src, i);
  }

  lemma PageFromHere(v: Vocabulary, cl: Classes, src: string, i: nat)
    requires i < |src| && Sane(cl) && i < MatchAt(cl, src, i).1 <= |src|
    ensures var (kind, j) := MatchAt(cl, src, i);
            PageOf(v, TokensFrom(cl, src, i))
            == TokenHtml(v, Token(kind, src[i..j])) + PageOf(v, TokensFrom(cl, src, j))
  {
    var (kind, j) := MatchAt(cl, src, i);
    assert TokensFrom(cl, src, i)[1..] == TokensFrom(cl, src, j);
  }

  lemma ColouredFromHere(
    v: Vocabulary, cl: Classes, src: string, i: nat, kind: Kind, j: nat, first: seq<Cell>, rest: seq<Cell>)
    requires i < |src| && FirstLongest(cl, src, i, kind, j)
    requires TokenColoured(v, kind, src[i..j], first) && Coloured(v, cl, src, j, rest)
    ensures Coloured(v, cl, src, i, first + rest)
  {
    var cells := first + rest;
    assert cells[..j - i] == first && cells[j - i..] == rest;
  }

  lemma {:induction false} PageIsSeen(v: Vocabulary, cl: Classes, src: string, i: nat) returns (cells: seq<Cell>)
    requires i <= |src| && Sane(cl)
    ensures Seen(PageOf(v, TokensFrom(cl, src, i)), []) == Some(cells) && Coloured(v, cl, src, i, cells)
    decreases |src| - i
  {
    if i == |src| {
      assert TokensFrom(cl, src, i) == [] && PageOf(v, []) == "";
      cells := [];
    } else {
      MatchAdvances(cl, src, i);
      var (kind, j) := MatchAt(cl, src, i);
      var rest := PageIsSeen(v, cl, src, j);
      var first := TokenAtIsSeen(v, cl, src, i, PageOf(v, TokensFrom(cl, src, j)));
      PageFromHere(v, cl, src, i);
      ColouredFromHere(v, cl, src, i, kind, j, first, rest);
      cells := first + rest;
    }
  }

  lemma PageHighlights(v: Vocabulary, cl: Classes, src: string)
    requires Sane(cl)
    ensures Highlights(v, cl, src, PageOf(v, TokensFrom(cl, src, 0)))
  {
    var cells := PageIsSeen(v, cl, src, 0);
    ColouredSpells(v, cl, src, 0, cells);
    assert src[0..] == src;
  }

  function Concatenated(out: seq<string>): string {
    if out == [] then "" else Concatenated(out[..|out| - 1]) + out[|out| - 1]
  }

  /** One more token's part. */
  lemma PageGrows(v: Vocabulary, cl: Classes, src: string, i: nat, out: seq<string>)
    requires i < |src| && Sane(cl)
    ensures var (kind, j) := MatchAt(cl, src, i);
            && i < j <= |src|
            && Concatenated(out + [TokenHtml(v, Token(kind, src[i..j]))]) + PageOf(v, TokensFrom(cl, src, j))
               == Concatenated(out) + PageOf(v, TokensFrom(cl, src, i))
  {
    MatchAtIsFirstLongest(cl, src, i);
    var (kind, j) := MatchAt(cl, src, i);
    var h := TokenHtml(v, Token(kind, src[i..j]));
    assert (out + [h])[..|out|] == out;
    Regrouped(Concatenated(out), h, PageOf(v, TokensFrom(cl, src, j)));
  }

  /** Whatever the source, the page highlights it. */
  method Highlight(v: Vocabulary, cl: Classes, src: string) returns (page: string)
    requires Sane(cl)
    ensures Highlights(v, cl, src, page)
  {
    var out: seq<string> := [];
    var i := 0;
    while i < |src|
      invariant i <= |src|
      invariant Concatenated(out) + PageOf(v, TokensFrom(cl, src, i)) == PageOf(v, TokensFrom(cl, src, 0))
    {
      PageGrows(v, cl, src, i, out);
      var (kind, j) := MatchAt(cl, src, i);
      out := out + [TokenHtml(v, Token(kind, src[i..j]))];
      i := j;
    }
    page := Concatenated(out);
    assert Concatenated(out) + "" == page;
    PageHighlights(v, cl, src);
  }
}
