/** The token pattern of the guide's highlighter: five alternatives tried in order at each place, each as long as
    it can be. */
module Tokenizer {
  import opened Wrappers

  datatype Kind = Comment | Text | Number | Ident | Other

  datatype Token = Token(kind: Kind, text: string)

  /** The pattern's Unicode classes: decimal digits and word characters. */
  datatype Classes = Classes(digit: char -> bool, word: char -> bool)

  /** All the matcher needs of them: the colon is no digit. */
  predicate Sane(cl: Classes) {
    !cl.digit(':')
  }

  predicate Lower(c: char) { 'a' <= c <= 'z' }

  predicate LowerOrDigit(c: char) { Lower(c) || '0' <= c <= '9' }

  predicate IdentStart(c: char) { Lower(c) || 'A' <= c <= 'Z' || c == '_' }

  predicate IdentPart(c: char) { IdentStart(c) || '0' <= c <= '9' }

  /** The letters, and where a word goes on, the digits. */
  lemma IdentCharsAre(c: char)
    ensures IdentStart(c) <==> c in {'a', 'b', 'c', 'd', 'e', 'f', 'g', 'h', 'i', 'j', 'k', 'l', 'm', 'n', 'o', 'p',
                                     'q', 'r', 's', 't', 'u', 'v', 'w', 'x', 'y', 'z', 'A', 'B', 'C', 'D', 'E', 'F',
                                     'G', 'H', 'I', 'J', 'K', 'L', 'M', 'N', 'O', 'P', 'Q', 'R', 'S', 'T', 'U', 'V',
                                     'W', 'X', 'Y', 'Z', '_'}
    ensures IdentPart(c) <==> IdentStart(c) || c in {'0', '1', '2', '3', '4', '5', '6', '7', '8', '9'}
    ensures LowerOrDigit(c) <==> (IdentPart(c) && c != '_' && !('A' <= c <= 'Z'))
    ensures Lower(c) <==> LowerOrDigit(c) && c !in {'0', '1', '2', '3', '4', '5', '6', '7', '8', '9'}
  {
  }

  predicate NotNewline(c: char) { c != '\n' }

  // ------------------------------------------------------------------ what each alternative may match

  ghost predicate All(src: string, i: nat, j: nat, p: char -> bool) {
    j <= |src| && forall k :: i <= k < j ==> p(src[k])
  }

  /** The inside of a string: escaped characters, and others but quotes, backslashes and line ends. */
  predicate Body(src: string, q: nat, e: nat)
    requires e <= |src|
    decreases |src| - q
  {
    || q == e
    || (q + 2 <= e && src[q] == '\\' && Body(src, q + 2, e))
    || (q + 1 <= e && src[q] != '"' && src[q] != '\\' && src[q] != '\n' && Body(src, q + 1, e))
  }

  ghost predicate Quoted(src: string, q: nat, j: nat) {
    q < j <= |src| && Body(src, q, j - 1) && src[j - 1] == '"'
  }

  ghost predicate Fraction(cl: Classes, src: string, a: nat, b: nat) {
    a == b || (a + 1 < b <= |src| && src[a] == '.' && All(src, a + 1, b, cl.digit))
  }

  ghost predicate Suffix(src: string, b: nat, j: nat) {
    b == j || (b + 2 <= j <= |src| && src[b] == ':' && Lower(src[b + 1]) && All(src, b + 2, j, LowerOrDigit))
  }

  predicate WordBoundary(cl: Classes, src: string, i: nat)
    requires i < |src|
  {
    (i > 0 && cl.word(src[i - 1])) != cl.word(src[i])
  }

  ghost predicate Matches(cl: Classes, kind: Kind, src: string, i: nat, j: nat) {
    i < j <= |src| &&
    match kind
    case Comment => i + 2 <= j && src[i] == '/' && src[i + 1] == '/' && forall k :: i + 2 <= k < j ==> src[k] != '\n'
    case Text =>
      || (src[i] == '"' && Quoted(src, i + 1, j))
      || (src[i] == 'b' && i + 1 < j && src[i + 1] == '"' && Quoted(src, i + 2, j))
    case Number =>
      (if i == 0 then cl.word(src[i]) else cl.word(src[i - 1]) != cl.word(src[i])) && exists a: nat, b: nat ::
        i < a <= b <= j && All(src, i, a, cl.digit) && Fraction(cl, src, a, b) && Suffix(src, b, j)
    case Ident => IdentStart(src[i]) && All(src, i + 1, j, IdentPart)
    case Other => j == i + 1
  }

  function Rank(kind: Kind): nat {
    match kind
    case Comment => 0
    case Text => 1
    case Number => 2
    case Ident => 3
    case Other => 4
  }

  /** The first alternative that matches at i, and its longest match there. */
  ghost predicate FirstLongest(cl: Classes, src: string, i: nat, kind: Kind, j: nat) {
    && Matches(cl, kind, src, i, j)
    && (forall j': nat :: Matches(cl, kind, src, i, j') ==> j' <= j)
    && (forall k: Kind, j': nat :: Matches(cl, k, src, i, j') ==> Rank(kind) <= Rank(k))
  }

  // ------------------------------------------------------------------ the matcher

  function RunEnd(src: string, i: nat, p: char -> bool): (j: nat)
    requires i <= |src|
    ensures i <= j && All(src, i, j, p) && (j < |src| ==> !p(src[j]))
    decreases |src| - i
  {
    if i < |src| && p(src[i]) then RunEnd(src, i + 1, p) else i
  }

  lemma {:induction false} RunEndIs(src: string, i: nat, j: nat, p: char -> bool)
    requires i <= j && All(src, i, j, p) && (j < |src| ==> !p(src[j]))
    ensures RunEnd(src, i, p) == j
    decreases j - i
  {
    if i < j { RunEndIs(src, i + 1, j, p); }
  }

  function CommentEnd(src: string, i: nat): Option<nat>
    requires i < |src|
  {
    if i + 1 < |src| && src[i] == '/' && src[i + 1] == '/' then Some(RunEnd(src, i + 2, NotNewline)) else None
  }

  /** Past the closing quote of the string whose inside begins at q. */
  function QuoteEnd(src: string, q: nat): Option<nat>
    decreases |src| - q
  {
    if q >= |src| || src[q] == '\n' then None
    else if src[q] == '"' then Some(q + 1)
    else if src[q] == '\\' then (if q + 1 < |src| then QuoteEnd(src, q + 2) else None)
    else QuoteEnd(src, q + 1)
  }

  function TextEnd(src: string, i: nat): Option<nat>
    requires i < |src|
  {
    if src[i] == '"' then QuoteEnd(src, i + 1)
    else if src[i] == 'b' && i + 1 < |src| && src[i + 1] == '"' then QuoteEnd(src, i + 2)
    else None
  }

  function FractionEnd(cl: Classes, src: string, a: nat): nat
    requires a <= |src|
  {
    if a + 1 < |src| && src[a] == '.' && cl.digit(src[a + 1]) then RunEnd(src, a + 1, cl.digit) else a
  }

  function SuffixEnd(src: string, b: nat): nat
    requires b <= |src|
  {
    if b + 1 < |src| && src[b] == ':' && Lower(src[b + 1]) then RunEnd(src, b + 2, LowerOrDigit) else b
  }

  function NumberEnd(cl: Classes, src: string, i: nat): Option<nat>
    requires i < |src|
  {
    if cl.digit(src[i]) && WordBoundary(cl, src, i)
    then Some(SuffixEnd(src, FractionEnd(cl, src, RunEnd(src, i, cl.digit))))
    else None
  }

  function IdentEnd(src: string, i: nat): Option<nat>
    requires i < |src|
  {
    if IdentStart(src[i]) then Some(RunEnd(src, i + 1, IdentPart)) else None
  }

  function MatchAt(cl: Classes, src: string, i: nat): (m: (Kind, nat))
    requires i < |src|
  {
    var comment, text, number, ident := CommentEnd(src, i), TextEnd(src, i), NumberEnd(cl, src, i), IdentEnd(src, i);
    if comment.Some? then (Comment, comment.value)
    else if text.Some? then (Text, text.value)
    else if number.Some? then (Number, number.value)
    else if ident.Some? then (Ident, ident.value)
    else (Other, i + 1)
  }

  // ------------------------------------------------------------------ it is the first alternative's longest match

  lemma {:induction false} QuoteEndIsTheMatch(src: string, q: nat)
    ensures QuoteEnd(src, q).Some? ==> Quoted(src, q, QuoteEnd(src, q).value)
    ensures forall j: nat :: Quoted(src, q, j) ==> QuoteEnd(src, q) == Some(j)
    decreases |src| - q
  {
    if q < |src| && src[q] == '\\' && q + 1 < |src| {
      QuoteEndIsTheMatch(src, q + 2);
      forall j: nat | Quoted(src, q, j) ensures QuoteEnd(src, q) == Some(j) {
        assert Quoted(src, q + 2, j);
      }
    } else if q < |src| && src[q] != '"' && src[q] != '\\' && src[q] != '\n' {
      QuoteEndIsTheMatch(src, q + 1);
      forall j: nat | Quoted(src, q, j) ensures QuoteEnd(src, q) == Some(j) {
        assert Quoted(src, q + 1, j);
      }
    }
  }

  lemma TextEndIsTheMatch(cl: Classes, src: string, i: nat)
    requires i < |src|
    ensures TextEnd(src, i).Some? ==> Matches(cl, Text, src, i, TextEnd(src, i).value)
    ensures forall j: nat :: Matches(cl, Text, src, i, j) ==> TextEnd(src, i) == Some(j)
  {
    QuoteEndIsTheMatch(src, i + 1);
    QuoteEndIsTheMatch(src, i + 2);
  }

  lemma NumberEndIsTheLongest(cl: Classes, src: string, i: nat)
    requires i < |src| && Sane(cl)
    ensures NumberEnd(cl, src, i).Some? ==> Matches(cl, Number, src, i, NumberEnd(cl, src, i).value)
    ensures forall j: nat :: Matches(cl, Number, src, i, j) ==>
              NumberEnd(cl, src, i).Some? && j <= NumberEnd(cl, src, i).value
  {
    if NumberEnd(cl, src, i).Some? {
      var a := RunEnd(src, i, cl.digit);
      var b := FractionEnd(cl, src, a);
      var e := SuffixEnd(src, b);
      assert Fraction(cl, src, a, b) && Suffix(src, b, e);
      assert Matches(cl, Number, src, i, e);
    }
    forall j: nat | Matches(cl, Number, src, i, j)
      ensures NumberEnd(cl, src, i).Some? && j <= NumberEnd(cl, src, i).value
    {
      var a: nat, b: nat :| i < a <= b <= j && All(src, i, a, cl.digit) && Fraction(cl, src, a, b) && Suffix(src, b, j);
      assert cl.digit(src[i]);
      NumberReaches(cl, src, i, a, b, j);
    }
  }

  lemma NumberReaches(cl: Classes, src: string, i: nat, a: nat, b: nat, j: nat)
    requires i < a <= b <= j <= |src| && Sane(cl)
    requires All(src, i, a, cl.digit) && Fraction(cl, src, a, b) && Suffix(src, b, j)
    ensures j <= SuffixEnd(src, FractionEnd(cl, src, RunEnd(src, i, cl.digit)))
  {
    var a', b' := RunEnd(src, i, cl.digit), FractionEnd(cl, src, RunEnd(src, i, cl.digit));
    assert a <= a';
    assert b <= b';
    assert j <= SuffixEnd(src, b');
  }

  /** At every place the token taken is the first alternative's longest match. */
  lemma MatchAtIsFirstLongest(cl: Classes, src: string, i: nat)
    requires i < |src| && Sane(cl)
    ensures FirstLongest(cl, src, i, MatchAt(cl, src, i).0, MatchAt(cl, src, i).1)
  {
    TextEndIsTheMatch(cl, src, i);
    NumberEndIsTheLongest(cl, src, i);
  }

  // ------------------------------------------------------------------ all tokens

  function TokensFrom(cl: Classes, src: string, i: nat): seq<Token>
    requires i <= |src| && Sane(cl)
    decreases |src| - i
  {
    if i == |src| then []
    else
      MatchAtIsFirstLongest(cl, src, i);
      var (kind, j) := MatchAt(cl, src, i);
      [Token(kind, src[i..j])] + TokensFrom(cl, src, j)
  }

  function Joined(ts: seq<Token>): string {
    if ts == [] then "" else ts[0].text + Joined(ts[1..])
  }

  /** No character is lost or repeated. */
  lemma {:induction false} TokensSpellTheSource(cl: Classes, src: string, i: nat)
    requires i <= |src| && Sane(cl)
    ensures Joined(TokensFrom(cl, src, i)) == src[i..]
    decreases |src| - i
  {
    if i < |src| {
      MatchAtIsFirstLongest(cl, src, i);
      var j := MatchAt(cl, src, i).1;
      TokensSpellTheSource(cl, src, j);
      assert src[i..] == src[i..j] + src[j..];
    }
  }
}
