/** Strings taken apart and put together: at a character, at white space, and with something in between. */
module Strings {

  // ------------------------------------------------------------------ joining and splitting

  /** The parts in turn, with `between` between each and the next. */
  function Joined(parts: seq<string>, between: string): string {
    if parts == [] then ""
    else if |parts| == 1 then parts[0]
    else parts[0] + between + Joined(parts[1..], between)
  }

  /** The parts between the places where c stands. */
  function Split(s: string, c: char): (parts: seq<string>)
    ensures parts != []
  {
    if s == "" then [""]
    else
      var rest := Split(s[1..], c);
      if s[0] == c then [""] + rest else [[s[0]] + rest[0]] + rest[1..]
  }

  lemma {:induction false} SplitAtFirst(a: string, s: string, c: char)
    requires c !in a
    ensures Split(a + [c] + s, c) == [a] + Split(s, c)
  {
    var whole := a + [c] + s;
    if a == "" {
      assert whole[1..] == s;
    } else {
      assert whole[1..] == a[1..] + [c] + s;
      SplitAtFirst(a[1..], s, c);
      assert a == [a[0]] + a[1..];
    }
  }

  lemma {:induction false} NothingToSplit(a: string, c: char)
    requires c !in a
    ensures Split(a, c) == [a]
  {
    if a != "" {
      NothingToSplit(a[1..], c);
      assert a == [a[0]] + a[1..];
    }
  }

  /** Parts without c come apart again where they were joined with it. */
  lemma {:induction false} SplitOfJoined(parts: seq<string>, c: char)
    requires parts != [] && forall k :: 0 <= k < |parts| ==> c !in parts[k]
    ensures Split(Joined(parts, [c]), c) == parts
  {
    if |parts| == 1 {
      NothingToSplit(parts[0], c);
    } else {
      SplitOfJoined(parts[1..], c);
      SplitAtFirst(parts[0], Joined(parts[1..], [c]), c);
      assert parts == [parts[0]] + parts[1..];
    }
  }

  /** And any string is its parts, none of which has c, joined with it. */
  lemma {:induction false} JoinedOfSplit(s: string, c: char)
    ensures Joined(Split(s, c), [c]) == s
    ensures forall k :: 0 <= k < |Split(s, c)| ==> c !in Split(s, c)[k]
  {
    if s != "" {
      JoinedOfSplit(s[1..], c);
      var parts, rest := Split(s, c), Split(s[1..], c);
      if s[0] == c {
        assert parts[1..] == rest;
        assert s == "" + [c] + s[1..];
      } else {
        assert parts[1..] == rest[1..];
        assert s == [s[0]] + s[1..];
      }
    }
  }

  lemma {:induction false} JoinedWithLast(parts: seq<string>, last: string, between: string)
    requires parts != []
    ensures Joined(parts + [last], between) == Joined(parts, between) + between + last
  {
    var all := parts + [last];
    assert all[1..] == parts[1..] + [last];
    if |parts| == 1 {
      assert all[1..] == [last];
    } else {
      JoinedWithLast(parts[1..], last, between);
    }
  }

  // ------------------------------------------------------------------ words

  function WordEnd(space: char -> bool, s: string, i: nat): (j: nat)
    requires i <= |s|
    ensures i <= j <= |s| && (forall k :: i <= k < j ==> !space(s[k])) && (j < |s| ==> space(s[j]))
    decreases |s| - i
  {
    if i < |s| && !space(s[i]) then WordEnd(space, s, i + 1) else i
  }

  function WordsOf(space: char -> bool, s: string): seq<string>
    decreases |s|
  {
    if s == "" then []
    else if space(s[0]) then WordsOf(space, s[1..])
    else [s[..WordEnd(space, s, 0)]] + WordsOf(space, s[WordEnd(space, s, 0)..])
  }

  /** The words of all the strings, in turn. */
  function WordsOfAll(space: char -> bool, parts: seq<string>): seq<string> {
    if parts == [] then [] else WordsOf(space, parts[0]) + WordsOfAll(space, parts[1..])
  }

  lemma {:induction false} WordEndIs(space: char -> bool, s: string, i: nat, j: nat)
    requires i <= j <= |s| && (forall k :: i <= k < j ==> !space(s[k])) && (j < |s| ==> space(s[j]))
    ensures WordEnd(space, s, i) == j
    decreases j - i
  {
    if i < j { WordEndIs(space, s, i + 1, j); }
  }

  /** White space separates: the words before it, and the words after it. */
  lemma {:induction false} WordsApart(space: char -> bool, a: string, c: char, b: string)
    requires space(c)
    ensures WordsOf(space, a + [c] + b) == WordsOf(space, a) + WordsOf(space, b)
    decreases |a|
  {
    var s := a + [c] + b;
    if a == "" {
      assert s[1..] == b;
    } else if space(a[0]) {
      assert s[1..] == a[1..] + [c] + b;
      WordsApart(space, a[1..], c, b);
    } else {
      var n := WordEnd(space, a, 0);
      WordEndIs(space, s, 0, n);
      assert s[..n] == a[..n] && s[n..] == a[n..] + [c] + b;
      WordsApart(space, a[n..], c, b);
    }
  }

  lemma WordAlone(space: char -> bool, w: string)
    requires w != "" && forall k :: 0 <= k < |w| ==> !space(w[k])
    ensures WordsOf(space, w) == [w]
  {
    WordEndIs(space, w, 0, |w|);
    assert w[..|w|] == w && w[|w|..] == "";
  }

  lemma {:induction false} WordsOfJoined(space: char -> bool, parts: seq<string>, c: char)
    requires space(c)
    ensures WordsOf(space, Joined(parts, [c])) == WordsOfAll(space, parts)
  {
    if |parts| == 1 {
      assert WordsOfAll(space, parts[1..]) == [];
    } else if |parts| > 1 {
      WordsOfJoined(space, parts[1..], c);
      WordsApart(space, parts[0], c, Joined(parts[1..], [c]));
    }
  }

  lemma {:induction false} WordsOfWords(space: char -> bool, ws: seq<string>)
    requires forall k :: 0 <= k < |ws| ==> ws[k] != "" && forall c :: c in ws[k] ==> !space(c)
    ensures WordsOfAll(space, ws) == ws
  {
    if ws != [] {
      assert forall k :: 0 <= k < |ws[0]| ==> ws[0][k] in ws[0];
      WordAlone(space, ws[0]);
      WordsOfWords(space, ws[1..]);
      assert ws == [ws[0]] + ws[1..];
    }
  }

  /** Words that hold no space come apart again where they were joined. */
  lemma JoinedComeApart(space: char -> bool, ws: seq<string>)
    requires space(' ') && forall k :: 0 <= k < |ws| ==> ws[k] != "" && forall c :: c in ws[k] ==> !space(c)
    ensures WordsOf(space, Joined(ws, " ")) == ws
  {
    WordsOfJoined(space, ws, ' ');
    WordsOfWords(space, ws);
  }
}
