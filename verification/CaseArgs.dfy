/** How the conformance runner reads a case's program arguments: words, with every byte writable as an escape. */
module CaseArgs {
  import opened Strings
  import opened Wrappers

  type byte = x: int | 0 <= x < 256

  /** White space as `split` takes it, and the decimal digits `int` takes beside the usual ones, with their values. */
  datatype Unicode = Unicode(space: char -> bool, decimal: char -> Option<nat>)

  /** The characters escapes are written with are no white space. */
  ghost predicate Sane(u: Unicode) {
    && !u.space('\\') && !u.space('x')
    && forall c :: '0' <= c <= '9' || 'a' <= c <= 'f' ==> !u.space(c)
  }

  // ------------------------------------------------------------------ UTF-8

  function Utf8(c: char): seq<byte> {
    var n := c as int;
    if n < 0x80 then [n]
    else if n < 0x800 then [0xC0 + n / 64, 0x80 + n % 64]
    else if n < 0x10000 then [0xE0 + n / 4096, 0x80 + n / 64 % 64, 0x80 + n % 64]
    else [0xF0 + n / 262144, 0x80 + n / 4096 % 64, 0x80 + n / 64 % 64, 0x80 + n % 64]
  }

  function Utf8All(s: string): seq<byte> {
    if s == "" then [] else Utf8(s[0]) + Utf8All(s[1..])
  }

  predicate Tail(b: byte) { 0x80 <= b <= 0xBF }

  /** The number of the character that b begins with, and how many bytes spell it, after section 4 of RFC 3629. */
  function FirstRead(b: seq<byte>): (r: Option<(int, nat)>)
    ensures r.Some? ==> 0 < r.value.1 <= |b| && (0 <= r.value.0 < 0xD800 || 0xE000 <= r.value.0 < 0x11_0000)
  {
    if b == [] then None
    else if b[0] <= 0x7F then Some((b[0], 1))
    else if |b| >= 2 && 0xC2 <= b[0] <= 0xDF && Tail(b[1]) then
      Some((64 * (b[0] as int - 0xC0) + b[1] - 0x80, 2))
    else if |b| >= 3 && 0xE0 <= b[0] <= 0xEF && Tail(b[1]) && Tail(b[2])
            && (b[0] == 0xE0 ==> 0xA0 <= b[1]) && (b[0] == 0xED ==> b[1] <= 0x9F) then
      Some((4096 * (b[0] as int - 0xE0) + 64 * (b[1] as int - 0x80) + b[2] - 0x80, 3))
    else if |b| >= 4 && 0xF0 <= b[0] <= 0xF4 && Tail(b[1]) && Tail(b[2]) && Tail(b[3])
            && (b[0] == 0xF0 ==> 0x90 <= b[1]) && (b[0] == 0xF4 ==> b[1] <= 0x8F) then
      Some((262144 * (b[0] as int - 0xF0) + 4096 * (b[1] as int - 0x80) + 64 * (b[2] as int - 0x80) + b[3] - 0x80,
            4))
    else None
  }

  /** The string that UTF-8 bytes spell, if they spell one. */
  function Read(b: seq<byte>): Option<string>
    decreases |b|
  {
    if b == [] then Some("")
    else
      var first := FirstRead(b);
      if first.None? then None
      else
        var rest := Read(b[first.value.1..]);
        if rest.None? then None else Some([first.value.0 as char] + rest.value)
  }

  /** A number's digits to the base 64. */
  lemma SixtyFourths(n: nat)
    ensures n / 4096 == n / 64 / 64 && n / 262144 == n / 4096 / 64
    ensures n == 64 * (n / 64) + n % 64
    ensures n == 4096 * (n / 4096) + 64 * (n / 64 % 64) + n % 64
    ensures n == 262144 * (n / 262144) + 4096 * (n / 4096 % 64) + 64 * (n / 64 % 64) + n % 64
  {
  }

  lemma OfSixtyFourths(high: nat, low: nat)
    requires low < 64
    ensures (64 * high + low) / 64 == high && (64 * high + low) % 64 == low
  {
  }

  lemma OfThree(x: nat, y: nat, z: nat)
    requires y < 64 && z < 64
    ensures var n := 4096 * x + 64 * y + z; n / 4096 == x && n / 64 % 64 == y && n % 64 == z
  {
    OfSixtyFourths(x, y);
    OfSixtyFourths(64 * x + y, z);
    SixtyFourths(4096 * x + 64 * y + z);
  }

  lemma OfFour(x: nat, y: nat, z: nat, last: nat)
    requires y < 64 && z < 64 && last < 64
    ensures var n := 262144 * x + 4096 * y + 64 * z + last;
            n / 262144 == x && n / 4096 % 64 == y && n / 64 % 64 == z && n % 64 == last
  {
    OfSixtyFourths(x, y);
    OfThree(64 * x + y, z, last);
    SixtyFourths(262144 * x + 4096 * y + 64 * z + last);
  }

  lemma WrittenIsFirst(c: char)
    ensures FirstRead(Utf8(c)) == Some((c as int, |Utf8(c)|))
  {
    SixtyFourths(c as int);
  }

  lemma FourWereWritten(b: seq<byte>)
    requires |b| == 4 && FirstRead(b).Some? && FirstRead(b).value.1 == 4
    ensures Utf8(FirstRead(b).value.0 as char) == b
  {
    OfFour(b[0] - 0xF0, b[1] - 0x80, b[2] - 0x80, b[3] - 0x80);
  }

  lemma FirstWasWritten(b: seq<byte>)
    requires FirstRead(b).Some? && FirstRead(b).value.1 == |b|
    ensures Utf8(FirstRead(b).value.0 as char) == b
  {
    if |b| == 2 {
      OfSixtyFourths(b[0] - 0xC0, b[1] - 0x80);
    } else if |b| == 3 {
      OfThree(b[0] - 0xE0, b[1] - 0x80, b[2] - 0x80);
    } else if |b| == 4 {
      FourWereWritten(b);
    }
  }

  /** Only the bytes that spell the first character decide it. */
  lemma FirstOfMore(b: seq<byte>, rest: seq<byte>)
    requires FirstRead(b).Some?
    ensures FirstRead(b + rest) == FirstRead(b)
  {
  }

  lemma FirstOfOwn(b: seq<byte>)
    requires FirstRead(b).Some?
    ensures FirstRead(b[..FirstRead(b).value.1]) == FirstRead(b)
  {
  }

  /** Bytes spell a string exactly when they are its encoding: every encoding is read back, there is only one for each
      string, and nothing else is read. An ASCII character is its own byte. */
  lemma {:induction false} ReadIff(b: seq<byte>, s: string)
    ensures Read(b) == Some(s) <==> b == Utf8All(s)
    ensures forall c :: c as int < 0x80 ==> Utf8(c) == [c as int]
    decreases |s|
  {
    if s != "" {
      var c, rest := s[0], Utf8All(s[1..]);
      WrittenIsFirst(c);
      FirstOfMore(Utf8(c), rest);
      assert (Utf8(c) + rest)[|Utf8(c)|..] == rest;
      ReadIff(rest, s[1..]);
      assert s == [c] + s[1..];
    }
    if b != [] && FirstRead(b).Some? && Read(b) == Some(s) {
      var n := FirstRead(b).value.1;
      FirstOfOwn(b);
      FirstWasWritten(b[..n]);
      assert s[1..] == Read(b[n..]).value;
      ReadIff(b[n..], s[1..]);
      assert b == b[..n] + b[n..];
    }
  }

  // ------------------------------------------------------------------ one word

  const TMP := "$TMP"

  predicate HasTmp(a: string) {
    a != "" && (TMP <= a || HasTmp(a[1..]))
  }

  function Replaced(a: string, tmp: string): string
    decreases |a|
  {
    if a == "" then "" else if TMP <= a then tmp + Replaced(a[4..], tmp) else [a[0]] + Replaced(a[1..], tmp)
  }

  function HexDigit(c: char): Option<nat> {
    if '0' <= c <= '9' then Some(c as int - '0' as int)
    else if 'a' <= c <= 'f' then Some(c as int - 'a' as int + 10)
    else if 'A' <= c <= 'F' then Some(c as int - 'A' as int + 10)
    else None
  }

  function Digit(u: Unicode, c: char): Option<nat> {
    if HexDigit(c).Some? then HexDigit(c) else u.decimal(c)
  }

  /** `int(s, 16)` of two characters without white space: two digits, or one with a sign. */
  function IntBase16(u: Unicode, c: char, d: char): Result<int> {
    var low := Digit(u, d);
    if low.None? then Err(ValueError)
    else if c == '+' then Ok(low.value)
    else if c == '-' then Ok(0 as int - low.value)
    else
      var high := Digit(u, c);
      if high.None? then Err(ValueError) else Ok(16 * high.value + low.value)
  }

  predicate EscapeAt(a: string, i: nat) {
    i + 4 <= |a| && a[i] == '\\' && a[i + 1] == 'x'
  }

  /** What is read so far, in front of what is still to be read. */
  function Then<T>(sofar: seq<T>, rest: Result<seq<T>>): Result<seq<T>> {
    if rest.Ok? then Ok(sofar + rest.value) else rest
  }

  lemma ThenJoins<T>(a: seq<T>, b: seq<T>, r: Result<seq<T>>)
    ensures Then(a, Then(b, r)) == Then(a + b, r)
    ensures Then([], r) == r
  {
    if r.Ok? {
      assert a + (b + r.value) == a + b + r.value;
      assert [] + r.value == r.value;
    }
  }

  /** The bytes from i on. */
  function Decoded(u: Unicode, a: string, i: nat): Result<seq<byte>>
    decreases |a| - i
  {
    if i >= |a| then Ok([])
    else if EscapeAt(a, i) then
      var n := IntBase16(u, a[i + 2], a[i + 3]);
      if n.Err? || !(0 <= n.value < 256) then Err(ValueError) else Then([n.value], Decoded(u, a, i + 4))
    else Then(Utf8(a[i]), Decoded(u, a, i + 1))
  }

  function Argument(u: Unicode, a: string, tmp: string): Result<seq<byte>> {
    if a == "\"\"" then Ok([])
    else if HasTmp(a) then Ok(Utf8All(Replaced(a, tmp)))
    else Decoded(u, a, 0)
  }

  function Arguments(u: Unicode, ws: seq<string>, tmp: string): Result<seq<seq<byte>>> {
    if ws == [] then Ok([])
    else
      var first := Argument(u, ws[0], tmp);
      if first.Err? then Err(first.fault) else Then([first.value], Arguments(u, ws[1..], tmp))
  }

  // ------------------------------------------------------------------ what an escape and a word give

  ghost predicate IsHex(c: char, n: nat) {
    n < 16 && (c == "0123456789abcdef"[n] || c == "0123456789ABCDEF"[n])
  }

  ghost predicate IsDigit(u: Unicode, c: char, n: nat) {
    IsHex(c, n) || (u.decimal(c) == Some(n) && forall m: nat :: !IsHex(c, m))
  }

  /** Two hexadecimal digits give their number, and a sign and a digit give theirs, when it is a byte. */
  ghost predicate EscapeGives(u: Unicode, c: char, d: char, n: nat) {
    && n < 256
    && if c == '+' then IsDigit(u, d, n)
       else if c == '-' then IsDigit(u, d, 0) && n == 0
       else exists high: nat, low: nat :: IsDigit(u, c, high) && IsDigit(u, d, low) && n == 16 * high + low
  }

  /** w spells the bytes: from left to right `\xHH` for one of them, and any other character for its UTF-8 bytes. */
  ghost predicate Spells(u: Unicode, w: string, bytes: seq<byte>)
    decreases |w|
  {
    if w == "" then bytes == []
    else if |w| >= 4 && w[0] == '\\' && w[1] == 'x' then
      bytes != [] && EscapeGives(u, w[2], w[3], bytes[0]) && Spells(u, w[4..], bytes[1..])
    else exists k: nat :: k <= |bytes| && Read(bytes[..k]) == Some([w[0]]) && Spells(u, w[1..], bytes[k..])
  }

  lemma HexDigitIs(c: char, n: nat)
    ensures HexDigit(c) == Some(n) <==> IsHex(c, n)
  {
  }

  lemma DigitIs(u: Unicode, c: char, n: nat)
    ensures Digit(u, c) == Some(n) <==> IsDigit(u, c, n)
  {
    HexDigitIs(c, n);
    if HexDigit(c).Some? { HexDigitIs(c, HexDigit(c).value); }
    forall m: nat ensures HexDigit(c) == Some(m) <==> IsHex(c, m) { HexDigitIs(c, m); }
  }

  lemma EscapeIs(u: Unicode, c: char, d: char, n: nat)
    ensures EscapeGives(u, c, d, n) <==> n < 256 && IntBase16(u, c, d) == Ok(n)
  {
    forall k: nat ensures Digit(u, c) == Some(k) <==> IsDigit(u, c, k) { DigitIs(u, c, k); }
    forall k: nat ensures Digit(u, d) == Some(k) <==> IsDigit(u, d, k) { DigitIs(u, d, k); }
    if Digit(u, d).Some? { assert IsDigit(u, d, Digit(u, d).value); }
    if Digit(u, c).Some? { assert IsDigit(u, c, Digit(u, c).value); }
  }

  lemma OneCharacter(c: char)
    ensures Utf8All([c]) == Utf8(c)
  {
    assert [c][1..] == "";
  }

  lemma SpellsChar(u: Unicode, w: string, bytes: seq<byte>)
    requires w != "" && !(|w| >= 4 && w[0] == '\\' && w[1] == 'x')
    ensures Spells(u, w, bytes) <==>
            Utf8(w[0]) <= bytes && Spells(u, w[1..], bytes[|Utf8(w[0])|..])
  {
    OneCharacter(w[0]);
    forall k: nat | k <= |bytes| ensures Read(bytes[..k]) == Some([w[0]]) <==> bytes[..k] == Utf8(w[0]) {
      ReadIff(bytes[..k], [w[0]]);
    }
    if Utf8(w[0]) <= bytes { assert bytes[..|Utf8(w[0])|] == Utf8(w[0]); }
  }

  lemma ThenIs<T>(front: seq<T>, rest: Result<seq<T>>, whole: seq<T>)
    ensures Then(front, rest) == Ok(whole) <==> front <= whole && rest == Ok(whole[|front|..])
  {
    if front <= whole { assert whole == front + whole[|front|..]; }
  }

  /** A word is decoded to the bytes it spells, and to no others. */
  lemma {:induction false} DecodedIff(u: Unicode, a: string, i: nat, bytes: seq<byte>)
    requires i <= |a|
    ensures Decoded(u, a, i) == Ok(bytes) <==> Spells(u, a[i..], bytes)
    decreases |a| - i
  {
    var w := a[i..];
    if w != "" && |w| >= 4 && w[0] == '\\' && w[1] == 'x' {
      assert EscapeAt(a, i) && w[4..] == a[i + 4..];
      var n := IntBase16(u, a[i + 2], a[i + 3]);
      if n.Ok? && 0 <= n.value < 256 { ThenIs([n.value as byte], Decoded(u, a, i + 4), bytes); }
      if bytes != [] {
        EscapeIs(u, w[2], w[3], bytes[0]);
        DecodedIff(u, a, i + 4, bytes[1..]);
      }
    } else if w != "" {
      assert !EscapeAt(a, i) && w[1..] == a[i + 1..] && w[0] == a[i];
      SpellsChar(u, w, bytes);
      ThenIs(Utf8(a[i]), Decoded(u, a, i + 1), bytes);
      if Utf8(a[i]) <= bytes { DecodedIff(u, a, i + 1, bytes[|Utf8(a[i])|..]); }
    }
  }

  // ------------------------------------------------------------------ the placeholder

  ghost predicate Holds(w: string) {
    exists i :: 0 <= i <= |w| && "$TMP" <= w[i..]
  }

  lemma {:induction false} HasTmpIff(w: string)
    ensures HasTmp(w) <==> Holds(w)
  {
    if w != "" {
      HasTmpIff(w[1..]);
      assert w[0..] == w;
      if i :| 0 <= i <= |w| && "$TMP" <= w[i..] {
        assert i > 0 ==> w[1..][i - 1..] == w[i..];
      }
      if i :| 0 <= i <= |w[1..]| && "$TMP" <= w[1..][i..] {
        assert w[1..][i..] == w[i + 1..];
      }
    }
  }

  lemma HoldsLater(w: string)
    requires w != "" && !Holds(w)
    ensures !Holds(w[1..]) && !(TMP <= w)
  {
    assert w[0..] == w;
    forall i | 0 <= i <= |w[1..]| ensures !("$TMP" <= w[1..][i..]) {
      assert w[1..][i..] == w[i + 1..];
    }
  }

  lemma {:induction false} NothingReplaced(w: string, tmp: string)
    requires !Holds(w)
    ensures Replaced(w, tmp) == w
  {
    if w != "" {
      HoldsLater(w);
      NothingReplaced(w[1..], tmp);
      assert w == [w[0]] + w[1..];
    }
  }

  /** The first `$TMP` is found where it stands: none begins before it. */
  lemma NotYet(a: string, b: string)
    requires a != "" && !Holds(a)
    ensures var s := a + TMP + b; s[0] == a[0] && !(TMP <= s) && s[1..] == a[1..] + TMP + b
  {
    var s := a + TMP + b;
    HoldsLater(a);
    assert |a| < 4 ==> s[|a|] == '$' != TMP[|a|];
    assert |a| >= 4 ==> s[..4] == a[..4];
  }

  lemma {:induction false} ReplacedFirst(a: string, b: string, tmp: string)
    requires !Holds(a)
    ensures Replaced(a + TMP + b, tmp) == a + tmp + Replaced(b, tmp)
  {
    var s := a + TMP + b;
    if a == "" {
      assert s == TMP + b && s[4..] == b;
    } else {
      NotYet(a, b);
      HoldsLater(a);
      ReplacedFirst(a[1..], b, tmp);
      assert a + tmp + Replaced(b, tmp) == [a[0]] + (a[1..] + tmp + Replaced(b, tmp));
    }
  }

  /** Every `$TMP` is replaced where it stands, and nothing else: what is around it is kept. */
  lemma {:induction false} ReplacedInPlace(parts: seq<string>, tmp: string)
    requires forall k :: 0 <= k < |parts| ==> !Holds(parts[k])
    ensures Replaced(Joined(parts, "$TMP"), tmp) == Joined(parts, tmp)
  {
    if |parts| == 1 {
      NothingReplaced(parts[0], tmp);
    } else if |parts| > 1 {
      ReplacedInPlace(parts[1..], tmp);
      ReplacedFirst(parts[0], Joined(parts[1..], "$TMP"), tmp);
    }
  }

  /** And every word is such parts with the placeholder between them. */
  lemma {:induction false} PartsOf(w: string) returns (parts: seq<string>)
    ensures parts != [] && Joined(parts, "$TMP") == w && forall k :: 0 <= k < |parts| ==> !Holds(parts[k])
    decreases |w|
  {
    parts := [w];
    if Holds(w) {
      var i := FirstHeld(w);
      var rest := PartsOf(w[i + 4..]);
      parts := [w[..i]] + rest;
      assert parts[1..] == rest && w == w[..i] + "$TMP" + w[i + 4..];
    }
  }

  lemma {:induction false} FirstHeld(w: string) returns (i: nat)
    requires Holds(w)
    ensures i + 4 <= |w| && "$TMP" <= w[i..] && !Holds(w[..i])
  {
    if "$TMP" <= w {
      i := 0;
      assert w[0..] == w;
    } else {
      HasTmpIff(w);
      HasTmpIff(w[1..]);
      var j := FirstHeld(w[1..]);
      i := j + 1;
      assert w[1..][j..] == w[i..] && w[..i][1..] == w[1..][..j];
      HasTmpIff(w[..i]);
      HasTmpIff(w[1..][..j]);
      assert w[..i] <= w;
    }
  }

  // ------------------------------------------------------------------ what the arguments are

  /** The bytes a word is read as. */
  ghost predicate IsArgument(u: Unicode, w: string, tmp: string, bytes: seq<byte>) {
    if w == "\"\"" then bytes == []
    else if Holds(w) then
      exists parts :: Joined(parts, "$TMP") == w && (forall k :: 0 <= k < |parts| ==> !Holds(parts[k]))
                      && Read(bytes) == Some(Joined(parts, tmp))
    else Spells(u, w, bytes)
  }

  lemma ArgumentIff(u: Unicode, w: string, tmp: string, bytes: seq<byte>)
    ensures Argument(u, w, tmp) == Ok(bytes) <==> IsArgument(u, w, tmp, bytes)
  {
    HasTmpIff(w);
    DecodedIff(u, w, 0, bytes);
    assert w[0..] == w;
    if w != "\"\"" && Holds(w) {
      ReadIff(bytes, Replaced(w, tmp));
      var some := PartsOf(w);
      ReplacedInPlace(some, tmp);
      forall parts | Joined(parts, "$TMP") == w && (forall k :: 0 <= k < |parts| ==> !Holds(parts[k]))
        ensures Joined(parts, tmp) == Replaced(w, tmp)
      {
        ReplacedInPlace(parts, tmp);
      }
    }
  }

  ghost predicate AreArguments(u: Unicode, ws: seq<string>, tmp: string, args: seq<seq<byte>>) {
    |args| == |ws| && forall k :: 0 <= k < |ws| ==> IsArgument(u, ws[k], tmp, args[k])
  }

  /** All words are read as they are one by one. */
  lemma {:induction false} ArgumentsIff(u: Unicode, ws: seq<string>, tmp: string, args: seq<seq<byte>>)
    ensures Arguments(u, ws, tmp) == Ok(args) <==> AreArguments(u, ws, tmp, args)
  {
    if ws != [] {
      if args != [] {
        ArgumentIff(u, ws[0], tmp, args[0]);
        ArgumentsIff(u, ws[1..], tmp, args[1..]);
        assert args == [args[0]] + args[1..];
        assert forall k :: 0 <= k < |ws| - 1 ==> ws[1..][k] == ws[k + 1];
        assert |args| == |ws| ==> forall k :: 0 <= k < |args| - 1 ==> args[1..][k] == args[k + 1];
      }
    }
  }

  // ------------------------------------------------------------------ writing arguments so that they are read back

  /** The empty argument is written as two quotes. Any other, and it too where it can be, is written as a word that
      spells it, holds no white space and no placeholder, and is not the two quotes. */
  ghost predicate WritesArgument(u: Unicode, w: string, bytes: seq<byte>) {
    || (w == "\"\"" && bytes == [])
    || (w != "" && w != "\"\"" && !Holds(w) && Spells(u, w, bytes))
  }

  ghost predicate WritesAll(u: Unicode, ws: seq<string>, args: seq<seq<byte>>) {
    && |ws| == |args|
    && (forall k :: 0 <= k < |ws| ==> ws[k] != "" && forall c :: c in ws[k] ==> !u.space(c))
    && forall k :: 0 <= k < |ws| ==> WritesArgument(u, ws[k], args[k])
  }

  /** Whatever the arguments, written so and joined by spaces they are read back exactly. */
  lemma RoundTrip(u: Unicode, ws: seq<string>, args: seq<seq<byte>>, tmp: string)
    requires u.space(' ') && WritesAll(u, ws, args)
    ensures Arguments(u, WordsOf(u.space, Joined(ws, " ")), tmp) == Ok(args)
  {
    JoinedComeApart(u.space, ws);
    forall k | 0 <= k < |ws| ensures IsArgument(u, ws[k], tmp, args[k]) {
      assert WritesArgument(u, ws[k], args[k]);
    }
    ArgumentsIff(u, ws, tmp, args);
  }

  function Hex(n: nat): char
    requires n < 16
  {
    "0123456789abcdef"[n]
  }

  function Spelled(bytes: seq<byte>): string {
    if bytes == [] then "" else ['\\', 'x', Hex(bytes[0] / 16), Hex(bytes[0] % 16)] + Spelled(bytes[1..])
  }

  lemma NoDollarNoTmp(w: string)
    requires '$' !in w
    ensures !Holds(w)
  {
    forall i | 0 <= i <= |w| ensures !("$TMP" <= w[i..]) {
      assert "$TMP"[0] == '$' && (i < |w| ==> w[i..][0] == w[i] && w[i] in w);
    }
  }

  lemma HexIsRead(u: Unicode, n: byte)
    ensures EscapeGives(u, Hex(n / 16), Hex(n % 16), n)
  {
    assert IsHex(Hex(n / 16), n / 16) && IsHex(Hex(n % 16), n % 16);
    assert IsDigit(u, Hex(n / 16), n / 16) && IsDigit(u, Hex(n % 16), n % 16);
  }

  lemma SpelledFirst(u: Unicode, bytes: seq<byte>)
    requires Sane(u) && bytes != []
    ensures var w := Spelled(bytes);
            && |w| >= 4 && w[0] == '\\' && w[1] == 'x' && w[2] == Hex(bytes[0] / 16) && w[3] == Hex(bytes[0] % 16)
            && w[4..] == Spelled(bytes[1..])
            && forall c :: c in w ==> c in w[4..] || (!u.space(c) && c != '$' && c != '"')
  {
    var w := Spelled(bytes);
    assert w == w[..4] + w[4..] && w[4..] == Spelled(bytes[1..]);
    HexIsNoSpace(u, bytes[0] / 16);
    HexIsNoSpace(u, bytes[0] % 16);
    forall c | c in w && c !in w[4..] ensures !u.space(c) && c != '$' && c != '"' {
      assert c in w[..4];
    }
  }

  lemma HexIsNoSpace(u: Unicode, n: nat)
    requires Sane(u) && n < 16
    ensures !u.space(Hex(n)) && Hex(n) != '$' && Hex(n) != '"'
  {
  }

  /** And all arguments can be written so. */
  lemma {:induction false} SpelledSpells(u: Unicode, bytes: seq<byte>)
    requires Sane(u)
    ensures Spells(u, Spelled(bytes), bytes)
    ensures forall c :: c in Spelled(bytes) ==> !u.space(c) && c != '$' && c != '"'
    ensures bytes != [] ==> WritesArgument(u, Spelled(bytes), bytes)
  {
    if bytes != [] {
      var w := Spelled(bytes);
      SpelledSpells(u, bytes[1..]);
      HexIsRead(u, bytes[0]);
      SpelledFirst(u, bytes);
      NoDollarNoTmp(w);
      assert w[0] in w && "\"\""[0] == '"';
    }
  }

  // ------------------------------------------------------------------ when a word is refused

  /** Reading on from i comes to k as the beginning of a character or an escape. */
  predicate Reaches(a: string, i: nat, k: nat)
    decreases |a| - i
  {
    i == k || (i < |a| && Reaches(a, if EscapeAt(a, i) then i + 4 else i + 1, k))
  }

  ghost predicate GivesNothing(u: Unicode, c: char, d: char) {
    forall n: nat :: !EscapeGives(u, c, d, n)
  }

  /** An escape whose two characters are no byte's number. */
  ghost predicate BadEscape(u: Unicode, a: string, k: nat) {
    EscapeAt(a, k) && GivesNothing(u, a[k + 2], a[k + 3])
  }

  ghost predicate ComesToBad(u: Unicode, a: string, i: nat) {
    exists k: nat :: Reaches(a, i, k) && BadEscape(u, a, k)
  }

  lemma GivesNothingIff(u: Unicode, c: char, d: char)
    ensures GivesNothing(u, c, d) <==> IntBase16(u, c, d).Err? || !(0 <= IntBase16(u, c, d).value < 256)
  {
    var r := IntBase16(u, c, d);
    forall n: nat ensures EscapeGives(u, c, d, n) <==> n < 256 && r == Ok(n) { EscapeIs(u, c, d, n); }
    if r.Ok? && 0 <= r.value {
      var n: nat := r.value;
      assert EscapeGives(u, c, d, n) <==> n < 256;
    }
  }

  /** A word is refused exactly when reading it comes to such an escape. */
  lemma {:induction false} RefusedIff(u: Unicode, a: string, i: nat)
    ensures Decoded(u, a, i).Err? <==> ComesToBad(u, a, i)
    ensures Decoded(u, a, i).Err? ==> Decoded(u, a, i).fault == ValueError
    decreases |a| - i
  {
    if i < |a| {
      var next := if EscapeAt(a, i) then i + 4 else i + 1;
      if EscapeAt(a, i) { GivesNothingIff(u, a[i + 2], a[i + 3]); }
      RefusedIff(u, a, next);
      if ComesToBad(u, a, next) {
        var k: nat :| Reaches(a, next, k) && BadEscape(u, a, k);
        assert Reaches(a, i, k);
      }
      if BadEscape(u, a, i) { assert Reaches(a, i, i); }
      if ComesToBad(u, a, i) {
        var k: nat :| Reaches(a, i, k) && BadEscape(u, a, k);
        assert k == i || Reaches(a, next, k);
      }
    }
  }

  /** An argument is refused: it is decoded at all, and its reading comes to such an escape. */
  ghost predicate Refused(u: Unicode, a: string) {
    a != "\"\"" && !Holds(a) && ComesToBad(u, a, 0)
  }

  lemma ArgumentRefusedIff(u: Unicode, a: string, tmp: string)
    ensures Argument(u, a, tmp).Err? <==> Refused(u, a)
    ensures Argument(u, a, tmp).Err? ==> Argument(u, a, tmp).fault == ValueError
  {
    HasTmpIff(a);
    RefusedIff(u, a, 0);
  }

  /** A case's arguments are refused exactly when one of the words is neither `""` nor holds `$TMP`, and comes to
      such an escape. */
  lemma {:induction false} ArgumentsRefusedIff(u: Unicode, ws: seq<string>, tmp: string)
    ensures Arguments(u, ws, tmp).Err? <==> exists k :: 0 <= k < |ws| && Refused(u, ws[k])
    ensures Arguments(u, ws, tmp).Err? ==> Arguments(u, ws, tmp).fault == ValueError
  {
    if ws != [] {
      ArgumentRefusedIff(u, ws[0], tmp);
      ArgumentsRefusedIff(u, ws[1..], tmp);
      if k :| 0 <= k < |ws| && Refused(u, ws[k]) {
        assert k > 0 ==> ws[1..][k - 1] == ws[k];
      }
      if k :| 0 <= k < |ws[1..]| && Refused(u, ws[1..][k]) {
        assert ws[k + 1] == ws[1..][k];
      }
    }
  }

  // ------------------------------------------------------------------ words that are not escaped

  /** Without an escape every character is its UTF-8 bytes. */
  lemma {:induction false} PassesThrough(u: Unicode, a: string, i: nat)
    requires i <= |a| && forall k :: i <= k < |a| ==> !EscapeAt(a, k)
    ensures Decoded(u, a, i) == Ok(Utf8All(a[i..]))
    decreases |a| - i
  {
    if i < |a| {
      PassesThrough(u, a, i + 1);
      assert a[i..][1..] == a[i + 1..];
    }
  }

  // ------------------------------------------------------------------ the decoder

  method DecodeWord(u: Unicode, a: string) returns (r: Result<seq<byte>>)
    ensures r == Decoded(u, a, 0)
  {
    var b: seq<byte> := [];
    var i := 0;
    ThenJoins([], b, Decoded(u, a, 0));
    while i < |a|
      invariant 0 <= i <= |a|
      invariant Decoded(u, a, 0) == Then(b, Decoded(u, a, i))
    {
      if EscapeAt(a, i) {
        var n := IntBase16(u, a[i + 2], a[i + 3]);
        if n.Err? || !(0 <= n.value < 256) { return Err(ValueError); }
        ThenJoins(b, [n.value], Decoded(u, a, i + 4));
        b := b + [n.value];
        i := i + 4;
      } else {
        ThenJoins(b, Utf8(a[i]), Decoded(u, a, i + 1));
        b := b + Utf8(a[i]);
        i := i + 1;
      }
    }
    assert b + [] == b;
    r := Ok(b);
  }

  method Decode(u: Unicode, h: string, tmp: string) returns (r: Result<seq<seq<byte>>>)
    ensures r == Arguments(u, WordsOf(u.space, h), tmp)
    ensures r.Ok? ==> AreArguments(u, WordsOf(u.space, h), tmp, r.value)
    ensures r.Err? <==> exists k :: 0 <= k < |WordsOf(u.space, h)| && Refused(u, WordsOf(u.space, h)[k])
  {
    var ws := WordsOf(u.space, h);
    var out: seq<seq<byte>> := [];
    ThenJoins([], out, Arguments(u, ws, tmp));
    ArgumentsRefusedIff(u, ws, tmp);
    for k := 0 to |ws|
      invariant Arguments(u, ws, tmp) == Then(out, Arguments(u, ws[k..], tmp))
    {
      assert ws[k..][0] == ws[k] && ws[k..][1..] == ws[k + 1..];
      var next: seq<byte> := [];
      if ws[k] == "\"\"" {
      } else if HasTmp(ws[k]) {
        next := Utf8All(Replaced(ws[k], tmp));
      } else {
        var b := DecodeWord(u, ws[k]);
        if b.Err? { return Err(b.fault); }
        next := b.value;
      }
      ThenJoins(out, [next], Arguments(u, ws[k + 1..], tmp));
      out := out + [next];
    }
    assert out + [] == out;
    ArgumentsIff(u, ws, tmp, out);
    r := Ok(out);
  }
}
