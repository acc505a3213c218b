/** The fixed hasher of the interpreter's tables: what two byte strings must share to hash alike. */
module FxHash {
  import opened Words

  // ------------------------------------------------------------------ bytes and words

  /** The little-endian word of eight bytes. */
  function Word(b0: bv8, b1: bv8, b2: bv8, b3: bv8, b4: bv8, b5: bv8, b6: bv8, b7: bv8): bv64 {
    (b0 as bv64) | ((b1 as bv64) << 8) | ((b2 as bv64) << 16) | ((b3 as bv64) << 24) | ((b4 as bv64) << 32)
    | ((b5 as bv64) << 40) | ((b6 as bv64) << 48) | ((b7 as bv64) << 56)
  }

  function Byte(w: bv64, k: bv7): bv8
    requires k < 64
  {
    ((w >> k) & 0xFF) as bv8
  }

  function FromLe(b: seq<bv8>): bv64
    requires |b| == 8
  {
    Word(b[0], b[1], b[2], b[3], b[4], b[5], b[6], b[7])
  }

  function ToLe(w: bv64): (b: seq<bv8>)
    ensures |b| == 8
  {
    [Byte(w, 0), Byte(w, 8), Byte(w, 16), Byte(w, 24), Byte(w, 32), Byte(w, 40), Byte(w, 48), Byte(w, 56)]
  }

  lemma Byte0OfWord(b0: bv8, b1: bv8, b2: bv8, b3: bv8, b4: bv8, b5: bv8, b6: bv8, b7: bv8)
    ensures Byte(Word(b0, b1, b2, b3, b4, b5, b6, b7), 0) == b0
  {
  }

  lemma Byte1OfWord(b0: bv8, b1: bv8, b2: bv8, b3: bv8, b4: bv8, b5: bv8, b6: bv8, b7: bv8)
    ensures Byte(Word(b0, b1, b2, b3, b4, b5, b6, b7), 8) == b1
  {
  }

  lemma Byte2OfWord(b0: bv8, b1: bv8, b2: bv8, b3: bv8, b4: bv8, b5: bv8, b6: bv8, b7: bv8)
    ensures Byte(Word(b0, b1, b2, b3, b4, b5, b6, b7), 16) == b2
  {
  }

  lemma Byte3OfWord(b0: bv8, b1: bv8, b2: bv8, b3: bv8, b4: bv8, b5: bv8, b6: bv8, b7: bv8)
    ensures Byte(Word(b0, b1, b2, b3, b4, b5, b6, b7), 24) == b3
  {
  }

  lemma Byte4OfWord(b0: bv8, b1: bv8, b2: bv8, b3: bv8, b4: bv8, b5: bv8, b6: bv8, b7: bv8)
    ensures Byte(Word(b0, b1, b2, b3, b4, b5, b6, b7), 32) == b4
  {
  }

  lemma Byte5OfWord(b0: bv8, b1: bv8, b2: bv8, b3: bv8, b4: bv8, b5: bv8, b6: bv8, b7: bv8)
    ensures Byte(Word(b0, b1, b2, b3, b4, b5, b6, b7), 40) == b5
  {
  }

  lemma Byte6OfWord(b0: bv8, b1: bv8, b2: bv8, b3: bv8, b4: bv8, b5: bv8, b6: bv8, b7: bv8)
    ensures Byte(Word(b0, b1, b2, b3, b4, b5, b6, b7), 48) == b6
  {
  }

  lemma Byte7OfWord(b0: bv8, b1: bv8, b2: bv8, b3: bv8, b4: bv8, b5: bv8, b6: bv8, b7: bv8)
    ensures Byte(Word(b0, b1, b2, b3, b4, b5, b6, b7), 56) == b7
  {
  }

  lemma WordOfBytes(w: bv64)
    ensures Word(Byte(w, 0), Byte(w, 8), Byte(w, 16), Byte(w, 24),
                 Byte(w, 32), Byte(w, 40), Byte(w, 48), Byte(w, 56)) == w
  {
  }

  lemma BytesAreTold(b: seq<bv8>)
    requires |b| == 8
    ensures ToLe(FromLe(b)) == b
  {
    Byte0OfWord(b[0], b[1], b[2], b[3], b[4], b[5], b[6], b[7]);
    Byte1OfWord(b[0], b[1], b[2], b[3], b[4], b[5], b[6], b[7]);
    Byte2OfWord(b[0], b[1], b[2], b[3], b[4], b[5], b[6], b[7]);
    Byte3OfWord(b[0], b[1], b[2], b[3], b[4], b[5], b[6], b[7]);
    Byte4OfWord(b[0], b[1], b[2], b[3], b[4], b[5], b[6], b[7]);
    Byte5OfWord(b[0], b[1], b[2], b[3], b[4], b[5], b[6], b[7]);
    Byte6OfWord(b[0], b[1], b[2], b[3], b[4], b[5], b[6], b[7]);
    Byte7OfWord(b[0], b[1], b[2], b[3], b[4], b[5], b[6], b[7]);
  }

  /** The length mark of a tail, in the byte no tail reaches. */
  function Tag(n: nat): bv64
    requires n < 8
  {
    (n as bv64) << 56
  }

  lemma TagTells(n: nat)
    requires n < 8
    ensures Byte(Tag(n), 56) as nat == n
  {
  }

  lemma TaggedWord(b0: bv8, b1: bv8, b2: bv8, b3: bv8, b4: bv8, b5: bv8, b6: bv8, x: bv64)
    ensures Xor(Word(b0, b1, b2, b3, b4, b5, b6, 0), x << 56) == Word(b0, b1, b2, b3, b4, b5, b6, Byte(x << 56, 56))
  {
  }

  /** Up to seven bytes in a cleared eight-byte buffer. */
  function Padded(rest: seq<bv8>): (b: seq<bv8>)
    requires |rest| < 8
    ensures |b| == 8
  {
    rest + seq(8 - |rest|, _ => 0)
  }

  function TailWord(rest: seq<bv8>): bv64
    requires |rest| < 8
  {
    Xor(FromLe(Padded(rest)), Tag(|rest|))
  }

  /** The tail read back from its word: the top byte says how many of the others count. */
  function TailOf(w: bv64): seq<bv8> {
    var b := ToLe(w);
    if b[7] < 8 then b[..b[7] as nat] else []
  }

  lemma TagShifts(n: nat)
    requires n < 8
    ensures Tag(n) == (n as bv64) << 56
  {
  }

  lemma TailBytes(rest: seq<bv8>)
    requires |rest| < 8
    ensures ToLe(TailWord(rest)) == Padded(rest)[..7] + [Byte(Tag(|rest|), 56)]
  {
    var b, n := Padded(rest), |rest|;
    TaggedWord(b[0], b[1], b[2], b[3], b[4], b[5], b[6], n as bv64);
    TagShifts(n);
    var c := b[..7] + [Byte(Tag(n), 56)];
    assert FromLe(c) == TailWord(rest);
    BytesAreTold(c);
  }

  /** A tail is told by its word, its length included: tails of different lengths never meet. */
  lemma TailIsTold(rest: seq<bv8>)
    requires |rest| < 8
    ensures TailOf(TailWord(rest)) == rest
  {
    TailBytes(rest);
    TagTells(|rest|);
    assert Padded(rest)[..7][..|rest|] == rest;
  }

  // ------------------------------------------------------------------ the mixing step

  function TimesSeed(z: bv64): bv64 { z * 0x517cc1b727220a95 }

  /** The multiplier is odd; this is its inverse modulo 2 to the 64. */
  function OverSeed(z: bv64): bv64 { z * 0x2040003d780970bd }

  lemma SeedProduct(z: bv64)
    ensures OverSeed(z * 0x517cc1b727220a95) == z
  {
    assert OverSeed(z * 0x517cc1b727220a95) == z * 0x517cc1b727220a95 * 0x2040003d780970bd;
  }

  lemma OverSeedTimes(z: bv64)
    ensures OverSeed(TimesSeed(z)) == z
  {
    assert TimesSeed(z) == z * 0x517cc1b727220a95;
    SeedProduct(z);
  }

  lemma InverseProduct(z: bv64)
    ensures TimesSeed(z * 0x2040003d780970bd) == z
  {
    assert TimesSeed(z * 0x2040003d780970bd) == z * 0x2040003d780970bd * 0x517cc1b727220a95;
  }

  lemma TimesSeedOver(z: bv64)
    ensures TimesSeed(OverSeed(z)) == z
  {
    assert OverSeed(z) == z * 0x2040003d780970bd;
    InverseProduct(z);
  }

  lemma Rotl5Then59(z: bv64)
    ensures Rotl(Rotl(z, 5), 59) == z
  {
  }

  lemma Rotl59Then5(z: bv64)
    ensures Rotl(Rotl(z, 59), 5) == z
  {
  }

  /** The hash after one more word. */
  function Mixed(h: bv64, word: bv64): bv64 {
    TimesSeed(Xor(Rotl(h, 5), word))
  }

  /** The hash that becomes `mixed` when `word` is added, and the word that makes `mixed` of h. */
  function StateBefore(mixed: bv64, word: bv64): bv64 {
    Rotl(Xor(OverSeed(mixed), word), 59)
  }

  function WordBetween(h: bv64, mixed: bv64): bv64 {
    Xor(Rotl(h, 5), OverSeed(mixed))
  }

  lemma StateIsRecovered(h: bv64, word: bv64)
    ensures StateBefore(Mixed(h, word), word) == h
  {
    OverSeedTimes(Xor(Rotl(h, 5), word));
    XorCancels(word, Rotl(h, 5));
    Rotl5Then59(h);
  }

  lemma StateIsReached(mixed: bv64, word: bv64)
    ensures Mixed(StateBefore(mixed, word), word) == mixed
  {
    Rotl59Then5(Xor(OverSeed(mixed), word));
    XorCancels(word, OverSeed(mixed));
    TimesSeedOver(mixed);
  }

  lemma WordIsRecovered(h: bv64, word: bv64)
    ensures WordBetween(h, Mixed(h, word)) == word
  {
    OverSeedTimes(Xor(Rotl(h, 5), word));
    XorCancels(Rotl(h, 5), word);
  }

  lemma WordIsReached(h: bv64, mixed: bv64)
    ensures Mixed(h, WordBetween(h, mixed)) == mixed
  {
    XorCancels(Rotl(h, 5), OverSeed(mixed));
    TimesSeedOver(mixed);
  }

  /** Adding a word is a bijection of the hash for each word, and of the word for each hash. */
  lemma MixedIsABijection(h: bv64, word: bv64)
    ensures StateBefore(Mixed(h, word), word) == h && Mixed(StateBefore(h, word), word) == h
    ensures WordBetween(h, Mixed(h, word)) == word && Mixed(h, WordBetween(h, word)) == word
  {
    StateIsRecovered(h, word);
    StateIsReached(h, word);
    WordIsRecovered(h, word);
    WordIsReached(h, word);
  }

  // ------------------------------------------------------------------ byte strings

  /** A word is its bytes to the base 256, the first the lowest. */
  lemma WordIs(b: seq<bv8>)
    requires |b| == 8
    ensures FromLe(b) == b[0] as bv64 + 0x100 * (b[1] as bv64 + 0x100 * (b[2] as bv64 + 0x100 * (b[3] as bv64
      + 0x100 * (b[4] as bv64 + 0x100 * (b[5] as bv64 + 0x100 * (b[6] as bv64 + 0x100 * b[7] as bv64))))))
  {
  }

  /** The hash after writing a byte string. */
  function Absorbed(h: bv64, bytes: seq<bv8>): bv64
    decreases |bytes|
  {
    if |bytes| >= 8 then Absorbed(Mixed(h, FromLe(bytes[..8])), bytes[8..])
    else if bytes == [] then h
    else Mixed(h, TailWord(bytes))
  }

  /** Nine bytes written into a new hasher. */
  lemma CheckValue()
    ensures Absorbed(0, [1, 2, 3, 4, 5, 6, 7, 8, 9]) == 0x38943B1153366AC4
  {
    var bytes: seq<bv8> := [1, 2, 3, 4, 5, 6, 7, 8, 9];
    assert bytes[..8] == [1, 2, 3, 4, 5, 6, 7, 8] && bytes[8..] == [9];
    assert FromLe(bytes[..8]) == 0x807060504030201;
    assert Mixed(0, 0x807060504030201) == 0xEEBEE07EDEF63495;
    assert Padded([9]) == [9, 0, 0, 0, 0, 0, 0, 0];
    assert TailWord([9]) == 0x100000000000009;
    assert Mixed(0xEEBEE07EDEF63495, 0x100000000000009) == 0x38943B1153366AC4;
  }

  /** Whole words can be written before the rest. */
  lemma {:induction false} WritesJoin(h: bv64, a: seq<bv8>, b: seq<bv8>)
    requires |a| % 8 == 0
    ensures Absorbed(h, a + b) == Absorbed(Absorbed(h, a), b)
    decreases |a|
  {
    if a == [] {
      assert a + b == b;
    } else {
      assert (a + b)[..8] == a[..8] && (a + b)[8..] == a[8..] + b;
      WritesJoin(Mixed(h, FromLe(a[..8])), a[8..], b);
    }
  }

  /** What a byte string does to the hash loses nothing. */
  lemma {:induction false} StateIsTold(h: bv64, h': bv64, bytes: seq<bv8>)
    requires Absorbed(h, bytes) == Absorbed(h', bytes)
    ensures h == h'
    decreases |bytes|
  {
    if |bytes| >= 8 {
      var w := FromLe(bytes[..8]);
      StateIsTold(Mixed(h, w), Mixed(h', w), bytes[8..]);
      StateIsRecovered(h, w);
      StateIsRecovered(h', w);
    } else if bytes != [] {
      StateIsRecovered(h, TailWord(bytes));
      StateIsRecovered(h', TailWord(bytes));
    }
  }

  lemma ChunkAlone(h: bv64, chunk: seq<bv8>)
    requires |chunk| == 8
    ensures Absorbed(h, chunk) == Mixed(h, FromLe(chunk))
  {
    assert chunk[..8] == chunk;
    assert Absorbed(Mixed(h, FromLe(chunk)), []) == Mixed(h, FromLe(chunk));
  }

  lemma ChunkMatters(h: bv64, chunk: seq<bv8>, chunk': seq<bv8>)
    requires |chunk| == |chunk'| == 8 && Absorbed(h, chunk) == Absorbed(h, chunk')
    ensures chunk == chunk'
  {
    ChunkAlone(h, chunk);
    ChunkAlone(h, chunk');
    WordIsRecovered(h, FromLe(chunk));
    WordIsRecovered(h, FromLe(chunk'));
    BytesAreTold(chunk);
    BytesAreTold(chunk');
  }

  lemma Grouped(a: seq<bv8>, b: seq<bv8>, c: seq<bv8>)
    ensures a + b + c == a + (b + c)
  {
  }

  lemma ThreeJoin(h: bv64, before: seq<bv8>, chunk: seq<bv8>, after: seq<bv8>)
    requires |before| % 8 == 0 && |chunk| == 8
    ensures Absorbed(h, before + chunk + after) == Absorbed(Absorbed(Absorbed(h, before), chunk), after)
  {
    Grouped(before, chunk, after);
    WritesJoin(h, before, chunk + after);
    WritesJoin(Absorbed(h, before), chunk, after);
  }

  /** Two strings alike but for one eight-byte chunk, anywhere, hash differently from every state. */
  lemma OneChunkTells(h: bv64, before: seq<bv8>, chunk: seq<bv8>, chunk': seq<bv8>, after: seq<bv8>)
    requires |before| % 8 == 0 && |chunk| == |chunk'| == 8
    requires Absorbed(h, before + chunk + after) == Absorbed(h, before + chunk' + after)
    ensures chunk == chunk'
  {
    var g := Absorbed(h, before);
    ThreeJoin(h, before, chunk, after);
    ThreeJoin(h, before, chunk', after);
    StateIsTold(Absorbed(g, chunk), Absorbed(g, chunk'), after);
    ChunkMatters(g, chunk, chunk');
  }

  /** Every hash is what some state becomes. */
  lemma {:induction false} StateForHash(bytes: seq<bv8>, target: bv64) returns (h: bv64)
    ensures Absorbed(h, bytes) == target
    decreases |bytes|
  {
    if |bytes| >= 8 {
      var g := StateForHash(bytes[8..], target);
      StateIsReached(g, FromLe(bytes[..8]));
      h := StateBefore(g, FromLe(bytes[..8]));
    } else if bytes == [] {
      h := target;
    } else {
      StateIsReached(target, TailWord(bytes));
      h := StateBefore(target, TailWord(bytes));
    }
  }

  lemma ChunkForState(g: bv64, target: bv64) returns (chunk: seq<bv8>)
    ensures |chunk| == 8 && Absorbed(g, chunk) == target
  {
    chunk := ToLe(WordBetween(g, target));
    ChunkAlone(g, chunk);
    WordOfBytes(WordBetween(g, target));
    WordIsReached(g, target);
  }

  /** Whatever whole words stand before it and whatever stands after, exactly one chunk leads to a given hash. */
  lemma OneChunkForEveryHash(h: bv64, before: seq<bv8>, after: seq<bv8>, target: bv64) returns (chunk: seq<bv8>)
    requires |before| % 8 == 0
    ensures |chunk| == 8 && Absorbed(h, before + chunk + after) == target
    ensures forall other :: |other| == 8 && Absorbed(h, before + other + after) == target ==> other == chunk
  {
    var wanted := StateForHash(after, target);
    chunk := ChunkForState(Absorbed(h, before), wanted);
    ThreeJoin(h, before, chunk, after);
    forall other | |other| == 8 && Absorbed(h, before + other + after) == target ensures other == chunk {
      OneChunkTells(h, before, other, chunk, after);
    }
  }

  /** Two strings alike up to their last, incomplete chunks hash differently, whatever the lengths of those. */
  lemma TailsTell(h: bv64, before: seq<bv8>, tail: seq<bv8>, tail': seq<bv8>)
    requires |before| % 8 == 0 && 0 < |tail| < 8 && 0 < |tail'| < 8
    requires Absorbed(h, before + tail) == Absorbed(h, before + tail')
    ensures tail == tail'
  {
    var g := Absorbed(h, before);
    WritesJoin(h, before, tail);
    WritesJoin(h, before, tail');
    TailIsTold(tail);
    TailIsTold(tail');
    WordIsRecovered(g, TailWord(tail));
    WordIsRecovered(g, TailWord(tail'));
  }

  // ------------------------------------------------------------------ the hasher

  class FxHasher {
    var hash: bv64

    constructor ()
      ensures hash == 0
    {
      hash := 0;
    }

    method Add(word: bv64)
      modifies this
      ensures hash == Mixed(old(hash), word)
    {
      hash := TimesSeed(Xor(Rotl(hash, 5), word));
    }

    method Write(bytes: seq<bv8>)
      modifies this
      ensures hash == Absorbed(old(hash), bytes)
    {
      var i := 0;
      while |bytes| - i >= 8
        invariant 0 <= i <= |bytes|
        invariant Absorbed(hash, bytes[i..]) == Absorbed(old(hash), bytes)
      {
        assert bytes[i..][..8] == bytes[i..i + 8] && bytes[i..][8..] == bytes[i + 8..];
        Add(FromLe(bytes[i..i + 8]));
        i := i + 8;
      }
      if |bytes| - i > 0 {
        AddRemainder(bytes[i..]);
      }
    }

    /** The remainder copied into a cleared buffer, with its length marked in the top byte. */
    method AddRemainder(rest: seq<bv8>)
      requires |rest| < 8
      modifies this
      ensures hash == Mixed(old(hash), TailWord(rest))
    {
      var w := new bv8[8](_ => 0);
      for k := 0 to |rest|
        invariant w[..k] == rest[..k] && forall j :: k <= j < 8 ==> w[j] == 0
        invariant hash == old(hash)
      {
        w[k] := rest[k];
      }
      assert w[..] == Padded(rest);
      Add(Xor(FromLe(w[..]), Tag(|rest|)));
    }

    method Finish() returns (h: bv64)
      ensures h == hash
    {
      h := hash;
    }
  }
}
