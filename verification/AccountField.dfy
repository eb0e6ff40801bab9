/** How account ids and other byte strings enter the public inputs. */
module AccountField {
  import opened Arithmetic
  import opened Limbs
  import opened Residues
  import opened Merkle

  const CHUNK: nat := 31

  /** The 31-byte chunks, the last one possibly shorter. */
  function Chunks(b: seq<byte>): seq<seq<byte>> {
    if b == [] then [] else if |b| <= CHUNK then [b] else [b[..CHUNK]] + Chunks(b[CHUNK..])
  }

  function ChunkField(c: seq<byte>): Fe {
    LeValue(256, c) % P
  }

  function ChunkFields(b: seq<byte>): seq<Fe> {
    var chunks := Chunks(b);
    seq(|chunks|, i requires 0 <= i < |chunks| => ChunkField(chunks[i]))
  }

  /** The fold of the first `n` elements: `acc = poseidon2(acc, next)`. */
  function Fold(h: Hash2, fs: seq<Fe>, n: nat): Fe
    requires 0 < n <= |fs|
  {
    if n == 1 then fs[0] else h(Fold(h, fs, n - 1), fs[n - 1])
  }

  /** The element a byte string stands for, in the contract and in the SDK alike. */
  function HashBytes(h: Hash2, b: seq<byte>): Fe {
    var fs := ChunkFields(b);
    if fs == [] then 0 else Fold(h, fs, |fs|)
  }

  /** `hash_bytes_to_field`: the first chunk, then one hash per further chunk. */
  method HashBytesToField(h: Hash2, b: seq<byte>) returns (acc: Fe)
    ensures acc == HashBytes(h, b)
  {
    var chunks := ChunkFields(b);
    if |chunks| == 0 {
      return 0;
    }
    if |chunks| == 1 {
      return chunks[0];
    }
    acc := chunks[0];
    for i := 1 to |chunks|
      invariant acc == Fold(h, chunks, i)
    {
      acc := h(acc, chunks[i]);
    }
  }

  // ----- byte strings as zero-padded words -----

  /** Byte `i` of the string padded with zeros. */
  function ByteAt(b: seq<byte>, i: nat): byte {
    if i < |b| then b[i] else 0
  }

  /** Chunk `i`, padded with zeros to its full width. */
  function Word(b: seq<byte>, i: nat): (w: seq<byte>)
    ensures |w| == CHUNK && forall k :: 0 <= k < CHUNK ==> w[k] == ByteAt(b, CHUNK * i + k)
  {
    seq<byte>(CHUNK, k requires 0 <= k < CHUNK => ByteAt(b, CHUNK * i + k))
  }

  /** How many chunks a string has; the empty string stands for one chunk of zeros. */
  function WordCount(b: seq<byte>): nat {
    if b == [] then 1 else (|b| + CHUNK - 1) / CHUNK
  }

  /** What the fold runs over. */
  function Inputs(b: seq<byte>): seq<Fe> {
    seq(WordCount(b), i requires 0 <= i < WordCount(b) => ChunkField(Word(b, i)))
  }

  lemma {:induction false} ZerosAreWorthless(n: nat)
    ensures LeValue(256, seq(n, _ => 0)) == 0
  {
    if n > 0 {
      ZerosAreWorthless(n - 1);
      assert seq(n, _ => 0)[1..] == seq(n - 1, _ => 0);
    }
  }

  lemma PaddingKeepsField(c: seq<byte>)
    requires |c| <= CHUNK
    ensures ChunkField(c) == ChunkField(Word(c, 0))
  {
    var zeros := seq(CHUNK - |c|, _ => 0);
    LeAppend(256, c, zeros);
    ZerosAreWorthless(CHUNK - |c|);
    assert Word(c, 0) == c + zeros;
  }

  lemma ShiftedWord(b: seq<byte>, i: nat)
    requires |b| > CHUNK
    ensures Word(b, i + 1) == Word(b[CHUNK..], i)
  {
  }

  lemma InputsOfRest(b: seq<byte>)
    requires |b| > CHUNK
    ensures Inputs(b) == [ChunkField(b[..CHUNK])] + Inputs(b[CHUNK..])
  {
    var rest := b[CHUNK..];
    assert Word(b, 0) == b[..CHUNK];
    forall i: nat | i < WordCount(rest)
      ensures Inputs(b)[i + 1] == Inputs(rest)[i]
    {
      ShiftedWord(b, i);
    }
  }

  lemma ChunkFieldsOfRest(b: seq<byte>)
    requires |b| > CHUNK
    ensures ChunkFields(b) == [ChunkField(b[..CHUNK])] + ChunkFields(b[CHUNK..])
  {
  }

  lemma {:induction false} ChunksAreWords(b: seq<byte>)
    requires b != []
    ensures ChunkFields(b) == Inputs(b)
  {
    if |b| <= CHUNK {
      PaddingKeepsField(b);
    } else {
      InputsOfRest(b);
      ChunkFieldsOfRest(b);
      ChunksAreWords(b[CHUNK..]);
    }
  }

  /** Every byte string, the empty one included, stands for the fold of its padded chunks. */
  lemma HashIsFold(h: Hash2, b: seq<byte>)
    ensures HashBytes(h, b) == Fold(h, Inputs(b), WordCount(b))
  {
    if b == [] {
      PaddingKeepsField([]);
    } else {
      ChunksAreWords(b);
    }
  }

  /** Padded chunks are determined by their field elements: 248 bits fit below the modulus. */
  lemma WordInjective(c: seq<byte>, d: seq<byte>)
    requires |c| == |d| == CHUNK
    ensures ChunkField(c) == ChunkField(d) <==> c == d
  {
    ChunkBelowModulus(c);
    ChunkBelowModulus(d);
    if ChunkField(c) == ChunkField(d) {
      LeUnique(256, c, d);
    }
  }

  lemma ChunkBelowModulus(c: seq<byte>)
    requires |c| == CHUNK
    ensures ChunkField(c) == LeValue(256, c)
  {
    LeBound(256, c);
    WireWidth();
    assert Pow(256, 32) == 256 * Pow(256, 31);
    ModSmall(LeValue(256, c), P);
  }

  // ----- when two folds meet -----

  /** The pairs hashed by the fold. */
  ghost function FoldPairs(h: Hash2, fs: seq<Fe>, n: nat): set<(Fe, Fe)>
    requires 0 < n <= |fs|
  {
    if n == 1 then {} else FoldPairs(h, fs, n - 1) + {(Fold(h, fs, n - 1), fs[n - 1])}
  }

  ghost function AllFoldPairs(h: Hash2, a: seq<byte>, b: seq<byte>): set<(Fe, Fe)> {
    FoldPairs(h, Inputs(a), WordCount(a)) + FoldPairs(h, Inputs(b), WordCount(b))
  }

  /** The first elements of `g` fold to the first element of the shorter `f`, and the rest is the same. */
  predicate Aligned(h: Hash2, f: seq<Fe>, n: nat, g: seq<Fe>, m: nat)
    requires 0 < n <= |f| && n <= m <= |g|
  {
    Fold(h, g, m - n + 1) == f[0] && forall i :: 1 <= i < n ==> f[i] == g[m - n + i]
  }

  /** Equal folds agree from the back; what is left of the longer one folds to the first element of the shorter. */
  lemma {:induction false} FoldBinds(h: Hash2, f: seq<Fe>, n: nat, g: seq<Fe>, m: nat, pairs: set<(Fe, Fe)>)
    requires 0 < n <= |f| && n <= m <= |g|
    requires FoldPairs(h, f, n) <= pairs && FoldPairs(h, g, m) <= pairs && CollisionFree(h, pairs)
    requires Fold(h, f, n) == Fold(h, g, m)
    ensures Aligned(h, f, n, g, m)
  {
    if n > 1 {
      SameInputs(h, pairs, (Fold(h, f, n - 1), f[n - 1]), (Fold(h, g, m - 1), g[m - 1]));
      FoldBinds(h, f, n - 1, g, m - 1, pairs);
    }
  }

  /** The other direction needs nothing of the hash. */
  lemma {:induction false} FoldAligned(h: Hash2, f: seq<Fe>, n: nat, g: seq<Fe>, m: nat)
    requires 0 < n <= |f| && n <= m <= |g| && Aligned(h, f, n, g, m)
    ensures Fold(h, f, n) == Fold(h, g, m)
  {
    if n > 1 {
      assert f[n - 1] == g[m - 1];
      FoldAligned(h, f, n - 1, g, m - 1);
    }
  }

  /** The same on bytes: padded chunks instead of elements. */
  predicate WordsAligned(h: Hash2, a: seq<byte>, b: seq<byte>)
    requires WordCount(a) <= WordCount(b)
  {
    var n, m := WordCount(a), WordCount(b);
    Fold(h, Inputs(b), m - n + 1) == ChunkField(Word(a, 0)) && forall i :: 1 <= i < n ==> Word(a, i) == Word(b, m - n + i)
  }

  lemma AlignedOnWords(h: Hash2, a: seq<byte>, b: seq<byte>)
    requires WordCount(a) <= WordCount(b)
    ensures Aligned(h, Inputs(a), WordCount(a), Inputs(b), WordCount(b)) <==> WordsAligned(h, a, b)
  {
    var n, m := WordCount(a), WordCount(b);
    forall i | 1 <= i < n
      ensures Inputs(a)[i] == Inputs(b)[m - n + i] <==> Word(a, i) == Word(b, m - n + i)
    {
      WordInjective(Word(a, i), Word(b, m - n + i));
    }
  }

  /**
   * Exactly when two byte strings share an element, unless the fold's pairs collide: the first
   * chunks of the longer one fold to the first chunk of the shorter one, and the remaining
   * chunks are the same when padded with zeros.
   */
  lemma StringsMeet(h: Hash2, a: seq<byte>, b: seq<byte>)
    requires WordCount(a) <= WordCount(b) && CollisionFree(h, AllFoldPairs(h, a, b))
    ensures HashBytes(h, a) == HashBytes(h, b) <==> WordsAligned(h, a, b)
  {
    var n, m := WordCount(a), WordCount(b);
    HashIsFold(h, a);
    HashIsFold(h, b);
    AlignedOnWords(h, a, b);
    if Fold(h, Inputs(a), n) == Fold(h, Inputs(b), m) {
      FoldBinds(h, Inputs(a), n, Inputs(b), m, AllFoldPairs(h, a, b));
    }
    if Aligned(h, Inputs(a), n, Inputs(b), m) {
      FoldAligned(h, Inputs(a), n, Inputs(b), m);
    }
  }

  /** The strings differ at most in zeros at their ends. */
  ghost predicate SameUpToZeros(a: seq<byte>, b: seq<byte>) {
    forall i: nat :: ByteAt(a, i) == ByteAt(b, i)
  }

  lemma WordsAreBytes(a: seq<byte>, b: seq<byte>)
    requires WordCount(a) == WordCount(b)
    ensures (forall i: nat :: i < WordCount(a) ==> Word(a, i) == Word(b, i)) <==> SameUpToZeros(a, b)
  {
    if forall i: nat :: i < WordCount(a) ==> Word(a, i) == Word(b, i) {
      forall k: nat
        ensures ByteAt(a, k) == ByteAt(b, k)
      {
        if k < |a| || k < |b| {
          var i := k / CHUNK;
          assert i < WordCount(a) && k == CHUNK * i + k % CHUNK;
          assert Word(a, i)[k % CHUNK] == Word(b, i)[k % CHUNK];
        }
      }
    }
  }

  /**
   * What the element binds: strings with the same number of chunks share it exactly when they
   * differ at most in trailing zeros, unless the fold's pairs collide.
   */
  lemma StringBound(h: Hash2, a: seq<byte>, b: seq<byte>)
    requires WordCount(a) == WordCount(b) && CollisionFree(h, AllFoldPairs(h, a, b))
    ensures HashBytes(h, a) == HashBytes(h, b) <==> SameUpToZeros(a, b)
  {
    StringsMeet(h, a, b);
    WordsAreBytes(a, b);
    WordInjective(Word(a, 0), Word(b, 0));
    assert Fold(h, Inputs(b), 1) == ChunkField(Word(b, 0));
  }

  lemma SameLengthSameBytes(a: seq<byte>, b: seq<byte>)
    requires SameUpToZeros(a, b) && |a| == |b|
    ensures a == b
  {
    forall i | 0 <= i < |a|
      ensures a[i] == b[i]
    {
      assert ByteAt(a, i) == ByteAt(b, i);
    }
  }

  /** So strings of one length, such as auditor keys, are bound whatever bytes they hold. */
  lemma KeyBound(h: Hash2, a: seq<byte>, b: seq<byte>)
    requires |a| == |b| && CollisionFree(h, AllFoldPairs(h, a, b))
    ensures HashBytes(h, a) == HashBytes(h, b) <==> a == b
  {
    StringBound(h, a, b);
    if SameUpToZeros(a, b) {
      SameLengthSameBytes(a, b);
    }
  }

  /** And an account id, which holds no zero byte, is bound among the ids with as many chunks. */
  lemma AccountBound(h: Hash2, a: seq<byte>, b: seq<byte>)
    requires 0 !in a && 0 !in b
    requires WordCount(a) == WordCount(b) && CollisionFree(h, AllFoldPairs(h, a, b))
    ensures HashBytes(h, a) == HashBytes(h, b) <==> a == b
  {
    StringBound(h, a, b);
    if SameUpToZeros(a, b) {
      assert ByteAt(a, |a|) == ByteAt(b, |a|) && ByteAt(a, |b|) == ByteAt(b, |b|);
      SameLengthSameBytes(a, b);
    }
  }

  // ----- what the element is, by length -----

  /** Up to 31 bytes: the little-endian value itself, which is below the modulus. */
  lemma OneChunk(h: Hash2, b: seq<byte>)
    requires |b| <= 31
    ensures HashBytes(h, b) == LeValue(256, b)
  {
    LeBound(256, b);
    PowMonotone(256, |b|, 31);
    WireWidth();
    assert Pow(256, 32) == 256 * Pow(256, 31);
    ModSmall(LeValue(256, b), P);
  }

  lemma ManyChunks(b: seq<byte>)
    requires |b| > 31
    ensures ChunkFields(b)[0] == LeValue(256, b[..31]) && ChunkFields(b)[1..] == ChunkFields(b[31..])
  {
    ChunkFieldsOfRest(b);
    ChunkBelowModulus(b[..31]);
  }

  /** Up to 62 bytes, as a 32-byte key: one hash of the two chunks, the first 31 bytes on the left. */
  lemma TwoChunks(h: Hash2, b: seq<byte>)
    requires 31 < |b| <= 62
    ensures HashBytes(h, b) == h(LeValue(256, b[..31]) % P, LeValue(256, b[31..]) % P)
  {
    ManyChunks(b);
    OneChunk(h, b[31..]);
    var fs := ChunkFields(b);
    assert fs[1] == fs[1..][0];
    assert Fold(h, fs, 2) == h(Fold(h, fs, 1), fs[1]);
  }

  /** Up to 93 bytes, as the longest account ids: the hash so far on the left, the next chunk on the right. */
  lemma ThreeChunks(h: Hash2, b: seq<byte>)
    requires 62 < |b| <= 93
    ensures HashBytes(h, b) == h(h(LeValue(256, b[..31]) % P, LeValue(256, b[31..62]) % P), LeValue(256, b[62..]) % P)
  {
    var rest := b[31..];
    ManyChunks(b);
    ManyChunks(rest);
    OneChunk(h, rest[31..]);
    assert rest[..31] == b[31..62] && rest[31..] == b[62..];
    var fs := ChunkFields(b);
    assert fs[1] == fs[1..][0] && fs[2] == fs[1..][1..][0];
    assert Fold(h, fs, 3) == h(Fold(h, fs, 2), fs[2]) && Fold(h, fs, 2) == h(Fold(h, fs, 1), fs[1]);
  }

  lemma {:induction false} FoldPrefix(h: Hash2, f: seq<Fe>, g: seq<Fe>, n: nat)
    requires 0 < n <= |f| && n <= |g| && forall i :: 0 <= i < n ==> f[i] == g[i]
    ensures Fold(h, f, n) == Fold(h, g, n)
  {
    if n > 1 {
      FoldPrefix(h, f, g, n - 1);
    }
  }

  lemma SameWords(a: seq<byte>, i: nat)
    ensures Word(a + [0], i) == Word(a, i)
  {
    assert forall k: nat :: ByteAt(a + [0], k) == ByteAt(a, k);
  }

  lemma SameFold(h: Hash2, a: seq<byte>)
    requires WordCount(a) <= WordCount(a + [0])
    ensures Fold(h, Inputs(a + [0]), WordCount(a)) == HashBytes(h, a)
  {
    HashIsFold(h, a);
    forall i | 0 <= i < WordCount(a)
      ensures Inputs(a + [0])[i] == Inputs(a)[i]
    {
      SameWords(a, i);
    }
    FoldPrefix(h, Inputs(a + [0]), Inputs(a), WordCount(a));
  }

  /** One more zero byte fills up the last chunk unnoticed, or opens a chunk of its own when there is no room. */
  lemma TrailingZero(h: Hash2, a: seq<byte>)
    ensures HashBytes(h, a + [0]) == if a == [] || |a| % CHUNK != 0 then HashBytes(h, a) else h(HashBytes(h, a), 0)
  {
    HashIsFold(h, a + [0]);
    SameFold(h, a);
    if a != [] && |a| % CHUNK == 0 {
      ZeroWord(a);
    }
  }

  /** The chunk past the end is all zeros. */
  lemma ZeroWord(a: seq<byte>)
    requires a != [] && |a| % CHUNK == 0
    ensures WordCount(a + [0]) == WordCount(a) + 1
    ensures Inputs(a + [0])[WordCount(a)] == 0
  {
    FullChunks(|a|);
    WordBeyond(a, WordCount(a));
    SameWords(a, WordCount(a));
    PaddingKeepsField([]);
  }

  lemma FullChunks(n: nat)
    requires n > 0 && n % CHUNK == 0
    ensures (n + CHUNK - 1) / CHUNK == n / CHUNK && (n + 1 + CHUNK - 1) / CHUNK == n / CHUNK + 1
    ensures CHUNK * ((n + CHUNK - 1) / CHUNK) == n
  {
  }

  lemma WordBeyond(a: seq<byte>, i: nat)
    requires |a| <= CHUNK * i
    ensures Word(a, i) == Word([], 0)
  {
  }
}
