/** The flat memory and check buffers of the storage engine, page by page. */
module PageStore {
  import opened Splices
  import opened Ecc

  const PAGE_SIZE: nat := 4096
  const CHUNKS: nat := 512

  /** A byte as its bits, least significant first. */
  datatype Byte = Byte(b0: bool, b1: bool, b2: bool, b3: bool, b4: bool, b5: bool, b6: bool, b7: bool)

  const ZERO: Byte := Byte(false, false, false, false, false, false, false, false)

  predicate Bit(b: Byte, j: nat)
    requires j < 8
  {
    match j
    case 0 => b.b0
    case 1 => b.b1
    case 2 => b.b2
    case 3 => b.b3
    case 4 => b.b4
    case 5 => b.b5
    case 6 => b.b6
    case _ => b.b7
  }

  /** Eight bytes read as one word, first byte least significant. */
  function WordOf(bytes: seq<Byte>): (w: Word)
    requires |bytes| == 8
  {
    seq(64, i requires 0 <= i < 64 => Bit(bytes[i / 8], i % 8))
  }

  /** The first byte is the least significant, and so is the first bit of each. */
  lemma LittleEndian(bytes: seq<Byte>, k: nat, j: nat)
    requires |bytes| == 8 && k < 8 && j < 8
    ensures WordOf(bytes)[8 * k + j] == Bit(bytes[k], j)
  {
    assert (8 * k + j) / 8 == k && (8 * k + j) % 8 == j;
  }

  function ByteOf(w: Word, k: nat): Byte
    requires k < 8
  {
    Byte(w[8 * k], w[8 * k + 1], w[8 * k + 2], w[8 * k + 3],
         w[8 * k + 4], w[8 * k + 5], w[8 * k + 6], w[8 * k + 7])
  }

  lemma ByteOfWordOf(bytes: seq<Byte>, k: nat)
    requires |bytes| == 8 && k < 8
    ensures ByteOf(WordOf(bytes), k) == bytes[k]
  {
    var w := WordOf(bytes);
    forall j: nat | j < 8 ensures w[8 * k + j] == Bit(bytes[k], j) {
      assert (8 * k + j) / 8 == k && (8 * k + j) % 8 == j;
    }
    assert w[8 * k + 0] == Bit(bytes[k], 0);
    assert w[8 * k + 1] == Bit(bytes[k], 1);
    assert w[8 * k + 2] == Bit(bytes[k], 2);
    assert w[8 * k + 3] == Bit(bytes[k], 3);
    assert w[8 * k + 4] == Bit(bytes[k], 4);
    assert w[8 * k + 5] == Bit(bytes[k], 5);
    assert w[8 * k + 6] == Bit(bytes[k], 6);
    assert w[8 * k + 7] == Bit(bytes[k], 7);
  }

  lemma ZeroWord(bytes: seq<Byte>)
    requires |bytes| == 8 && forall i :: 0 <= i < 8 ==> bytes[i] == ZERO
    ensures Encode(WordOf(bytes)) == Zeros(CHECK_BITS)
  {
    assert WordOf(bytes) == Zeros(WORD_BITS);
    EncodeZero();
  }

  // ---------------------------------------------------------------- pages

  function PageBytes(mem: seq<Byte>, p: nat): (b: seq<Byte>)
    requires (p + 1) * PAGE_SIZE <= |mem|
    ensures |b| == PAGE_SIZE
  {
    mem[p * PAGE_SIZE..(p + 1) * PAGE_SIZE]
  }

  function PageChecks(ecc: seq<Check>, p: nat): (c: seq<Check>)
    requires (p + 1) * CHUNKS <= |ecc|
    ensures |c| == CHUNKS
  {
    ecc[p * CHUNKS..(p + 1) * CHUNKS]
  }

  function ChunkWord(bytes: seq<Byte>, c: nat): Word
    requires |bytes| == PAGE_SIZE && c < CHUNKS
  {
    WordOf(bytes[8 * c..8 * c + 8])
  }

  lemma ChunkOfPage(mem: seq<Byte>, p: nat, c: nat)
    requires (p + 1) * PAGE_SIZE <= |mem| && c < CHUNKS
    ensures 8 * (p * CHUNKS + c) + 8 <= |mem|
    ensures mem[8 * (p * CHUNKS + c)..8 * (p * CHUNKS + c) + 8] == PageBytes(mem, p)[8 * c..8 * c + 8]
  {
    var a := p * PAGE_SIZE;
    assert 8 * (p * CHUNKS + c) == a + 8 * c;
    SliceOfSlice(mem, a, a + PAGE_SIZE, 8 * c, 8 * c + 8);
  }

  lemma SliceOfSlice<T>(s: seq<T>, a: nat, b: nat, lo: nat, hi: nat)
    requires lo <= hi && a + hi <= b <= |s|
    ensures s[a..b][lo..hi] == s[a + lo..a + hi]
  {
    var x, y := s[a..b][lo..hi], s[a + lo..a + hi];
    assert |x| == |y| && forall i | 0 <= i < |x| :: x[i] == y[i];
  }

  /** Every stored check byte is the code of the word beside it. */
  ghost predicate ChecksMatch(bytes: seq<Byte>, checks: seq<Check>) {
    && |bytes| == PAGE_SIZE && |checks| == CHUNKS
    && forall c: nat :: c < CHUNKS ==> checks[c] == Encode(ChunkWord(bytes, c))
  }

  function ZeroPage(): (b: seq<Byte>)
    ensures |b| == PAGE_SIZE
  {
    seq(PAGE_SIZE, _ => ZERO)
  }

  lemma ZeroChunk(c: nat)
    requires c < CHUNKS
    ensures Encode(ChunkWord(ZeroPage(), c)) == Zeros(CHECK_BITS)
  {
    var chunk := ZeroPage()[8 * c..8 * c + 8];
    assert forall i | 0 <= i < 8 :: chunk[i] == ZeroPage()[8 * c + i];
    ZeroWord(chunk);
  }

  /** Page p, bytes and check bytes, is as it was. */
  ghost predicate SamePage(mem0: seq<Byte>, ecc0: seq<Check>, mem: seq<Byte>, ecc: seq<Check>, p: nat)
    requires (p + 1) * PAGE_SIZE <= |mem0| == |mem| && (p + 1) * CHUNKS <= |ecc0| == |ecc|
  {
    PageBytes(mem, p) == PageBytes(mem0, p) && PageChecks(ecc, p) == PageChecks(ecc0, p)
  }

  ghost predicate Sized(mem: array<Byte>, ecc: array<Check>, pages: nat) {
    mem.Length == pages * PAGE_SIZE && ecc.Length == pages * CHUNKS
  }

  /** Nothing outside page p has changed. */
  ghost predicate OthersSame(mem0: seq<Byte>, ecc0: seq<Check>, mem: seq<Byte>, ecc: seq<Check>, pages: nat, p: nat)
    requires |mem0| == |mem| == pages * PAGE_SIZE && |ecc0| == |ecc| == pages * CHUNKS
  {
    forall q: nat :: q < pages && q != p ==> SamePage(mem0, ecc0, mem, ecc, q)
  }

  lemma OutsideSame(mem0: seq<Byte>, ecc0: seq<Check>, mem: seq<Byte>, ecc: seq<Check>, pages: nat, p: nat)
    requires |mem0| == |mem| == pages * PAGE_SIZE && |ecc0| == |ecc| == pages * CHUNKS && p < pages
    requires forall i :: 0 <= i < |mem| && !(p * PAGE_SIZE <= i < (p + 1) * PAGE_SIZE) ==> mem[i] == mem0[i]
    requires forall i :: 0 <= i < |ecc| && !(p * CHUNKS <= i < (p + 1) * CHUNKS) ==> ecc[i] == ecc0[i]
    ensures OthersSame(mem0, ecc0, mem, ecc, pages, p)
  {
    forall q: nat | q < pages && q != p ensures SamePage(mem0, ecc0, mem, ecc, q) {
      assert (q + 1) * PAGE_SIZE <= p * PAGE_SIZE || (p + 1) * PAGE_SIZE <= q * PAGE_SIZE;
      assert (q + 1) * CHUNKS <= p * CHUNKS || (p + 1) * CHUNKS <= q * CHUNKS;
    }
  }

  method CopyBytes(mem: array<Byte>, ghost pages: nat, dst: nat, src: nat)
    requires mem.Length == pages * PAGE_SIZE && dst < pages && src < pages
    modifies mem
    ensures forall i :: 0 <= i < mem.Length && !(dst * PAGE_SIZE <= i < (dst + 1) * PAGE_SIZE) ==> mem[i] == old(mem[i])
    ensures (dst + 1) * PAGE_SIZE <= mem.Length && (src + 1) * PAGE_SIZE <= mem.Length
    ensures PageBytes(mem[..], dst) == old(PageBytes(mem[..], src))
  {
    var d, s := dst * PAGE_SIZE, src * PAGE_SIZE;
    assert (src + 1) * PAGE_SIZE <= mem.Length && (dst + 1) * PAGE_SIZE <= mem.Length;
    ghost var page := PageBytes(mem[..], src);
    forall i | d <= i < d + PAGE_SIZE {
      mem[i] := mem[i - d + s];
    }
    assert forall i :: d <= i < d + PAGE_SIZE ==> mem[i] == page[i - d];
    assert PageBytes(mem[..], dst) == page;
  }

  method CopyChecks(ecc: array<Check>, ghost pages: nat, dst: nat, src: nat)
    requires ecc.Length == pages * CHUNKS && dst < pages && src < pages
    modifies ecc
    ensures forall i :: 0 <= i < ecc.Length && !(dst * CHUNKS <= i < (dst + 1) * CHUNKS) ==> ecc[i] == old(ecc[i])
    ensures (dst + 1) * CHUNKS <= ecc.Length && (src + 1) * CHUNKS <= ecc.Length
    ensures PageChecks(ecc[..], dst) == old(PageChecks(ecc[..], src))
  {
    var d, s := dst * CHUNKS, src * CHUNKS;
    assert (src + 1) * CHUNKS <= ecc.Length && (dst + 1) * CHUNKS <= ecc.Length;
    assert d + CHUNKS <= s || s + CHUNKS <= d || d == s;
    ghost var page := PageChecks(ecc[..], src);
    for c := 0 to CHUNKS
      invariant forall i :: 0 <= i < ecc.Length && !(d <= i < d + c) ==> ecc[i] == old(ecc[i])
      invariant forall i :: d <= i < d + c ==> ecc[i] == page[i - d]
    {
      ecc[d + c] := ecc[s + c];
    }
    assert PageChecks(ecc[..], dst) == page;
  }

  /** memcpy of a page with its check bytes. */
  method CopyPage(mem: array<Byte>, ecc: array<Check>, ghost pages: nat, dst: nat, src: nat)
    requires Sized(mem, ecc, pages) && dst < pages && src < pages
    modifies mem, ecc
    ensures OthersSame(old(mem[..]), old(ecc[..]), mem[..], ecc[..], pages, dst)
    ensures PageBytes(mem[..], dst) == old(PageBytes(mem[..], src))
    ensures PageChecks(ecc[..], dst) == old(PageChecks(ecc[..], src))
  {
    CopyBytes(mem, pages, dst, src);
    assert ecc[..] == old(ecc[..]);
    ghost var bytes := mem[..];
    CopyChecks(ecc, pages, dst, src);
    assert mem[..] == bytes;
    OutsideSame(old(mem[..]), old(ecc[..]), mem[..], ecc[..], pages, dst);
  }

  /** memset of a page and its check bytes. */
  method ClearPage(mem: array<Byte>, ecc: array<Check>, ghost pages: nat, dst: nat)
    requires Sized(mem, ecc, pages) && dst < pages
    modifies mem, ecc
    ensures OthersSame(old(mem[..]), old(ecc[..]), mem[..], ecc[..], pages, dst)
    ensures PageBytes(mem[..], dst) == ZeroPage()
    ensures ChecksMatch(PageBytes(mem[..], dst), PageChecks(ecc[..], dst))
  {
    var d, dc := dst * PAGE_SIZE, dst * CHUNKS;
    assert (dst + 1) * PAGE_SIZE <= mem.Length && (dst + 1) * CHUNKS <= ecc.Length;
    forall i | d <= i < d + PAGE_SIZE {
      mem[i] := ZERO;
    }
    for c := 0 to CHUNKS
      modifies ecc
      invariant forall i :: 0 <= i < ecc.Length && !(dc <= i < dc + c) ==> ecc[i] == old(ecc[i])
      invariant forall i :: dc <= i < dc + c ==> ecc[i] == Zeros(CHECK_BITS)
    {
      ecc[dc + c] := Zeros(CHECK_BITS);
    }
    OutsideSame(old(mem[..]), old(ecc[..]), mem[..], ecc[..], pages, dst);
    ghost var bytes, checks := PageBytes(mem[..], dst), PageChecks(ecc[..], dst);
    assert bytes == ZeroPage();
    forall c: nat | c < CHUNKS ensures checks[c] == Encode(ChunkWord(bytes, c)) {
      ZeroChunk(c);
    }
  }

  /** A chunk outside the written range keeps its word. */
  lemma ChunkUntouched(base: seq<Byte>, at: nat, data: seq<Byte>, c: nat)
    requires |base| == PAGE_SIZE && data != [] && at + |data| <= PAGE_SIZE && c < CHUNKS
    requires c < at / 8 || (at + |data| - 1) / 8 < c
    ensures ChunkWord(Splice(base, at, data), c) == ChunkWord(base, c)
  {
    assert 8 * c + 8 <= at || at + |data| <= 8 * c;
    assert Splice(base, at, data)[8 * c..8 * c + 8] == base[8 * c..8 * c + 8];
  }

  /** memcpy into a page. */
  method StoreData(mem: array<Byte>, ghost pages: nat, dst: nat, at: nat, data: seq<Byte>)
    requires mem.Length == pages * PAGE_SIZE && dst < pages && at + |data| <= PAGE_SIZE
    modifies mem
    ensures forall i :: 0 <= i < mem.Length && !(dst * PAGE_SIZE <= i < (dst + 1) * PAGE_SIZE) ==> mem[i] == old(mem[i])
    ensures (dst + 1) * PAGE_SIZE <= mem.Length
    ensures PageBytes(mem[..], dst) == Splice(old(PageBytes(mem[..], dst)), at, data)
  {
    var d := dst * PAGE_SIZE;
    assert (dst + 1) * PAGE_SIZE <= mem.Length;
    forall i | d + at <= i < d + at + |data| {
      mem[i] := data[i - d - at];
    }
  }

  /** Computes afresh the codes of every chunk a write touched. */
  method RecomputeChecks(mem: array<Byte>, ecc: array<Check>, ghost pages: nat, dst: nat, at: nat, len: nat)
    requires Sized(mem, ecc, pages) && dst < pages && len > 0 && at + len <= PAGE_SIZE
    requires (dst + 1) * PAGE_SIZE <= mem.Length
    modifies ecc
    ensures var first, last := dst * CHUNKS + at / 8, dst * CHUNKS + (at + len - 1) / 8;
            && last < ecc.Length
            && (forall i :: 0 <= i < ecc.Length && !(first <= i <= last) ==> ecc[i] == old(ecc[i]))
            && (forall i :: first <= i <= last ==>
                  ecc[i] == Encode(ChunkWord(PageBytes(mem[..], dst), i - dst * CHUNKS)))
  {
    hide Encode;
    hide ChunkWord;
    ghost var page := PageBytes(mem[..], dst);
    var first, last := (dst * PAGE_SIZE + at) / 8, (dst * PAGE_SIZE + at + len - 1) / 8;
    assert first == dst * CHUNKS + at / 8 && last == dst * CHUNKS + (at + len - 1) / 8;
    assert last < (dst + 1) * CHUNKS <= ecc.Length;
    var c := first;
    while c <= last
      invariant first <= c <= last + 1
      invariant forall i :: 0 <= i < ecc.Length && !(first <= i < c) ==> ecc[i] == old(ecc[i])
      invariant forall i :: first <= i < c ==> ecc[i] == Encode(ChunkWord(page, i - dst * CHUNKS))
    {
      var word := ReadWord(mem, pages, dst, c);
      var code := CalculateECC(word);
      ecc[c] := code;
      c := c + 1;
    }
  }

  /** memcpy of eight bytes into a word. */
  method ReadWord(mem: array<Byte>, ghost pages: nat, ghost p: nat, c: nat) returns (word: Word)
    requires mem.Length == pages * PAGE_SIZE && p < pages && p * CHUNKS <= c < (p + 1) * CHUNKS
    ensures (p + 1) * PAGE_SIZE <= mem.Length
    ensures word == ChunkWord(PageBytes(mem[..], p), c - p * CHUNKS)
  {
    assert (p + 1) * PAGE_SIZE <= mem.Length;
    ChunkOfPage(mem[..], p, c - p * CHUNKS);
    word := WordOf(mem[8 * c..8 * c + 8]);
    assert mem[8 * c..8 * c + 8] == mem[..][8 * c..8 * c + 8];
  }

  /** The write into a freshly allocated page: the bytes, then the codes of the touched chunks. */
  method StoreBytes(mem: array<Byte>, ecc: array<Check>, ghost pages: nat, dst: nat, at: nat, data: seq<Byte>)
    requires Sized(mem, ecc, pages) && dst < pages && data != [] && at + |data| <= PAGE_SIZE
    modifies mem, ecc
    ensures OthersSame(old(mem[..]), old(ecc[..]), mem[..], ecc[..], pages, dst)
    ensures PageBytes(mem[..], dst) == Splice(old(PageBytes(mem[..], dst)), at, data)
    ensures old(ChecksMatch(PageBytes(mem[..], dst), PageChecks(ecc[..], dst))) ==>
              ChecksMatch(PageBytes(mem[..], dst), PageChecks(ecc[..], dst))
  {
    hide ChecksMatch;
    hide ChunkWord;
    hide Splice;
    ghost var base := PageBytes(mem[..], dst);
    StoreData(mem, pages, dst, at, data);
    assert ecc[..] == old(ecc[..]);
    RecomputeChecks(mem, ecc, pages, dst, at, |data|);
    OutsideSame(old(mem[..]), old(ecc[..]), mem[..], ecc[..], pages, dst);
    StoredChecks(base, at, data, old(ecc[..]), ecc[..], dst);
  }

  lemma StoredChecks(base: seq<Byte>, at: nat, data: seq<Byte>, before: seq<Check>, after: seq<Check>, dst: nat)
    requires |base| == PAGE_SIZE && data != [] && at + |data| <= PAGE_SIZE
    requires |before| == |after| && (dst + 1) * CHUNKS <= |before|
    requires var first, last := dst * CHUNKS + at / 8, dst * CHUNKS + (at + |data| - 1) / 8;
             && (forall i :: 0 <= i < |after| && !(first <= i <= last) ==> after[i] == before[i])
             && (forall i :: first <= i <= last ==>
                   after[i] == Encode(ChunkWord(Splice(base, at, data), i - dst * CHUNKS)))
    ensures ChecksMatch(base, PageChecks(before, dst)) ==>
              ChecksMatch(Splice(base, at, data), PageChecks(after, dst))
  {
    if ChecksMatch(base, PageChecks(before, dst)) {
      forall c: nat | c < CHUNKS
        ensures PageChecks(after, dst)[c] == Encode(ChunkWord(Splice(base, at, data), c))
      {
        var i := dst * CHUNKS + c;
        assert PageChecks(after, dst)[c] == after[i] && PageChecks(before, dst)[c] == before[i];
        if c < at / 8 || (at + |data| - 1) / 8 < c {
          ChunkUntouched(base, at, data, c);
        }
      }
    }
  }

  /** At most one flipped bit in a stored word: the decode either reports it or returns the word. */
  lemma DecodeUnderNoise(word: Word, noise: Word)
    requires Weight(noise) <= 1
    ensures Decode(Xor(word, noise), Encode(word)).0 != Uncorrectable ==>
              Decode(Xor(word, noise), Encode(word)).1 == word
    ensures noise == Zeros(WORD_BITS) ==> Decode(Xor(word, noise), Encode(word)) == (Clean, word)
  {
    WeightZero(noise);
    if Weight(noise) == 0 {
      assert Xor(word, Zeros(WORD_BITS)) == word;
      CleanExactlyOnCodewords(word, Encode(word));
    } else {
      XorBasics(word, noise);
      XorBasics(Encode(word), Encode(word));
      WeightZero(Xor(Encode(word), Encode(word)));
      OneFlipNeverMiscorrects(word, Xor(word, noise), Encode(word));
      CleanExactlyOnCodewords(Xor(word, noise), Encode(word));
      if Decode(Xor(word, noise), Encode(word)).0 == Clean {
        FewFlipsNeverClean(word, Xor(word, noise), Encode(word));
        assert false;
      }
    }
  }

  /** The bytes of one chunk that a read takes, from the decoded word. */
  method TakeBytes(word: Word, local: nat, from: nat, to: nat) returns (bytes: seq<Byte>)
    requires local <= from <= to <= local + 8
    ensures |bytes| == to - from
    ensures forall i :: 0 <= i < to - from ==> bytes[i] == ByteOf(word, from + i - local)
  {
    bytes := [];
    for b := from to to
      invariant |bytes| == b - from
      invariant forall i :: 0 <= i < b - from ==> bytes[i] == ByteOf(word, from + i - local)
    {
      bytes := bytes + [ByteOf(word, b - local)];
    }
  }

  /** What a read of one page returns from each chunk, given what the cells' wear flips in it. */
  ghost predicate QuietEnough(noise: nat -> Word) {
    forall c: nat :: Weight(noise(c)) <= 1
  }

  ghost predicate Silent(noise: nat -> Word) {
    forall c: nat :: noise(c) == Zeros(WORD_BITS)
  }

  // ---------------------------------------------------------------- what a read returns under any flips

  /** The flips the decoder leaves in a word after flips in a word stored with its code. */
  function Residue(noise: Word): (left: Word) {
    Decode(noise, Zeros(CHECK_BITS)).1
  }

  predicate Reported(noise: Word) {
    Decode(noise, Zeros(CHECK_BITS)).0 == Uncorrectable
  }

  /** Reading a stored word back through the decoder: both the verdict and what is wrong depend on the flips alone. */
  lemma DecodedWord(word: Word, noise: Word)
    ensures var r := Decode(Xor(word, noise), Encode(word));
            (r.0 == Uncorrectable <==> Reported(noise)) && r.1 == Xor(word, Residue(noise))
  {
    assert Xor(Encode(word), Zeros(CHECK_BITS)) == Encode(word);
    DecodeSeesOnlyTheError(word, noise, Zeros(CHECK_BITS));
  }

  /** No flip is repaired to nothing and not reported; one flip is repaired or reported; two are never repaired, and
      are reported exactly when the XOR of their positions has an even number of ones. */
  lemma ResidueOfFew(noise: Word)
    ensures Weight(noise) == 0 ==> !Reported(noise)
    ensures Weight(noise) <= 1 && !Reported(noise) ==> Residue(noise) == Zeros(WORD_BITS)
    ensures Weight(noise) == 2 ==>
              (Reported(noise) <==> EvenOnes(PositionSum(noise))) && Residue(noise) != Zeros(WORD_BITS)
  {
    var z, zc := Zeros(WORD_BITS), Zeros(CHECK_BITS);
    hide Decode;
    assert Xor(z, noise) == noise && Xor(zc, zc) == zc;
    EncodeZero();
    WeightZero(noise);
    WeightZero(zc);
    DecodedWord(z, noise);
    assert Xor(z, Residue(noise)) == Residue(noise);
    if Weight(noise) <= 1 {
      DecodeUnderNoise(z, noise);
    } else if Weight(noise) == 2 {
      TwoFlipsExactly(z, noise, zc);
    }
  }

  /** The bytes of a page as a read sees them. */
  function SeenBytes(page: seq<Byte>, noise: nat -> Word): (b: seq<Byte>)
    requires |page| == PAGE_SIZE
    ensures |b| == PAGE_SIZE
  {
    seq(PAGE_SIZE, i requires 0 <= i < PAGE_SIZE => ByteOf(Xor(ChunkWord(page, i / 8), Residue(noise(i / 8))), i % 8))
  }

  /** A byte whose chunk has at most one flip, not reported, is seen as it is. */
  lemma SeenByteRight(page: seq<Byte>, noise: nat -> Word, i: nat)
    requires |page| == PAGE_SIZE && i < PAGE_SIZE && Weight(noise(i / 8)) <= 1 && !Reported(noise(i / 8))
    ensures SeenBytes(page, noise)[i] == page[i]
  {
    hide Residue;
    hide Reported;
    hide ByteOf;
    hide WordOf;
    hide Weight;
    hide Xor;
    ResidueOfFew(noise(i / 8));
    XorNothing(ChunkWord(page, i / 8));
    var chunk := page[8 * (i / 8)..8 * (i / 8) + 8];
    ByteOfWordOf(chunk, i % 8);
    assert chunk[i % 8] == page[i];
  }

  lemma XorNothing(word: Word)
    ensures Xor(word, Zeros(WORD_BITS)) == word
  {
  }

  /** A chunk with two flips is never seen as it is. */
  lemma SeenChunkWrong(page: seq<Byte>, noise: nat -> Word, c: nat)
    requires |page| == PAGE_SIZE && c < CHUNKS && Weight(noise(c)) == 2
    ensures SeenBytes(page, noise)[8 * c..8 * c + 8] != page[8 * c..8 * c + 8]
  {
    hide ByteOf;
    hide WordOf;
    hide Decode;
    hide PositionSum;
    var word, left := ChunkWord(page, c), Residue(noise(c));
    ResidueOfFew(noise(c));
    hide Residue;
    var j :| 0 <= j < WORD_BITS && left[j];
    var i, seen := 8 * c + j / 8, SeenBytes(page, noise);
    assert i / 8 == c && i % 8 == j / 8;
    ByteOfWordOf(page[8 * c..8 * c + 8], j / 8);
    BitOfByte(word, j);
    BitOfByte(Xor(word, left), j);
    assert seen[8 * c..8 * c + 8][j / 8] == seen[i] && page[8 * c..8 * c + 8][j / 8] == page[i];
  }

  lemma BitOfByte(w: Word, j: nat)
    requires j < WORD_BITS
    ensures Bit(ByteOf(w, j / 8), j % 8) == w[j]
  {
    assert 8 * (j / 8) + j % 8 == j;
  }

  /** Decodes one chunk of a page and takes some of its bytes. */
  method ReadChunk(mem: array<Byte>, ecc: array<Check>, ghost pages: nat, p: nat, k: nat,
    from: nat, to: nat, noise: nat -> Word)
    returns (piece: seq<Byte>, good: bool)
    requires Sized(mem, ecc, pages) && p < pages && k < CHUNKS && 8 * k <= from <= to <= 8 * k + 8
    requires (p + 1) * PAGE_SIZE <= mem.Length && (p + 1) * CHUNKS <= ecc.Length
    ensures |piece| == to - from
    ensures ChecksMatch(PageBytes(mem[..], p), PageChecks(ecc[..], p)) ==>
              && (good <==> !Reported(noise(k)))
              && piece == SeenBytes(PageBytes(mem[..], p), noise)[from..to]
  {
    hide Decode;
    hide Encode;
    hide ByteOf;
    hide ChunkWord;
    hide Residue;
    hide Reported;
    hide PageBytes;
    var c := p * CHUNKS + k;
    var word := ReadWord(mem, pages, p, c);
    assert ecc[c] == PageChecks(ecc[..], p)[k];
    hide PageChecks;
    var verdict, fixed := DecodeAndCorrect(Xor(word, noise(k)), ecc[c]);
    good := verdict != Uncorrectable;
    piece := TakeBytes(fixed, 8 * k, from, to);
    if ChecksMatch(PageBytes(mem[..], p), PageChecks(ecc[..], p)) {
      DecodedWord(word, noise(k));
      ghost var seen := SeenBytes(PageBytes(mem[..], p), noise);
      forall i | 0 <= i < to - from ensures piece[i] == seen[from..to][i] {
        assert (from + i) / 8 == k && (from + i) % 8 == from + i - 8 * k;
      }
    }
  }

  /** Reads part of a page chunk by chunk through the decoder: what it returns, and when it reports failure, for any
      flips in the chunks it touches. */
  method ReadPage(mem: array<Byte>, ecc: array<Check>, ghost pages: nat, p: nat, at: nat, len: nat, noise: nat -> Word)
    returns (bytes: seq<Byte>, ok: bool)
    requires Sized(mem, ecc, pages) && p < pages && len > 0 && at + len <= PAGE_SIZE
    requires (p + 1) * PAGE_SIZE <= mem.Length && (p + 1) * CHUNKS <= ecc.Length
    ensures |bytes| == len
    ensures ChecksMatch(PageBytes(mem[..], p), PageChecks(ecc[..], p)) ==>
              && (ok <==> forall o :: at <= o < at + len ==> !Reported(noise(o / 8)))
              && bytes == SeenBytes(PageBytes(mem[..], p), noise)[at..at + len]
    ensures ChecksMatch(PageBytes(mem[..], p), PageChecks(ecc[..], p)) && QuietEnough(noise) && ok ==>
              bytes == PageBytes(mem[..], p)[at..at + len]
    ensures ChecksMatch(PageBytes(mem[..], p), PageChecks(ecc[..], p)) && Silent(noise) ==> ok
  {
    hide ChecksMatch;
    hide QuietEnough;
    hide Silent;
    hide Reported;
    hide SeenBytes;
    hide PageBytes;
    ghost var page := PageBytes(mem[..], p);
    ghost var sound, seen := ChecksMatch(page, PageChecks(ecc[..], p)), SeenBytes(page, noise);
    hide PageChecks;
    bytes, ok := [], true;
    var k := at / 8;
    var end := (at + len + 7) / 8;
    while k < end
      invariant at / 8 <= k <= end
      invariant |bytes| == if 8 * k <= at then 0 else if 8 * k < at + len then 8 * k - at else len
      invariant sound ==> bytes == seen[at..at + |bytes|]
      invariant sound ==> (ok <==> forall c :: at / 8 <= c < k ==> !Reported(noise(c)))
    {
      var from := if 8 * k < at then at else 8 * k;
      var to := if 8 * k + 8 < at + len then 8 * k + 8 else at + len;
      var piece, good := ReadChunk(mem, ecc, pages, p, k, from, to, noise);
      ok := ok && good;
      assert seen[at..from] + seen[from..to] == seen[at..to];
      bytes := bytes + piece;
      k := k + 1;
    }
    ChunksOfRange(noise, at, len);
    SeenQuietly(page, noise, at, len);
  }

  /** The chunks of a range are those of its bytes. */
  lemma ChunksOfRange(noise: nat -> Word, at: nat, len: nat)
    requires len > 0
    ensures (forall c :: at / 8 <= c < (at + len + 7) / 8 ==> !Reported(noise(c)))
              <==> (forall o :: at <= o < at + len ==> !Reported(noise(o / 8)))
  {
    hide Reported;
    if forall o :: at <= o < at + len ==> !Reported(noise(o / 8)) {
      forall c | at / 8 <= c < (at + len + 7) / 8 ensures !Reported(noise(c)) {
        var o := if 8 * c < at then at else 8 * c;
        assert o / 8 == c;
      }
    }
  }

  /** With at most one flip a chunk, none reported, a range is seen as it is; with none, none is reported. */
  lemma SeenQuietly(page: seq<Byte>, noise: nat -> Word, at: nat, len: nat)
    requires |page| == PAGE_SIZE && at + len <= PAGE_SIZE
    ensures QuietEnough(noise) && (forall o :: at <= o < at + len ==> !Reported(noise(o / 8))) ==>
              SeenBytes(page, noise)[at..at + len] == page[at..at + len]
    ensures Silent(noise) ==> forall o :: at <= o < at + len ==> !Reported(noise(o / 8))
  {
    hide Reported;
    hide SeenBytes;
    if QuietEnough(noise) && forall o :: at <= o < at + len ==> !Reported(noise(o / 8)) {
      var seen := SeenBytes(page, noise);
      forall o | at <= o < at + len ensures seen[o] == page[o] {
        assert !Reported(noise(o / 8));
        SeenByteRight(page, noise, o);
      }
      assert seen[at..at + len] == page[at..at + len];
    }
    if Silent(noise) {
      WeightZero(Zeros(WORD_BITS));
      ResidueOfFew(Zeros(WORD_BITS));
    }
  }
}
