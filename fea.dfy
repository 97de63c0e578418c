/** The 16-round Feistel block cipher of FEA.py: 128-bit blocks, a key of
    32 bytes, eight 16-to-8-bit S-boxes, a 128-entry bit permutation and 16
    round constants. Python integers are unbounded, so values are `nat` and
    nothing is truncated unless the code masks it. */
module Fea {
  import opened Bits
  import opened FeistelNetwork

  newtype byte = b: int | 0 <= b < 256

  /** The tables FEA.py draws at random when it is loaded. */
  datatype Tables = Tables(sBoxes: seq<seq<nat>>, permutation: seq<nat>, roundConstants: seq<nat>)

  /** The shapes the generator gives the tables: 8 S-boxes of 65536 bytes,
      128 bit positions below 128, and 16 words below 2^32. */
  predicate WellFormed(t: Tables)
  {
    && |t.sBoxes| == 8
    && (forall i :: 0 <= i < 8 ==> |t.sBoxes[i]| == 65536)
    && (forall i, c :: 0 <= i < 8 && 0 <= c < |t.sBoxes[i]| ==> t.sBoxes[i][c] < 256)
    && |t.permutation| == 128
    && (forall i :: 0 <= i < 128 ==> t.permutation[i] < 128)
    && |t.roundConstants| == 16
    && (forall i :: 0 <= i < 16 ==> t.roundConstants[i] < 0x1_0000_0000)
  }

  /** The fixed expansion table `[i for i in range(64)] * 2`. */
  function ExpansionTable(): seq<nat>
  {
    seq(128, i requires 0 <= i < 128 => i % 64)
  }

  /** a and b have the same bits below n. */
  ghost predicate AgreeBelow(a: nat, b: nat, n: nat)
  {
    forall k: nat :: k < n ==> Bit(a, k) == Bit(b, k)
  }

  // ---------------------------------------------------------------------
  // Word rotation

  /** rotate_left: `((word << bits) & 0xFFFFFFFF) | (word >> (32 - bits))`.
      A negative shift count raises in Python, hence bits <= 32. */
  function RotateLeft(word: nat, bits: nat): (r: nat)
    requires bits <= 32
    ensures FitsIn(word, 32) ==> FitsIn(r, 32)
  {
    RotateLeftBound(word, bits);
    Or(Low(Shl(word, bits), 32), Shr(word, 32 - bits))
  }

  /** On a 32-bit word, bit k of the result below 32 is bit k - bits of
      the word when bits <= k, and bit k + 32 - bits otherwise; nothing is
      set from bit 32 up. */
  lemma RotateLeftBit(word: nat, bits: nat, k: nat)
    requires bits <= 32 && FitsIn(word, 32)
    ensures Bit(RotateLeft(word, bits), k)
         == (k < 32 && if bits <= k then Bit(word, k - bits) else Bit(word, k + 32 - bits))
  {
    var high, low := Low(Shl(word, bits), 32), Shr(word, 32 - bits);
    assert RotateLeft(word, bits) == Or(high, low);
    OrBit(high, low, k);
    LowBit(Shl(word, bits), 32, k);
    ShlBit(word, bits, k);
    ShrBit(word, 32 - bits, k);
    if bits <= k {
      BitAbove(word, 32, 32 - bits + k);
    }
  }

  /** Both parts of the rotation fit in 32 bits: the masked left shift by
      its mask, the right shift because it only moves bits down. */
  lemma RotateLeftBound(word: nat, bits: nat)
    requires bits <= 32
    ensures FitsIn(word, 32) ==> FitsIn(Or(Low(Shl(word, bits), 32), Shr(word, 32 - bits)), 32)
  {
    if FitsIn(word, 32) {
      var low := Shr(word, 32 - bits);
      forall k: nat | 32 <= k
        ensures !Bit(low, k)
      {
        ShrBit(word, 32 - bits, k);
        BitAbove(word, 32, 32 - bits + k);
      }
      BelowFromBits(low, 32);
      LowBound(Shl(word, bits), 32);
      OrBound(Low(Shl(word, bits), 32), low, 32);
    }
  }

  /** The rotation moves bit k of a 32-bit word to bit (k + bits) mod 32. */
  lemma RotateLeftRotates(word: nat, bits: nat, k: nat)
    requires bits <= 32 && FitsIn(word, 32) && k < 32
    ensures Bit(RotateLeft(word, bits), (k + bits) % 32) == Bit(word, k)
  {
    if k + bits < 32 {
      assert (k + bits) % 32 == k + bits;
      RotateLeftBit(word, bits, k + bits);
    } else {
      assert (k + bits) % 32 == k + bits - 32;
      RotateLeftBit(word, bits, k + bits - 32);
    }
  }

  /** Rotating by 0 changes nothing, and so does rotating by 32. */
  lemma RotateLeftFull(word: nat)
    requires FitsIn(word, 32)
    ensures RotateLeft(word, 0) == word
    ensures RotateLeft(word, 32) == word
  {
    forall k: nat
      ensures Bit(RotateLeft(word, 0), k) == Bit(word, k)
      ensures Bit(RotateLeft(word, 32), k) == Bit(word, k)
    {
      RotateLeftBit(word, 0, k);
      RotateLeftBit(word, 32, k);
      if 32 <= k {
        BitAbove(word, 32, k);
      }
    }
    BitsDetermine(RotateLeft(word, 0), word);
    BitsDetermine(RotateLeft(word, 32), word);
  }

  // ---------------------------------------------------------------------
  // Key schedule

  /** `int.from_bytes(bytes, byteorder='big')`. */
  function BigEndian(bytes: seq<byte>): nat
  {
    if bytes == [] then 0
    else BigEndian(bytes[..|bytes| - 1]) * 256 + bytes[|bytes| - 1] as int
  }

  /** The key cut into 4-byte slices, each read big-endian; a last slice may
      be shorter, as Python's `key[i:i+4]` is. */
  function KeyWords(key: seq<byte>): (words: seq<nat>)
    ensures |words| == (|key| + 3) / 4
  {
    seq((|key| + 3) / 4, w requires 0 <= w < (|key| + 3) / 4 =>
      BigEndian(key[4 * w .. if 4 * w + 4 <= |key| then 4 * w + 4 else |key|]))
  }

  /** One round's eight words: each key word rotated by the round index and
      XORed with the round constant (the `round_key` list). */
  function RoundKey(t: Tables, words: seq<nat>, i: nat): (roundKey: seq<nat>)
    requires WellFormed(t) && |words| >= 8 && i < 16
    ensures |roundKey| == 8
  {
    seq(8, j requires 0 <= j < 8 => Xor(RotateLeft(words[j], i), t.roundConstants[i]))
  }

  /** The words folded by `subkey = (subkey << 32) | word`. */
  function Pack(words: seq<nat>): nat
  {
    if words == [] then 0
    else Or(Shl(Pack(words[..|words| - 1]), 32), words[|words| - 1])
  }

  /** The 16 subkeys of a key. The key must supply at least 8 words, that is
      more than 28 bytes, or `key_words[j]` raises. */
  function Schedule(t: Tables, key: seq<byte>): (subkeys: seq<nat>)
    requires WellFormed(t) && |key| > 28
    ensures |subkeys| == 16
  {
    seq(16, i requires 0 <= i < 16 => Pack(RoundKey(t, KeyWords(key), i)))
  }

  /** subkey_generation. */
  method SubkeyGeneration(t: Tables, key: seq<byte>) returns (subkeys: seq<nat>)
    requires WellFormed(t) && |key| > 28
    ensures subkeys == Schedule(t, key)
  {
    subkeys := [];
    var keyWords := KeyWords(key);
    ghost var schedule := Schedule(t, key);
    for i := 0 to 16
      invariant subkeys == schedule[..i]
    {
      ghost var spec := RoundKey(t, keyWords, i);
      var roundKey := [];
      for j := 0 to 8
        invariant roundKey == spec[..j]
      {
        var rotatedWord := RotateLeft(keyWords[j], i);
        roundKey := roundKey + [Xor(rotatedWord, t.roundConstants[i])];
      }
      assert roundKey == spec;
      var subkey := 0;
      for j := 0 to 8
        invariant subkey == Pack(roundKey[..j])
      {
        assert roundKey[..j + 1][..j] == roundKey[..j];
        subkey := Or(Shl(subkey, 32), roundKey[j]);
      }
      assert roundKey[..8] == roundKey;
      assert subkey == schedule[i];
      subkeys := subkeys + [subkey];
    }
    assert schedule[..16] == schedule;
  }

  /** Bits of a big-endian number: byte m from the end supplies bits
      8m .. 8m+7. */
  lemma {:induction false} BigEndianBit(bytes: seq<byte>, k: nat)
    ensures Bit(BigEndian(bytes), k) ==
      (k < 8 * |bytes| && Bit(bytes[|bytes| - 1 - k / 8] as int, k % 8))
  {
    if bytes == [] {
      BitOfZero(k);
    } else {
      var init := bytes[..|bytes| - 1];
      var last := bytes[|bytes| - 1] as int;
      FitsInConstants(last);
      ShlByte(BigEndian(init));
      ShlPlusBit(BigEndian(init), last, 8, k);
      if k >= 8 {
        BigEndianBit(init, k - 8);
        assert (k - 8) / 8 == k / 8 - 1 && (k - 8) % 8 == k % 8;
      }
    }
  }

  lemma BigEndianBound(bytes: seq<byte>)
    ensures FitsIn(BigEndian(bytes), 8 * |bytes|)
  {
    forall k: nat | 8 * |bytes| <= k
      ensures !Bit(BigEndian(bytes), k)
    {
      BigEndianBit(bytes, k);
    }
    BelowFromBits(BigEndian(bytes), 8 * |bytes|);
  }

  /** Every key word fits in 32 bits, and a word read from a full 4-byte
      slice holds the slice's bytes from the most significant down. */
  lemma KeyWordBytes(key: seq<byte>, j: nat, m: nat)
    requires j < |KeyWords(key)|
    ensures FitsIn(KeyWords(key)[j], 32)
    ensures 4 * j + 4 <= |key| && m < 4 ==> Field(KeyWords(key)[j], 8 * (3 - m), 8) == key[4 * j + m] as int
  {
    var hi := if 4 * j + 4 <= |key| then 4 * j + 4 else |key|;
    var slice := key[4 * j .. hi];
    BigEndianBound(slice);
    FitsInMonotone(BigEndian(slice), 8 * |slice|, 32);
    if 4 * j + 4 <= |key| && m < 4 {
      var word, lo, v := KeyWords(key)[j], 8 * (3 - m), key[4 * j + m] as int;
      FitsInConstants(v);
      forall b: nat | b < 8
        ensures Bit(word, lo + b) == Bit(v, b)
      {
        BigEndianBit(slice, lo + b);
        assert (lo + b) / 8 == 3 - m && (lo + b) % 8 == b;
      }
      FieldIs(word, lo, 8, v);
    }
  }

  /** Bits of a packed word list: word m from the end supplies bits
      32m .. 32m+31. */
  lemma {:induction false} PackBit(words: seq<nat>, k: nat)
    requires forall j :: 0 <= j < |words| ==> FitsIn(words[j], 32)
    ensures Bit(Pack(words), k) == (k < 32 * |words| && Bit(words[|words| - 1 - k / 32], k % 32))
  {
    if words == [] {
      BitOfZero(k);
    } else {
      var init := words[..|words| - 1];
      var last := words[|words| - 1];
      ConcatBit(Pack(init), last, 32, k);
      if k >= 32 {
        PackBit(init, k - 32);
        assert (k - 32) / 32 == k / 32 - 1 && (k - 32) % 32 == k % 32;
      }
    }
  }

  /** A packed list of 32-bit words fits in 32 bits per word, and word j
      (word 0 most significant) can be read back. */
  lemma PackWords(words: seq<nat>, j: nat)
    requires forall i :: 0 <= i < |words| ==> FitsIn(words[i], 32)
    requires j < |words|
    ensures FitsIn(Pack(words), 32 * |words|)
    ensures Field(Pack(words), 32 * (|words| - 1 - j), 32) == words[j]
  {
    forall k: nat | 32 * |words| <= k
      ensures !Bit(Pack(words), k)
    {
      PackBit(words, k);
    }
    BelowFromBits(Pack(words), 32 * |words|);
    var lo := 32 * (|words| - 1 - j);
    forall b: nat | b < 32
      ensures Bit(Pack(words), lo + b) == Bit(words[j], b)
    {
      PackBit(words, lo + b);
      assert (lo + b) / 32 == |words| - 1 - j && (lo + b) % 32 == b;
    }
    FieldIs(Pack(words), lo, 32, words[j]);
  }

  lemma RoundKeyWords(t: Tables, key: seq<byte>, i: nat)
    requires WellFormed(t) && |key| > 28 && i < 16
    ensures forall j :: 0 <= j < 8 ==> FitsIn(RoundKey(t, KeyWords(key), i)[j], 32)
  {
    forall j | 0 <= j < 8
      ensures FitsIn(RoundKey(t, KeyWords(key), i)[j], 32)
    {
      KeyWordBytes(key, j, 0);
      FitsInConstants(t.roundConstants[i]);
      XorBound(RotateLeft(KeyWords(key)[j], i), t.roundConstants[i], 32);
    }
  }

  /** Every subkey is below 2^256, and its 32-bit word j (word 0 most
      significant) is key word j rotated left by the round index and XORed
      with that round's constant. */
  lemma ScheduleWords(t: Tables, key: seq<byte>, i: nat, j: nat)
    requires WellFormed(t) && |key| > 28 && i < 16 && j < 8
    ensures FitsIn(Schedule(t, key)[i], 256)
    ensures Field(Schedule(t, key)[i], 32 * (7 - j), 32)
         == Xor(RotateLeft(KeyWords(key)[j], i), t.roundConstants[i])
  {
    RoundKeyWords(t, key, i);
    PackWords(RoundKey(t, KeyWords(key), i), j);
  }

  // ---------------------------------------------------------------------
  // Expansion and permutation: scattering the low 128 bits of a block

  /** The first n iterations of the loop in expand_block and permute_block:
      `result |= ((block >> i) & 1) << table[i]`. */
  function Scatter(block: nat, table: seq<nat>, n: nat): nat
    requires n <= |table|
  {
    if n == 0 then 0
    else Or(Scatter(block, table, n - 1), Shl(Shr(block, n - 1) % 2, table[n - 1]))
  }

  /** Output bit j is set exactly when some input position i < n that the
      table sends to j has its bit set. */
  lemma {:induction false} ScatterBit(block: nat, table: seq<nat>, n: nat, j: nat)
    requires n <= |table|
    ensures Bit(Scatter(block, table, n), j) <==>
      exists i :: 0 <= i < n && table[i] == j && Bit(block, i)
  {
    if n == 0 {
      BitOfZero(j);
    } else {
      var rest := Scatter(block, table, n - 1);
      var b := Shr(block, n - 1) % 2;
      ScatterBit(block, table, n - 1, j);
      OrBit(rest, Shl(b, table[n - 1]), j);
      ShlBit(b, table[n - 1], j);
      if table[n - 1] <= j {
        if b == 1 {
          BitOfOne(j - table[n - 1]);
        } else {
          BitOfZero(j - table[n - 1]);
        }
      }
      if Bit(block, n - 1) && table[n - 1] == j {
        assert 0 <= n - 1 < n && table[n - 1] == j && Bit(block, n - 1);
      }
    }
  }

  /** Only the bits below n of the input are read. */
  lemma {:induction false} ScatterLowBits(a: nat, b: nat, table: seq<nat>, n: nat)
    requires n <= |table| && AgreeBelow(a, b, n)
    ensures Scatter(a, table, n) == Scatter(b, table, n)
  {
    if n > 0 {
      ScatterLowBits(a, b, table, n - 1);
      assert Bit(a, n - 1) == Bit(b, n - 1);
    }
  }

  /** If the table sends every input position below n under m, the result
      fits in m bits. */
  lemma ScatterBound(block: nat, table: seq<nat>, n: nat, m: nat)
    requires n <= |table|
    requires forall i :: 0 <= i < n ==> table[i] < m
    ensures FitsIn(Scatter(block, table, n), m)
  {
    forall k: nat | m <= k
      ensures !Bit(Scatter(block, table, n), k)
    {
      ScatterBit(block, table, n, k);
    }
    BelowFromBits(Scatter(block, table, n), m);
  }

  /** The loop shared by expand_block and permute_block. */
  method ScatterBits(block: nat, table: seq<nat>) returns (result: nat)
    requires |table| >= 128
    ensures result == Scatter(block, table, 128)
  {
    result := 0;
    for i := 0 to 128
      invariant result == Scatter(block, table, i)
    {
      var bit := Shr(block, i) % 2;
      result := Or(result, Shl(bit, table[i]));
    }
  }

  function Expanded(block: nat): nat
  {
    Scatter(block, ExpansionTable(), 128)
  }

  /** expand_block. */
  method ExpandBlock(block: nat) returns (expanded: nat)
    ensures expanded == Expanded(block)
  {
    expanded := ScatterBits(block, ExpansionTable());
  }

  /** The fixed table folds bit j + 64 onto bit j: output bit j is input
      bit j OR input bit j + 64, and nothing is set from bit 64 up. */
  lemma ExpandedBit(block: nat, j: nat)
    ensures Bit(Expanded(block), j) == (j < 64 && (Bit(block, j) || Bit(block, j + 64)))
  {
    ScatterBit(block, ExpansionTable(), 128, j);
    if j < 64 && Bit(block, j) {
      assert ExpansionTable()[j] == j;
    }
    if j < 64 && Bit(block, j + 64) {
      assert ExpansionTable()[j + 64] == j;
    }
  }

  lemma ExpandedBound(block: nat)
    ensures FitsIn(Expanded(block), 64)
  {
    forall k: nat | 64 <= k
      ensures !Bit(Expanded(block), k)
    {
      ExpandedBit(block, k);
    }
    BelowFromBits(Expanded(block), 64);
  }

  /** Input bits from 128 up are never read. */
  lemma ExpandedIgnoresHighBits(block: nat)
    ensures Expanded(block) == Expanded(Low(block, 128))
  {
    forall k: nat | k < 128
      ensures Bit(block, k) == Bit(Low(block, 128), k)
    {
      LowBit(block, 128, k);
    }
    ScatterLowBits(block, Low(block, 128), ExpansionTable(), 128);
  }

  /** A value that already fits in 64 bits comes out unchanged. */
  lemma ExpandedIdentityBelow64(block: nat)
    requires FitsIn(block, 64)
    ensures Expanded(block) == block
  {
    forall k: nat
      ensures Bit(Expanded(block), k) == Bit(block, k)
    {
      ExpandedBit(block, k);
      BitAbove(block, 64, k + 64);
      if 64 <= k {
        BitAbove(block, 64, k);
      }
    }
    BitsDetermine(Expanded(block), block);
  }

  function Permuted(t: Tables, block: nat): nat
    requires WellFormed(t)
  {
    Scatter(block, t.permutation, 128)
  }

  /** permute_block. */
  method PermuteBlock(t: Tables, block: nat) returns (permuted: nat)
    requires WellFormed(t)
    ensures permuted == Permuted(t, block)
  {
    permuted := ScatterBits(block, t.permutation);
  }

  /** Output bit j is set exactly when some input bit i < 128 with
      PERMUTATION[i] == j is set. */
  lemma PermutedBit(t: Tables, block: nat, j: nat)
    requires WellFormed(t)
    ensures Bit(Permuted(t, block), j) <==>
      exists i :: 0 <= i < 128 && t.permutation[i] == j && Bit(block, i)
  {
    ScatterBit(block, t.permutation, 128, j);
  }

  /** The result fits in 128 bits and input bits from 128 up are never read. */
  lemma PermutedBound(t: Tables, block: nat)
    requires WellFormed(t)
    ensures FitsIn(Permuted(t, block), 128)
    ensures Permuted(t, block) == Permuted(t, Low(block, 128))
  {
    ScatterBound(block, t.permutation, 128, 128);
    forall k: nat | k < 128
      ensures Bit(block, k) == Bit(Low(block, 128), k)
    {
      LowBit(block, 128, k);
    }
    ScatterLowBits(block, Low(block, 128), t.permutation, 128);
  }

  /** A zero block permutes to zero. */
  lemma PermutedZero(t: Tables)
    requires WellFormed(t)
    ensures Permuted(t, 0) == 0
  {
    forall j: nat
      ensures Bit(Permuted(t, 0), j) == Bit(0, j)
    {
      PermutedBit(t, 0, j);
      BitOfZero(j);
      forall i | 0 <= i < 128
        ensures !Bit(0, i)
      {
        BitOfZero(i);
      }
    }
    BitsDetermine(Permuted(t, 0), 0);
  }

  /** The condition under which round outputs stay below 2^64: every input
      position below 64 is sent below 64. */
  predicate LowPermutation(t: Tables)
    requires WellFormed(t)
  {
    forall i :: 0 <= i < 64 ==> t.permutation[i] < 64
  }

  lemma PermutedBelow64(t: Tables, block: nat)
    requires WellFormed(t) && LowPermutation(t) && FitsIn(block, 64)
    ensures FitsIn(Permuted(t, block), 64)
  {
    forall k: nat | 64 <= k
      ensures !Bit(Permuted(t, block), k)
    {
      ScatterBit(block, t.permutation, 128, k);
      forall i | 0 <= i < 128 && t.permutation[i] == k
        ensures !Bit(block, i)
      {
        BitAbove(block, 64, i);
      }
    }
    BelowFromBits(Permuted(t, block), 64);
  }

  // ---------------------------------------------------------------------
  // S-box substitution

  /** S-box i applied to the 16-bit chunk i: `S_BOXES[i][(block >> 16*i) & 0xFFFF]`. */
  function SBoxLookup(t: Tables, block: nat, i: nat): (v: nat)
    requires WellFormed(t) && i < 8
    ensures v < 256
  {
    FieldBound(block, 16 * i, 16);
    FitsInConstants(Field(block, 16 * i, 16));
    t.sBoxes[i][Field(block, 16 * i, 16)]
  }

  /** The first n iterations of the loop in s_box_substitution. */
  function SubstitutedUpTo(t: Tables, block: nat, n: nat): nat
    requires WellFormed(t) && n <= 8
  {
    if n == 0 then 0
    else Or(SubstitutedUpTo(t, block, n - 1), Shl(SBoxLookup(t, block, n - 1), 8 * (n - 1)))
  }

  function Substituted(t: Tables, block: nat): nat
    requires WellFormed(t)
  {
    SubstitutedUpTo(t, block, 8)
  }

  /** s_box_substitution. */
  method SBoxSubstitution(t: Tables, block: nat) returns (substituted: nat)
    requires WellFormed(t)
    ensures substituted == Substituted(t, block)
  {
    substituted := 0;
    for i := 0 to 8
      invariant substituted == SubstitutedUpTo(t, block, i)
    {
      var chunk := Low(Shr(block, i * 16), 16);
      FieldBound(block, 16 * i, 16);
      FitsInConstants(chunk);
      substituted := Or(substituted, Shl(t.sBoxes[i][chunk], i * 8));
    }
  }

  /** Bit k of the partial result is bit k % 8 of the byte from S-box k / 8
      below 8n, and clear from 8n up. */
  lemma {:induction false} SubstitutedUpToBit(t: Tables, block: nat, n: nat, k: nat)
    requires WellFormed(t) && n <= 8
    ensures Bit(SubstitutedUpTo(t, block, n), k) ==
      (k < 8 * n && Bit(SBoxLookup(t, block, k / 8), k % 8))
  {
    if n == 0 {
      BitOfZero(k);
    } else {
      var rest := SubstitutedUpTo(t, block, n - 1);
      var v := SBoxLookup(t, block, n - 1);
      var lo := 8 * (n - 1);
      SubstitutedUpToBit(t, block, n - 1, k);
      OrBit(rest, Shl(v, lo), k);
      ShlBit(v, lo, k);
      FitsInConstants(v);
      if lo + 8 <= k {
        BitAbove(v, 8, k - lo);
      }
      if lo <= k < lo + 8 {
        assert k / 8 == n - 1 && k % 8 == k - lo;
      }
    }
  }

  /** The substituted value fits in 64 bits and its byte i is what S-box i
      gives for the 16-bit chunk i of the input. */
  lemma SubstitutedBytes(t: Tables, block: nat, i: nat)
    requires WellFormed(t) && i < 8
    ensures FitsIn(Substituted(t, block), 64)
    ensures Field(Substituted(t, block), 8 * i, 8) == SBoxLookup(t, block, i)
  {
    forall k: nat | 64 <= k
      ensures !Bit(Substituted(t, block), k)
    {
      SubstitutedUpToBit(t, block, 8, k);
    }
    BelowFromBits(Substituted(t, block), 64);
    FitsInConstants(SBoxLookup(t, block, i));
    forall m: nat | m < 8
      ensures Bit(Substituted(t, block), 8 * i + m) == Bit(SBoxLookup(t, block, i), m)
    {
      SubstitutedUpToBit(t, block, 8, 8 * i + m);
      assert (8 * i + m) / 8 == i && (8 * i + m) % 8 == m;
    }
    FieldIs(Substituted(t, block), 8 * i, 8, SBoxLookup(t, block, i));
  }

  /** Inputs with the same low 128 bits give the same result: only eight
      16-bit chunks are read. */
  lemma {:induction false} SubstitutedLowBits(t: Tables, a: nat, b: nat, n: nat)
    requires WellFormed(t) && n <= 8 && AgreeBelow(a, b, 128)
    ensures SubstitutedUpTo(t, a, n) == SubstitutedUpTo(t, b, n)
  {
    if n > 0 {
      SubstitutedLowBits(t, a, b, n - 1);
      var lo := 16 * (n - 1);
      forall m: nat | m < 16
        ensures Bit(a, lo + m) == Bit(Field(b, lo, 16), m)
      {
        FieldBit(b, lo, 16, m);
      }
      FieldBound(b, lo, 16);
      FieldIs(a, lo, 16, Field(b, lo, 16));
    }
  }

  lemma SubstitutedIgnoresHighBits(t: Tables, block: nat)
    requires WellFormed(t)
    ensures Substituted(t, block) == Substituted(t, Low(block, 128))
  {
    forall k: nat | k < 128
      ensures Bit(block, k) == Bit(Low(block, 128), k)
    {
      LowBit(block, 128, k);
    }
    SubstitutedLowBits(t, block, Low(block, 128), 8);
  }

  // ---------------------------------------------------------------------
  // Round function and Feistel round

  /** round_function: expand, XOR with the subkey, substitute, permute.
      Its value fits in 128 bits, and in 64 when the permutation keeps the
      low 64 positions low. */
  function RoundFunction(t: Tables, right: nat, subkey: nat): (r: nat)
    requires WellFormed(t)
    ensures FitsIn(r, 128)
    ensures LowPermutation(t) ==> FitsIn(r, 64)
  {
    var expanded := Expanded(right);
    var mixed := Xor(expanded, subkey);
    var substituted := Substituted(t, mixed);
    SubstitutedBytes(t, mixed, 0);
    PermutedBound(t, substituted);
    if LowPermutation(t) then
      PermutedBelow64(t, substituted);
      Permuted(t, substituted)
    else
      Permuted(t, substituted)
  }

  /** Only the low 128 bits of the 256-bit subkey influence the round
      function. */
  lemma RoundFunctionUsesLowSubkeyBits(t: Tables, right: nat, subkey: nat)
    requires WellFormed(t)
    ensures RoundFunction(t, right, subkey) == RoundFunction(t, right, Low(subkey, 128))
  {
    var e := Expanded(right);
    forall k: nat | k < 128
      ensures Bit(Xor(e, subkey), k) == Bit(Xor(e, Low(subkey, 128)), k)
    {
      XorBit(e, subkey, k);
      XorBit(e, Low(subkey, 128), k);
      LowBit(subkey, 128, k);
    }
    SubstitutedLowBits(t, Xor(e, subkey), Xor(e, Low(subkey, 128)), 8);
  }

  function Fn(t: Tables): RoundFn
    requires WellFormed(t)
  {
    (right: nat, subkey: nat) => RoundFunction(t, right, subkey)
  }

  lemma FnBounded(t: Tables)
    requires WellFormed(t)
    ensures Bounded(Fn(t), 128)
    ensures LowPermutation(t) ==> Bounded(Fn(t), 64)
  {
    forall right: nat, subkey: nat
      ensures FitsIn(Fn(t)(right, subkey), 128)
      ensures LowPermutation(t) ==> FitsIn(Fn(t)(right, subkey), 64)
    {
      assert Fn(t)(right, subkey) == RoundFunction(t, right, subkey);
    }
  }

  /** All-zero S-boxes make every round output 0, so the round function
      fits in 64 bits whatever the permutation is. */
  lemma ZeroSBoxesBounded(t: Tables)
    requires WellFormed(t)
    requires forall i, c :: 0 <= i < 8 && 0 <= c < 65536 ==> t.sBoxes[i][c] == 0
    ensures Bounded(Fn(t), 64)
  {
    forall right: nat, subkey: nat
      ensures FitsIn(Fn(t)(right, subkey), 64)
    {
      var m := Xor(Expanded(right), subkey);
      forall k: nat
        ensures Bit(Substituted(t, m), k) == Bit(0, k)
      {
        SubstitutedUpToBit(t, m, 8, k);
        BitOfZero(k);
        if k < 64 {
          var i := k / 8;
          FieldBound(m, 16 * i, 16);
          FitsInConstants(Field(m, 16 * i, 16));
          assert SBoxLookup(t, m, i) == 0;
          BitOfZero(k % 8);
        }
      }
      BitsDetermine(Substituted(t, m), 0);
      PermutedZero(t);
      ShrOfZero(64);
      assert Fn(t)(right, subkey) == RoundFunction(t, right, subkey);
    }
  }

  /** feistel_round: `(right, left ^ round_function(right, subkey))`. Halves
      below 2^128 stay below 2^128; below 2^64 they stay below 2^64 when the
      permutation keeps the low positions low. */
  function FeistelRound(t: Tables, left: nat, right: nat, subkey: nat): (h: Halves)
    requires WellFormed(t)
    ensures h.left == right
    ensures FitsIn(left, 128) && FitsIn(right, 128) ==> Fits(h, 128)
    ensures LowPermutation(t) && FitsIn(left, 64) && FitsIn(right, 64) ==> Fits(h, 64)
  {
    RoundOutputFits(t, left, right, subkey);
    Round(Fn(t), left, right, subkey)
  }

  lemma RoundOutputFits(t: Tables, left: nat, right: nat, subkey: nat)
    requires WellFormed(t)
    ensures FitsIn(left, 128) ==> FitsIn(Xor(left, RoundFunction(t, right, subkey)), 128)
    ensures LowPermutation(t) && FitsIn(left, 64) ==> FitsIn(Xor(left, RoundFunction(t, right, subkey)), 64)
  {
    var f := RoundFunction(t, right, subkey);
    if FitsIn(left, 128) {
      XorBound(left, f, 128);
    }
    if LowPermutation(t) && FitsIn(left, 64) {
      XorBound(left, f, 64);
    }
  }

  /** Calling the round again on its result with the halves swapped gives
      back the original halves, swapped. */
  lemma FeistelRoundUndo(t: Tables, left: nat, right: nat, subkey: nat)
    requires WellFormed(t)
    ensures var h := FeistelRound(t, left, right, subkey);
            FeistelRound(t, h.right, h.left, subkey) == Halves(right, left)
  {
    RoundSwapUndoes(Fn(t), left, right, subkey);
  }

  // ---------------------------------------------------------------------
  // Block encryption and decryption

  /** `(block >> 64) & 0xFFFFFFFFFFFFFFFF` and `block & 0xFFFFFFFFFFFFFFFF`. */
  function Split(block: nat): Halves
  {
    Halves(Field(block, 64, 64), Low(block, 64))
  }

  /** `(left << 64) | right`, not masked. */
  function Join(h: Halves): nat
  {
    Or(Shl(h.left, 64), h.right)
  }

  function Encrypted(t: Tables, block: nat, key: seq<byte>): nat
    requires WellFormed(t) && |key| > 28
  {
    Join(Forward(Fn(t), Split(block), Schedule(t, key), 16))
  }

  function Decrypted(t: Tables, block: nat, key: seq<byte>): nat
    requires WellFormed(t) && |key| > 28
  {
    Join(Backward(Fn(t), Split(block), Schedule(t, key), 16))
  }

  lemma SplitFits(block: nat)
    ensures Fits(Split(block), 64)
  {
    FieldBound(block, 64, 64);
    LowBound(block, 64);
  }

  /** encrypt_block. */
  method EncryptBlock(t: Tables, block: nat, key: seq<byte>) returns (encrypted: nat)
    requires WellFormed(t) && |key| > 28
    ensures encrypted == Encrypted(t, block, key)
    ensures FitsIn(encrypted, 192)
  {
    var left := Low(Shr(block, 64), 64);
    var right := Low(block, 64);
    var subkeys := SubkeyGeneration(t, key);
    SplitFits(block);
    FitsMonotone(Halves(left, right), 64, 128);
    for i := 0 to 16
      invariant Halves(left, right) == Forward(Fn(t), Split(block), subkeys, i)
      invariant FitsIn(left, 128) && FitsIn(right, 128)
    {
      var h := FeistelRound(t, left, right, subkeys[i]);
      left, right := h.left, h.right;
    }
    JoinBound(Halves(left, right), 128);
    encrypted := Or(Shl(left, 64), right);
  }

  /** decrypt_block: the rounds from 15 down to 0, each called with the
      halves swapped. */
  method DecryptBlock(t: Tables, block: nat, key: seq<byte>) returns (decrypted: nat)
    requires WellFormed(t) && |key| > 28
    ensures decrypted == Decrypted(t, block, key)
    ensures FitsIn(decrypted, 192)
  {
    var left := Low(Shr(block, 64), 64);
    var right := Low(block, 64);
    var subkeys := SubkeyGeneration(t, key);
    for i := 16 downto 0
      invariant Backward(Fn(t), Halves(left, right), subkeys, i)
             == Backward(Fn(t), Split(block), subkeys, 16)
    {
      var h := FeistelRound(t, right, left, subkeys[i]);
      right, left := h.left, h.right;
    }
    DecryptedBound(t, block, key);
    decrypted := Or(Shl(left, 64), right);
  }

  /** Joining halves of at most w bits gives at most w + 64 bits. */
  lemma JoinBound(h: Halves, w: nat)
    requires Fits(h, w)
    ensures FitsIn(Join(h), w + 64)
  {
    ShlBound(h.left, 64, w);
    FitsInMonotone(h.right, w, w + 64);
    OrBound(Shl(h.left, 64), h.right, w + 64);
  }

  /** Halves of at most 64 bits survive joining and splitting. */
  lemma SplitJoin(h: Halves)
    requires Fits(h, 64)
    ensures Split(Join(h)) == h
  {
    var x := Join(h);
    forall m: nat | m < 64
      ensures Bit(x, 64 + m) == Bit(h.left, m)
    {
      ConcatBit(h.left, h.right, 64, 64 + m);
    }
    FieldIs(x, 64, 64, h.left);
    forall m: nat | m < 64
      ensures Bit(x, 0 + m) == Bit(h.right, m)
    {
      ConcatBit(h.left, h.right, 64, m);
    }
    FieldIs(x, 0, 64, h.right);
    assert Field(x, 0, 64) == Low(x, 64);
  }

  /** A block of at most 128 bits survives splitting and joining. */
  lemma JoinSplit(block: nat)
    requires FitsIn(block, 128)
    ensures Join(Split(block)) == block
  {
    var h := Split(block);
    SplitFits(block);
    forall k: nat
      ensures Bit(Join(h), k) == Bit(block, k)
    {
      ConcatBit(h.left, h.right, 64, k);
      if k < 64 {
        LowBit(block, 64, k);
      } else {
        FieldBit(block, 64, 64, k - 64);
        if 128 <= k {
          BitAbove(block, 128, k);
        }
      }
    }
    BitsDetermine(Join(h), block);
  }

  /** The encrypted block fits in 192 bits; in 128 bits when the
      permutation keeps the low 64 positions low. */
  lemma EncryptedBound(t: Tables, block: nat, key: seq<byte>)
    requires WellFormed(t) && |key| > 28
    ensures FitsIn(Encrypted(t, block, key), 192)
    ensures LowPermutation(t) ==> FitsIn(Encrypted(t, block, key), 128)
  {
    var h := Split(block);
    SplitFits(block);
    FitsMonotone(h, 64, 128);
    FnBounded(t);
    ForwardFits(Fn(t), h, Schedule(t, key), 16, 128);
    JoinBound(Forward(Fn(t), h, Schedule(t, key), 16), 128);
    if LowPermutation(t) {
      ForwardFits(Fn(t), h, Schedule(t, key), 16, 64);
      JoinBound(Forward(Fn(t), h, Schedule(t, key), 16), 64);
    }
  }

  /** The same bounds for the decrypted block. */
  lemma DecryptedBound(t: Tables, block: nat, key: seq<byte>)
    requires WellFormed(t) && |key| > 28
    ensures FitsIn(Decrypted(t, block, key), 192)
    ensures LowPermutation(t) ==> FitsIn(Decrypted(t, block, key), 128)
  {
    var h := Split(block);
    SplitFits(block);
    FitsMonotone(h, 64, 128);
    FnBounded(t);
    BackwardFits(Fn(t), h, Schedule(t, key), 16, 128);
    JoinBound(Backward(Fn(t), h, Schedule(t, key), 16), 128);
    if LowPermutation(t) {
      BackwardFits(Fn(t), h, Schedule(t, key), 16, 64);
      JoinBound(Backward(Fn(t), h, Schedule(t, key), 16), 64);
    }
  }

  /** Decryption undoes encryption for every 128-bit block whenever every
      round output fits in the 64 bits of a half: then no half ever exceeds
      64 bits, so the unmasked join loses nothing. A permutation that sends
      positions 0..63 below 64 is one way to get there (`FnBounded`). */
  lemma RoundTrip(t: Tables, block: nat, key: seq<byte>)
    requires WellFormed(t) && Bounded(Fn(t), 64) && |key| > 28 && FitsIn(block, 128)
    ensures Decrypted(t, Encrypted(t, block, key), key) == block
  {
    var f, ks := Fn(t), Schedule(t, key);
    var h := Split(block);
    SplitFits(block);
    ForwardFits(f, h, ks, 16, 64);
    SplitJoin(Forward(f, h, ks, 16));
    BackwardUndoesForward(f, h, ks, 16);
    JoinSplit(block);
  }
}
