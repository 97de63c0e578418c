/** Decryption does not always undo encryption in FEA.py. The round function
    can return up to 128 bits, because PERMUTATION may send a bit to any of
    128 positions. So a half can grow past 64 bits. Encryption then joins the
    halves with `(left << 64) | right` and lets them overlap, and decryption
    masks both halves back to 64 bits, so information is lost. The tables
    below are of the generated shape and show this on the all-zero block with
    the all-zero 32-byte key. `MaskedRoundTrip` proves the evidently intended
    cipher, whose round output is cut to the 64 bits of a half. */
module FeaFindings {
  import opened Bits
  import opened FeistelNetwork
  import opened Fea

  /** What the counterexample needs of the tables: S-box 0 returns the low bit
      of its chunk and the other S-boxes return 0, PERMUTATION sends bit 0 to
      position p, and only round constant 0 is odd. */
  predicate CounterShape(t: Tables, p: nat)
  {
    && WellFormed(t)
    && t.permutation[0] == p
    && (forall c :: 0 <= c < 65536 ==> t.sBoxes[0][c] == c % 2)
    && (forall i, c :: 1 <= i < 8 && 0 <= c < 65536 ==> t.sBoxes[i][c] == 0)
    && t.roundConstants[0] % 2 == 1
    && (forall i :: 1 <= i < 16 ==> t.roundConstants[i] % 2 == 0)
  }

  /** Tables of that shape: the remaining permutation entries keep their
      bit in place and the remaining round constants are 0. */
  function CounterTables(p: nat): Tables
  {
    Tables(
      seq(8, i requires 0 <= i < 8 => seq(65536, c requires 0 <= c < 65536 => if i == 0 then c % 2 else 0)),
      seq(128, i requires 0 <= i < 128 => if i == 0 then p else i),
      seq(16, i requires 0 <= i < 16 => if i == 0 then 1 else 0))
  }

  /** The 32-byte key of zeros. */
  function ZeroKey(): seq<byte>
  {
    seq(32, _ => 0 as byte)
  }

  lemma CounterTablesShape(p: nat)
    requires p < 128
    ensures CounterShape(CounterTables(p), p)
  {
  }

  /** PERMUTATION applied to 0 or 1 gives 0 or 2^p. */
  lemma CounterPermuted(t: Tables, p: nat, b: nat)
    requires CounterShape(t, p) && b < 2
    ensures Permuted(t, b) == if b == 1 then Pow2(p) else 0
  {
    var want := if b == 1 then Pow2(p) else 0;
    forall j: nat
      ensures Bit(Permuted(t, b), j) == Bit(want, j)
    {
      PermutedBit(t, b, j);
      BitOfPow2(p, j);
      BitOfZero(j);
      forall i | 0 <= i < 128 && Bit(b, i)
        ensures i == 0 && b == 1
      {
        if b == 1 {
          BitOfOne(i);
        } else {
          BitOfZero(i);
        }
      }
      if b == 1 && j == p {
        BitOfOne(0);
        assert t.permutation[0] == j && Bit(b, 0);
      }
    }
    BitsDetermine(Permuted(t, b), want);
  }

  lemma CounterSBoxLookup(t: Tables, p: nat, m: nat, i: nat)
    requires CounterShape(t, p) && i < 8
    ensures SBoxLookup(t, m, i) == if i == 0 && Bit(m, 0) then 1 else 0
  {
    var c := Field(m, 16 * i, 16);
    FieldBound(m, 16 * i, 16);
    FitsInConstants(c);
    if i == 0 {
      FieldBit(m, 0, 16, 0);
      assert Shr(c, 0) == c;
    }
  }

  /** The S-box layer keeps only bit 0 of its input. */
  lemma CounterSubstituted(t: Tables, p: nat, m: nat)
    requires CounterShape(t, p)
    ensures Substituted(t, m) == if Bit(m, 0) then 1 else 0
  {
    var b := if Bit(m, 0) then 1 else 0;
    forall k: nat
      ensures Bit(Substituted(t, m), k) == Bit(b, k)
    {
      SubstitutedUpToBit(t, m, 8, k);
      if k < 64 {
        CounterSBoxLookup(t, p, m, k / 8);
      }
      BitOfOne(k);
      BitOfZero(k);
      BitOfZero(k % 8);
    }
    BitsDetermine(Substituted(t, m), b);
  }

  /** The round function is 2^p when bit 0 or bit 64 of the right half
      differs from bit 0 of the subkey, and 0 otherwise. */
  lemma CounterRoundFunction(t: Tables, p: nat, right: nat, subkey: nat)
    requires CounterShape(t, p)
    ensures RoundFunction(t, right, subkey)
         == if (Bit(right, 0) || Bit(right, 64)) != Bit(subkey, 0) then Pow2(p) else 0
  {
    var e := Expanded(right);
    ExpandedBit(right, 0);
    XorBit(e, subkey, 0);
    CounterSubstituted(t, p, Xor(e, subkey));
    CounterPermuted(t, p, if Bit(Xor(e, subkey), 0) then 1 else 0);
  }

  lemma {:induction false} BigEndianZeros(bytes: seq<byte>)
    requires forall i :: 0 <= i < |bytes| ==> bytes[i] == 0
    ensures BigEndian(bytes) == 0
  {
    if bytes != [] {
      BigEndianZeros(bytes[..|bytes| - 1]);
    }
  }

  lemma ZeroKeyWord()
    ensures KeyWords(ZeroKey())[7] == 0
  {
    BigEndianZeros(ZeroKey()[28..32]);
  }

  lemma RotateZeroBit(i: nat)
    requires i <= 32
    ensures !Bit(RotateLeft(0, i), 0)
  {
    ShrOfZero(32);
    RotateLeftBit(0, i, 0);
    BitOfZero(0);
    BitOfZero(32 - i);
  }

  /** Under the zero key, bit 0 of subkey i is bit 0 of round constant i. */
  lemma CounterScheduleBit(t: Tables, p: nat, i: nat)
    requires CounterShape(t, p) && i < 16
    ensures Bit(Schedule(t, ZeroKey())[i], 0) == (i == 0)
  {
    var key := ZeroKey();
    ZeroKeyWord();
    RotateZeroBit(i);
    ScheduleWords(t, key, i, 7);
    FieldBit(Schedule(t, key)[i], 0, 32, 0);
    XorBit(RotateLeft(0, i), t.roundConstants[i], 0);
    assert Shr(t.roundConstants[i], 0) == t.roundConstants[i];
  }

  /** For any round function that sends (0, subkey 0) to g, and (0, k) and
      (g, k) to 0 for the later subkeys k, the halves alternate between
      (0, g) and (g, 0) from the zero halves. */
  lemma {:induction false} AlternatingForward(f: RoundFn, ks: seq<nat>, g: nat, n: nat)
    requires 1 <= n <= |ks|
    requires f(0, ks[0]) == g
    requires forall i :: 1 <= i < |ks| ==> f(0, ks[i]) == 0 && f(g, ks[i]) == 0
    ensures Forward(f, Halves(0, 0), ks, n) == if n % 2 == 1 then Halves(0, g) else Halves(g, 0)
  {
    XorZero(g);
    XorZero(0);
    if n > 1 {
      AlternatingForward(f, ks, g, n - 1);
    }
  }

  /** For the same round functions the decryption steps from the zero halves
      stay at zero until the last, which gives (g, 0). */
  lemma {:induction false} AlternatingBackward(f: RoundFn, ks: seq<nat>, g: nat, n: nat)
    requires 1 <= n <= |ks|
    requires f(0, ks[0]) == g
    requires forall i :: 1 <= i < |ks| ==> f(0, ks[i]) == 0
    ensures Backward(f, Halves(0, 0), ks, n) == Halves(g, 0)
    decreases n
  {
    XorZero(g);
    XorZero(0);
    if n > 1 {
      AlternatingBackward(f, ks, g, n - 1);
    }
  }

  lemma CounterFirstRound(t: Tables, p: nat)
    requires CounterShape(t, p)
    ensures Fn(t)(0, Schedule(t, ZeroKey())[0]) == Pow2(p)
  {
    BitOfZero(0);
    BitOfZero(64);
    CounterScheduleBit(t, p, 0);
    CounterRoundFunction(t, p, 0, Schedule(t, ZeroKey())[0]);
  }

  lemma CounterLaterRound(t: Tables, p: nat, i: nat)
    requires CounterShape(t, p) && 65 <= p && 1 <= i < 16
    ensures Fn(t)(0, Schedule(t, ZeroKey())[i]) == 0
    ensures Fn(t)(Pow2(p), Schedule(t, ZeroKey())[i]) == 0
  {
    var k := Schedule(t, ZeroKey())[i];
    BitOfZero(0);
    BitOfZero(64);
    BitOfPow2(p, 0);
    BitOfPow2(p, 64);
    CounterScheduleBit(t, p, i);
    CounterRoundFunction(t, p, 0, k);
    CounterRoundFunction(t, p, Pow2(p), k);
  }

  lemma SplitOfZero()
    ensures Split(0) == Halves(0, 0)
  {
    ShrOfZero(64);
    LowOfSmall(0, 64);
  }

  /** With 64 <= p the power 2^(p + 64) lies wholly above the 128 bits the
      halves are read from. */
  lemma SplitOfHighPower(p: nat)
    requires 64 <= p
    ensures Split(Pow2(p + 64)) == Halves(0, 0)
  {
    var x := Pow2(p + 64);
    forall m: nat
      ensures Bit(Field(x, 64, 64), m) == Bit(0, m)
      ensures Bit(Low(x, 64), m) == Bit(0, m)
    {
      FieldBit(x, 64, 64, m);
      LowBit(x, 64, m);
      BitOfPow2(p + 64, 64 + m);
      BitOfPow2(p + 64, m);
      BitOfZero(m);
    }
    BitsDetermine(Field(x, 64, 64), 0);
    BitsDetermine(Low(x, 64), 0);
  }

  lemma JoinOfPower(p: nat)
    ensures Join(Halves(Pow2(p), 0)) == Pow2(p + 64)
  {
    var x := Shl(Pow2(p), 64);
    OrZero(x);
    forall k: nat
      ensures Bit(x, k) == Bit(Pow2(p + 64), k)
    {
      ShlBit(Pow2(p), 64, k);
      if 64 <= k {
        BitOfPow2(p, k - 64);
      }
      BitOfPow2(p + 64, k);
    }
    BitsDetermine(x, Pow2(p + 64));
  }

  /** For any tables of that shape with p from 65 to 127 the all-zero block
      under the all-zero key encrypts to 2^(p + 64), and decrypting that
      gives 2^(p + 64) again instead of 0. */
  lemma RoundTripFailsFor(t: Tables, p: nat)
    requires CounterShape(t, p) && 65 <= p
    ensures !LowPermutation(t)
    ensures Encrypted(t, 0, ZeroKey()) == Pow2(p + 64)
    ensures Decrypted(t, Encrypted(t, 0, ZeroKey()), ZeroKey()) == Pow2(p + 64)
  {
    var f, ks := Fn(t), Schedule(t, ZeroKey());
    CounterFirstRound(t, p);
    forall i | 1 <= i < |ks|
      ensures f(0, ks[i]) == 0 && f(Pow2(p), ks[i]) == 0
    {
      CounterLaterRound(t, p, i);
    }
    SplitOfZero();
    AlternatingForward(f, ks, Pow2(p), 16);
    JoinOfPower(p);
    SplitOfHighPower(p);
    AlternatingBackward(f, ks, Pow2(p), 16);
  }

  /** As written: such tables exist for every p from 65 to 127, so the
      round trip the demo at the end of FEA.py performs (zero block, zero
      key) does not give back the block. */
  lemma RoundTripFails(p: nat)
    requires 65 <= p < 128
    ensures WellFormed(CounterTables(p)) && !LowPermutation(CounterTables(p))
    ensures Decrypted(CounterTables(p), Encrypted(CounterTables(p), 0, ZeroKey()), ZeroKey()) != 0
  {
    CounterTablesShape(p);
    RoundTripFailsFor(CounterTables(p), p);
  }

  // ---------------------------------------------------------------------
  // The evidently intended cipher: round output cut to 64 bits

  /** round_function with its value masked to the width of a half. */
  function MaskedRoundFunction(t: Tables, right: nat, subkey: nat): (r: nat)
    requires WellFormed(t)
    ensures FitsIn(r, 64)
    ensures LowPermutation(t) ==> r == RoundFunction(t, right, subkey)
  {
    LowBound(RoundFunction(t, right, subkey), 64);
    if LowPermutation(t) then
      LowOfSmall(RoundFunction(t, right, subkey), 64);
      Low(RoundFunction(t, right, subkey), 64)
    else
      Low(RoundFunction(t, right, subkey), 64)
  }

  function MaskedFn(t: Tables): RoundFn
    requires WellFormed(t)
  {
    (right: nat, subkey: nat) => MaskedRoundFunction(t, right, subkey)
  }

  function MaskedEncrypted(t: Tables, block: nat, key: seq<byte>): nat
    requires WellFormed(t) && |key| > 28
  {
    Join(Forward(MaskedFn(t), Split(block), Schedule(t, key), 16))
  }

  function MaskedDecrypted(t: Tables, block: nat, key: seq<byte>): nat
    requires WellFormed(t) && |key| > 28
  {
    Join(Backward(MaskedFn(t), Split(block), Schedule(t, key), 16))
  }

  /** With the masked round function decryption undoes encryption for every
      table of the generated shape, every key of more than 28 bytes and
      every 128-bit block. */
  lemma MaskedRoundTrip(t: Tables, block: nat, key: seq<byte>)
    requires WellFormed(t) && |key| > 28 && FitsIn(block, 128)
    ensures MaskedDecrypted(t, MaskedEncrypted(t, block, key), key) == block
  {
    var f, ks := MaskedFn(t), Schedule(t, key);
    var h := Split(block);
    SplitFits(block);
    forall right: nat, subkey: nat
      ensures FitsIn(f(right, subkey), 64)
    {
      assert f(right, subkey) == MaskedRoundFunction(t, right, subkey);
    }
    ForwardFits(f, h, ks, 16, 64);
    SplitJoin(Forward(f, h, ks, 16));
    BackwardUndoesForward(f, h, ks, 16);
    JoinSplit(block);
  }

  /** Where FEA.py does round-trip (the permutation keeps positions 0..63
      below 64), the masked cipher computes exactly what it computes. */
  lemma {:induction false} MaskedForwardAgrees(t: Tables, h: Halves, ks: seq<nat>, n: nat)
    requires WellFormed(t) && LowPermutation(t) && n <= |ks|
    ensures Forward(MaskedFn(t), h, ks, n) == Forward(Fn(t), h, ks, n)
  {
    if n > 0 {
      MaskedForwardAgrees(t, h, ks, n - 1);
      var q := Forward(Fn(t), h, ks, n - 1);
      assert MaskedFn(t)(q.right, ks[n - 1]) == Fn(t)(q.right, ks[n - 1]);
    }
  }

  lemma MaskedEncryptedAgrees(t: Tables, block: nat, key: seq<byte>)
    requires WellFormed(t) && LowPermutation(t) && |key| > 28
    ensures MaskedEncrypted(t, block, key) == Encrypted(t, block, key)
  {
    MaskedForwardAgrees(t, Split(block), Schedule(t, key), 16);
  }
}
