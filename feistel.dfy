/** The Feistel network over a pair of halves, for any round function.
    Encryption runs the rounds forward; decryption runs them backward with
    the halves swapped in each call, as `decrypt_block` does. */
module FeistelNetwork {
  import opened Bits

  datatype Halves = Halves(left: nat, right: nat)

  /** A round function: (right half, subkey) to the value XORed into the
      left half. */
  type RoundFn = (nat, nat) -> nat

  /** One Feistel round: the right half moves left, and the old left half is
      XORed with the round function of the right half. */
  function Round(f: RoundFn, left: nat, right: nat, subkey: nat): Halves
  {
    Halves(right, Xor(left, f(right, subkey)))
  }

  /** One decryption step: the round called with the halves swapped, its
      result assigned back swapped (`right, left = round(right, left, k)`). */
  function Unround(f: RoundFn, h: Halves, subkey: nat): Halves
  {
    var s := Round(f, h.right, h.left, subkey);
    Halves(s.right, s.left)
  }

  /** The halves after rounds 0 .. n-1, in increasing order. */
  function Forward(f: RoundFn, h: Halves, subkeys: seq<nat>, n: nat): Halves
    requires n <= |subkeys|
  {
    if n == 0 then h
    else
      var p := Forward(f, h, subkeys, n - 1);
      Round(f, p.left, p.right, subkeys[n - 1])
  }

  /** The halves after decryption steps n-1 down to 0. */
  function Backward(f: RoundFn, h: Halves, subkeys: seq<nat>, n: nat): Halves
    requires n <= |subkeys|
    decreases n
  {
    if n == 0 then h
    else Backward(f, Unround(f, h, subkeys[n - 1]), subkeys, n - 1)
  }

  /** Calling the round again on its own result, halves swapped, gives back
      the original halves swapped; no property of f is needed. */
  lemma RoundSwapUndoes(f: RoundFn, left: nat, right: nat, subkey: nat)
    ensures var h := Round(f, left, right, subkey);
            Round(f, h.right, h.left, subkey) == Halves(right, left)
  {
    XorSelfInverse(left, f(right, subkey));
  }

  /** So a decryption step undoes the encryption round with the same subkey. */
  lemma UnroundUndoes(f: RoundFn, h: Halves, subkey: nat)
    ensures Unround(f, Round(f, h.left, h.right, subkey), subkey) == h
  {
    RoundSwapUndoes(f, h.left, h.right, subkey);
  }

  /** Running the decryption steps over the same subkeys undoes the forward
      rounds, whatever the round function. */
  lemma {:induction false} BackwardUndoesForward(f: RoundFn, h: Halves, subkeys: seq<nat>, n: nat)
    requires n <= |subkeys|
    ensures Backward(f, Forward(f, h, subkeys, n), subkeys, n) == h
  {
    if n > 0 {
      var p := Forward(f, h, subkeys, n - 1);
      UnroundUndoes(f, p, subkeys[n - 1]);
      BackwardUndoesForward(f, h, subkeys, n - 1);
    }
  }

  predicate Fits(h: Halves, w: nat)
  {
    FitsIn(h.left, w) && FitsIn(h.right, w)
  }

  lemma FitsMonotone(h: Halves, a: nat, b: nat)
    requires Fits(h, a) && a <= b
    ensures Fits(h, b)
  {
    FitsInMonotone(h.left, a, b);
    FitsInMonotone(h.right, a, b);
  }

  ghost predicate Bounded(f: RoundFn, w: nat)
  {
    forall right: nat, subkey: nat :: FitsIn(f(right, subkey), w)
  }

  /** If the round function's values fit in w bits, the halves stay within
      w bits through any number of forward rounds. */
  lemma {:induction false} ForwardFits(f: RoundFn, h: Halves, subkeys: seq<nat>, n: nat, w: nat)
    requires n <= |subkeys| && Fits(h, w) && Bounded(f, w)
    ensures Fits(Forward(f, h, subkeys, n), w)
  {
    if n > 0 {
      ForwardFits(f, h, subkeys, n - 1, w);
      var p := Forward(f, h, subkeys, n - 1);
      XorBound(p.left, f(p.right, subkeys[n - 1]), w);
    }
  }

  /** The same for the decryption steps. */
  lemma {:induction false} BackwardFits(f: RoundFn, h: Halves, subkeys: seq<nat>, n: nat, w: nat)
    requires n <= |subkeys| && Fits(h, w) && Bounded(f, w)
    ensures Fits(Backward(f, h, subkeys, n), w)
    decreases n
  {
    if n > 0 {
      XorBound(h.right, f(h.left, subkeys[n - 1]), w);
      BackwardFits(f, Unround(f, h, subkeys[n - 1]), subkeys, n - 1, w);
    }
  }
}
