/** 32-bit unsigned words by their binary digits, with the bit operations the simulator uses on page table
    entries and on the words of the swap bitmap. */
module Words {
  const WORD_BITS: nat := 32
  const WORDS: nat := 0x1_0000_0000

  /** (w >> k) & 1, or w & (1 << k) as a truth value. */
  predicate Bit(w: nat, k: nat) {
    if k == 0 then w % 2 == 1 else Bit(w / 2, k - 1)
  }

  /** w | (1 << k) */
  function Set(w: nat, k: nat): nat {
    if k == 0 then w / 2 * 2 + 1 else Set(w / 2, k - 1) * 2 + w % 2
  }

  /** w & ~(1 << k) */
  function Clear(w: nat, k: nat): nat {
    if k == 0 then w / 2 * 2 else Clear(w / 2, k - 1) * 2 + w % 2
  }

  /** w ^ (1 << k) */
  function Flip(w: nat, k: nat): nat {
    if Bit(w, k) then Clear(w, k) else Set(w, k)
  }

  /** w >> n */
  function Right(w: nat, n: nat): nat {
    if n == 0 then w else Right(w / 2, n - 1)
  }

  /** w << n, of a word whose top `n` bits are clear */
  function Left(w: nat, n: nat): nat {
    if n == 0 then w else Left(w, n - 1) * 2
  }

  /** The word with its low `n` bits set. */
  function Ones(n: nat): nat {
    if n == 0 then 0 else Ones(n - 1) * 2 + 1
  }

  lemma {:induction false} SetBit(w: nat, k: nat, j: nat)
    ensures Bit(Set(w, k), j) <==> j == k || Bit(w, j)
  {
    if k > 0 && j > 0 { SetBit(w / 2, k - 1, j - 1); }
  }

  lemma {:induction false} ClearBit(w: nat, k: nat, j: nat)
    ensures Bit(Clear(w, k), j) <==> j != k && Bit(w, j)
  {
    if k > 0 && j > 0 { ClearBit(w / 2, k - 1, j - 1); }
  }

  lemma {:induction false} HighBits(w: nat, k: nat, n: nat)
    requires k < n
    ensures Right(Set(w, k), n) == Right(w, n) && Right(Clear(w, k), n) == Right(w, n)
  {
    if k > 0 { HighBits(w / 2, k - 1, n - 1); }
  }

  lemma {:induction false} LeftBits(w: nat, n: nat, k: nat)
    requires k < n
    ensures !Bit(Left(w, n), k)
  {
    if k > 0 { LeftBits(w, n - 1, k - 1); }
  }

  lemma {:induction false} RightOfLeft(w: nat, n: nat)
    ensures Right(Left(w, n), n) == w
  {
    if n > 0 { RightOfLeft(w, n - 1); }
  }

  /** 2^n, the bound of words of `n` bits */
  function Power(n: nat): nat {
    if n == 0 then 1 else Power(n - 1) * 2
  }

  lemma {:induction false} SetBound(w: nat, k: nat, n: nat)
    requires w < Power(n) && k < n
    ensures Set(w, k) < Power(n)
  {
    if k > 0 { SetBound(w / 2, k - 1, n - 1); }
  }

  lemma {:induction false} ClearBound(w: nat, k: nat)
    ensures Clear(w, k) <= w
  {
    if k > 0 { ClearBound(w / 2, k - 1); }
  }

  lemma {:induction false} LeftBound(w: nat, k: nat, n: nat)
    requires w < Power(k)
    ensures Left(w, n) < Power(k + n)
  {
    if n > 0 { LeftBound(w, k, n - 1); }
  }

  lemma {:induction false} BitOfOnes(n: nat, k: nat)
    requires k < n
    ensures Bit(Ones(n), k)
  {
    if k > 0 {
      assert Ones(n) / 2 == Ones(n - 1);
      BitOfOnes(n - 1, k - 1);
    }
  }

  /** A word of `n` bits with every bit set is all ones. */
  lemma {:induction false} AllOnes(w: nat, n: nat)
    requires w < Power(n) && forall k :: 0 <= k < n ==> Bit(w, k)
    ensures w == Ones(n)
  {
    if n > 0 {
      assert Bit(w, 0);
      forall k | 0 <= k < n - 1
        ensures Bit(w / 2, k)
      {
        assert Bit(w, k + 1);
      }
      AllOnes(w / 2, n - 1);
    }
  }

  lemma Constants()
    ensures Power(32) == WORDS && Ones(32) == WORDS - 1 && Power(20) == 0x10_0000 && Power(12) == 4096
  {
    assert Power(8) == 256 && Ones(8) == 255;
    assert Power(16) == 65536 && Ones(16) == 65535;
    assert Power(24) == 0x100_0000 && Ones(24) == 0xff_ffff;
  }

  lemma {:induction false} BitOfZero(k: nat)
    ensures !Bit(0, k)
  {
    if k > 0 { BitOfZero(k - 1); }
  }

  /** The effect on a 32-bit word of setting bit `k`. */
  lemma SetWord(w: nat, k: nat)
    requires w < WORDS && k < WORD_BITS
    ensures Set(w, k) < WORDS
    ensures forall j: nat :: Bit(Set(w, k), j) <==> j == k || Bit(w, j)
  {
    Constants();
    SetBound(w, k, WORD_BITS);
    forall j: nat
      ensures Bit(Set(w, k), j) <==> j == k || Bit(w, j)
    {
      SetBit(w, k, j);
    }
  }

  /** The effect on a 32-bit word of clearing bit `k`. */
  lemma ClearWord(w: nat, k: nat)
    requires w < WORDS
    ensures Clear(w, k) < WORDS
    ensures forall j: nat :: Bit(Clear(w, k), j) <==> j != k && Bit(w, j)
  {
    ClearBound(w, k);
    forall j: nat
      ensures Bit(Clear(w, k), j) <==> j != k && Bit(w, j)
    {
      ClearBit(w, k, j);
    }
  }

  ghost predicate AllBitsSet(w: nat) {
    forall k: nat :: k < WORD_BITS ==> Bit(w, k)
  }

  /** A 32-bit word is 0xffffffff exactly when all its bits are set. */
  lemma AllSet(w: nat)
    requires w < WORDS
    ensures w == WORDS - 1 <==> AllBitsSet(w)
  {
    Constants();
    if w == WORDS - 1 {
      forall k: nat | k < WORD_BITS
        ensures Bit(w, k)
      {
        BitOfOnes(WORD_BITS, k);
      }
    } else if AllBitsSet(w) {
      AllOnes(w, WORD_BITS);
    }
  }
}
