/** Page table entries and addresses in digits: the frame word from its bits, and an address from its two indices. */
module EntryWords {
  import opened Machine
  import opened Words
  import opened PageTables
  import opened BlockLayout

  lemma {:induction false} RightIsQuotient(w: nat, n: nat)
    ensures Power(n) > 0 && Right(w, n) == w / Power(n)
  {
    if n > 0 {
      RightIsQuotient(w / 2, n - 1);
      QuotientTwice(w, Power(n - 1));
    }
  }

  lemma {:induction false} BitIsDigit(w: nat, k: nat)
    ensures Power(k) > 0 && Bit(w, k) == (w / Power(k) % 2 == 1)
  {
    if k > 0 {
      BitIsDigit(w / 2, k - 1);
      QuotientTwice(w, Power(k - 1));
    }
  }

  lemma QuotientTwice(w: nat, m: nat)
    requires m > 0
    ensures w / 2 / m == w / (m * 2)
  {
    var q, r := w / 2 / m, w / 2 % m;
    assert w / 2 == q * m + r;
    assert w == q * (m * 2) + (r * 2 + w % 2);
    Digits(q, m * 2, r * 2 + w % 2);
  }

  /** What an entry's word says: from bit 12 on the frame number; 1, 2, 4 and 8 are the flags for a page in memory, a
      page that was written to, a page that was used, and a page on swap. */
  lemma DecodeDigits(e: PteWord)
    ensures Decode(e) == Pte(e.frame / 4096, e.frame % 2 == 1, e.frame / 2 % 2 == 1, e.frame / 4 % 2 == 1,
                             e.frame / 8 % 2 == 1, e.swapOff)
  {
    RightIsQuotient(e.frame, 12);
    BitIsDigit(e.frame, 0);
    BitIsDigit(e.frame, 1);
    BitIsDigit(e.frame, 2);
    BitIsDigit(e.frame, 3);
  }

  /** An address of 36 bits is 12 bits of directory index, 12 bits of table index and 12 bits of place in the page, and
      the two indices are the page number. */
  lemma AddressDigits(vaddr: nat)
    requires vaddr < 0x10_0000_0000
    ensures var dir, pti := PgdirIndex(vaddr), PgtblIndex(vaddr);
            && dir < 4096 && pti < 4096 && PageOf(vaddr) == dir * 4096 + pti
            && vaddr == dir * 0x100_0000 + pti * 4096 + vaddr % 4096
  {
    IndicesArePage(vaddr);
  }
}
