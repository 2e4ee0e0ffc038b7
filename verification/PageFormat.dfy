/** The bytes of a page, field by field: numbers stand least significant byte first at fixed places of 4096 bytes. */
module PageFormat {
  import opened PageBytes
  import opened LeafLayout
  import opened LeafPage
  import opened InnerPage

  function Word2(p: Page, at: nat): nat
    requires at + 2 <= 4096
  {
    p[at] as int + 0x100 * (p[at + 1] as int)
  }

  function Word4(p: Page, at: nat): nat
    requires at + 4 <= 4096
  {
    Word2(p, at) + 0x1_0000 * Word2(p, at + 2)
  }

  function Word8(p: Page, at: nat): nat
    requires at + 8 <= 4096
  {
    Word4(p, at) + 0x1_0000_0000 * Word4(p, at + 4)
  }

  /** One more byte in front of a field. */
  lemma NumberNext(p: Page, at: nat, n: nat)
    requires at + n + 1 <= 4096
    ensures GetNumber(p, at, n + 1) == p[at] as int + 0x100 * GetNumber(p, at + 1, n)
    ensures GetNumber(p, at, 0) == 0
  {
    assert Get(p, at, n + 1)[1..] == Get(p, at + 1, n);
  }

  lemma Words(p: Page, at: nat)
    ensures at + 2 <= 4096 ==> GetNumber(p, at, 2) == Word2(p, at)
    ensures at + 4 <= 4096 ==> GetNumber(p, at, 4) == Word4(p, at)
    ensures at + 8 <= 4096 ==> GetNumber(p, at, 8) == Word8(p, at)
  {
    hide GetNumber;
    if at + 2 <= 4096 { TwoBytes(p, at, 0); }
    if at + 4 <= 4096 {
      TwoBytes(p, at, 2);
      TwoBytes(p, at + 2, 0);
    }
    if at + 8 <= 4096 {
      TwoBytes(p, at, 6);
      TwoBytes(p, at + 2, 4);
      TwoBytes(p, at + 4, 2);
      TwoBytes(p, at + 6, 0);
    }
  }

  lemma TwoBytes(p: Page, at: nat, n: nat)
    requires at + n + 2 <= 4096
    ensures GetNumber(p, at, n + 2) == Word2(p, at) + 0x1_0000 * GetNumber(p, at + 2, n)
    ensures GetNumber(p, at + 2, 0) == 0
  {
    NumberNext(p, at, n + 1);
    NumberNext(p, at + 1, n);
    hide GetNumber;
  }

  lemma HeaderFormat(p: Page)
    ensures FreeHead(p) == NextFree(p) == Word8(p, 0) && PageCount(p) == Word8(p, 8) && RootPage(p) == Word8(p, 16)
  {
    hide GetNumber, Word8;
    Words(p, 0);
    Words(p, 8);
    Words(p, 16);
  }

  lemma LeafFormat(p: Page, i: nat)
    requires i < 64
    ensures ParentOf(p) == Word8(p, 0) && IsLeaf(p) == Word4(p, 8) && KeyCount(p) == Word4(p, 12)
    ensures FreeSpace(p) == Word8(p, 112) && Sibling(p) == Word8(p, 120)
    ensures SlotAt(i + 1) <= PAGE_SIZE
    ensures var at := 128 + 12 * i;
      GetSlot(p, i) == Slot(Signed(Word8(p, at)), Word2(p, at + 8), Word2(p, at + 10))
  {
    hide GetNumber, Word8, Word4, Word2, Signed;
    Words(p, 0);
    Words(p, 8);
    Words(p, 12);
    Words(p, 112);
    Words(p, 120);
    Words(p, 128 + 12 * i);
    Words(p, 136 + 12 * i);
    Words(p, 138 + 12 * i);
  }

  lemma InnerFormat(p: Page, i: nat)
    requires i < 248
    ensures ParentOf(p) == Word8(p, 0) && IsLeaf(p) == Word4(p, 8) && KeyCount(p) == Word4(p, 12)
    ensures ChildAt(p, i) == Word8(p, 120 + 16 * i) && KeyAt(p, i) == Signed(Word8(p, 128 + 16 * i))
    ensures ChildAt(p, i + 1) == Word8(p, 136 + 16 * i)
  {
    hide GetNumber, Word8, Word4, Signed;
    Words(p, 0);
    Words(p, 8);
    Words(p, 12);
    Words(p, 120 + 16 * i);
    Words(p, 128 + 16 * i);
    Words(p, 136 + 16 * i);
  }
}
