/** The two windows of kernel memory (include/memlayout.h, with the addresses that
    source/mach/vexpress_a9/kernel.ld defines).
 */
module MemLayout {
  import opened Bits
  import opened Descriptors

  const KP_START: Word := 0x6000_0000
  const KV_START: Word := 0x8000_0000
  const WINDOW := 0x2000_0000

  /** `phy_to_kvm` */
  function PhyToKvm(address: Word): Word {
    OrWord(AndWord(address, Not(KP_START)), KV_START)
  }

  /** `kvm_to_phy` */
  function KvmToPhy(address: Word): Word {
    OrWord(AndWord(address, Not(KV_START)), KP_START)
  }

  lemma WindowPower()
    ensures Pow2(29) == WINDOW
  {
    assert Pow2(31) == 4 * Pow2(29);
    PowersOfTwo();
  }

  /** Whatever the address, `phy_to_kvm` keeps the offset into its 512 MiB block and moves it to
      the virtual window. */
  lemma PhyToKvmMeaning(a: Word)
    ensures PhyToKvm(a) == KV_START + a % WINDOW
  {
    WindowPower();
    PowersOfTwo();
    var l := a % WINDOW;
    KeepLowAndTop(a);
    if a >= 0x8000_0000 {
      TopBitSet(l);
    } else {
      OrIsAdd(KV_START, l, 29);
      OrSymmetric(KV_START, l);
    }
  }

  lemma KeepLowAndTop(a: Word)
    ensures AndWord(a, Not(KP_START)) == (if a >= 0x8000_0000 then 0x8000_0000 else 0) + a % WINDOW
  {
    TopOnly(a);
    LowOnly(a);
    WindowPower();
    OrIsAdd(0x8000_0000, WINDOW - 1, 29);
    AndOverOr(0x8000_0000, WINDOW - 1, a);
    AndSymmetric(a, 0x9FFF_FFFF);
    OrIsAdd(if a >= 0x8000_0000 then 0x8000_0000 else 0, a % WINDOW, 29);
  }

  lemma TopOnly(a: Word)
    ensures And(0x8000_0000, a) == if a >= 0x8000_0000 then 0x8000_0000 else 0
  {
    PowersOfTwo();
    AndHighMask(a, 31, 32);
    AndSymmetric(a, 0x8000_0000);
  }

  lemma LowOnly(a: Word)
    ensures And(0x1FFF_FFFF, a) == a % WINDOW
  {
    WindowPower();
    AndLowMask(a, 29);
    AndSymmetric(a, 0x1FFF_FFFF);
  }

  lemma TopBitSet(l: nat)
    requires l < WINDOW
    ensures Or(0x8000_0000 + l, 0x8000_0000) == 0x8000_0000 + l
  {
    PowersOfTwo();
    TopBit(0x8000_0000 + l, 31);
    OrSetBit(0x8000_0000 + l, 31);
  }

  /** `kvm_to_phy` likewise moves the offset to the physical window. */
  lemma KvmToPhyMeaning(a: Word)
    ensures KvmToPhy(a) == KP_START + a % WINDOW
  {
    DropTopBit(a);
    SetBothBits(a % 0x8000_0000);
    WindowOfHalf(a);
  }

  lemma DropTopBit(a: Word)
    ensures AndWord(a, Not(KV_START)) == a % 0x8000_0000
  {
    PowersOfTwo();
    AndLowMask(a, 31);
  }

  lemma WindowOfHalf(a: Word)
    ensures a % 0x8000_0000 % WINDOW == a % WINDOW
  {
  }

  lemma SetBothBits(x: nat)
    requires x < 0x8000_0000
    ensures Or(x, KP_START) == KP_START + x % WINDOW
  {
    LowPart(x);
    TopPart(x);
  }

  lemma LowPart(x: nat)
    ensures Or(x, KP_START) % WINDOW == x % WINDOW
  {
    WindowPower();
    OrMod(x, KP_START, 29);
    OrZero(x % WINDOW);
  }

  lemma TopPart(x: nat)
    requires x < 0x8000_0000
    ensures Or(x, KP_START) / WINDOW == 3
  {
    OrShr(x, KP_START, 29);
    ShrWindow(x);
    ShrWindow(KP_START);
    ShrWindow(Or(x, KP_START));
    OrThree(x / WINDOW);
  }

  lemma ShrWindow(x: nat)
    ensures Shr(x, 29) == x / WINDOW
  {
    WindowPower();
    ShrIsDiv(x, 29);
  }

  lemma OrThree(h: nat)
    requires h < 4
    ensures Or(h, 3) == 3
  {
    assert h == 0 || h == 1 || h == 2 || h == 3;
  }

  /** The two conversions undo each other on exactly the two windows. */
  lemma WindowsAreInverse(a: Word)
    ensures KvmToPhy(PhyToKvm(a)) == a <==> KP_START <= a < KP_START + WINDOW
    ensures PhyToKvm(KvmToPhy(a)) == a <==> KV_START <= a < KV_START + WINDOW
  {
    PhyToKvmMeaning(a);
    KvmToPhyMeaning(a);
    PhyToKvmMeaning(KvmToPhy(a));
    KvmToPhyMeaning(PhyToKvm(a));
  }
}
