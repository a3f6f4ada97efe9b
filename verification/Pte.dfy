/** Sv39 page-table entries (src/memory/pagetable/pte.rs). */
module Pte {
  type Frame = nat

  /** The ten low bits of an entry, in bit order. */
  datatype Flags = Flags(v: bool, r: bool, w: bool, x: bool, u: bool,
                         g: bool, a: bool, d: bool, shared: bool, rsw2: bool)

  datatype Entry = Entry(frame: Frame, flags: Flags)
  {
    predicate Valid() { flags.v }
    predicate Pointing() { flags.r || flags.w || flags.x || flags.u }
    predicate IsDirectory() { Valid() && !Pointing() }
    predicate IsLeaf() { Valid() && Pointing() }
    function ClearWritable(): Entry { this.(flags := flags.(w := false)) }
    function SetShared(): Entry { this.(flags := flags.(shared := true)) }
  }

  const NO_FLAGS := Flags(false, false, false, false, false, false, false, false, false, false)
  const EMPTY := Entry(0, NO_FLAGS)

  // ---- The 64-bit word the hardware reads ----

  const PTE_PPN_MASK_SV39: bv64 := 0x003f_ffff_ffff_fc00

  function FlagBits(f: Flags): bv64 {
    (if f.v then 1 else 0) | (if f.r then 2 else 0) | (if f.w then 4 else 0) | (if f.x then 8 else 0) |
    (if f.u then 16 else 0) | (if f.g then 32 else 0) | (if f.a then 64 else 0) | (if f.d then 128 else 0) |
    (if f.shared then 256 else 0) | (if f.rsw2 then 512 else 0)
  }

  function BitsOf(paddr: bv64, f: Flags): bv64 { ((paddr >> 2) & PTE_PPN_MASK_SV39) | FlagBits(f) }

  function PpnOf(bits: bv64): bv64 { (bits & PTE_PPN_MASK_SV39) >> 10 }

  function FlagsOf(bits: bv64): Flags {
    Flags(bits & 1 != 0, bits & 2 != 0, bits & 4 != 0, bits & 8 != 0, bits & 16 != 0,
          bits & 32 != 0, bits & 64 != 0, bits & 128 != 0, bits & 256 != 0, bits & 512 != 0)
  }

  /** What the word stands for: an entry of the model. */
  function Decode(bits: bv64): Entry { Entry(PpnOf(bits) as nat, FlagsOf(bits)) }

  // Facts about single words, one flag at a time.

  lemma FlagWord(v: bool, r: bool, w: bool, x: bool, u: bool, g: bool, a: bool, d: bool, s: bool, t: bool)
    ensures
      var word: bv64 :=
        (if v then 1 else 0) | (if r then 2 else 0) | (if w then 4 else 0) | (if x then 8 else 0) |
        (if u then 16 else 0) | (if g then 32 else 0) | (if a then 64 else 0) | (if d then 128 else 0) |
        (if s then 256 else 0) | (if t then 512 else 0);
      && ((word & 1 != 0) == v) && ((word & 2 != 0) == r) && ((word & 4 != 0) == w) && ((word & 8 != 0) == x)
      && ((word & 16 != 0) == u) && ((word & 32 != 0) == g) && ((word & 64 != 0) == a) && ((word & 128 != 0) == d)
      && ((word & 256 != 0) == s) && ((word & 512 != 0) == t) && word & 0x003f_ffff_ffff_fc00 == 0
  {
  }

  lemma JoinedWord(paddr: bv64, low: bv64)
    requires paddr & 0xfff == 0 && paddr >> 56 == 0 && low & 0x003f_ffff_ffff_fc00 == 0
    ensures
      var word := ((paddr >> 2) & 0x003f_ffff_ffff_fc00) | low;
      && (word & 0x003f_ffff_ffff_fc00) >> 10 == paddr >> 12
      && word & 1 == low & 1 && word & 2 == low & 2 && word & 4 == low & 4 && word & 8 == low & 8
      && word & 16 == low & 16
      && word & 32 == low & 32 && word & 64 == low & 64 && word & 128 == low & 128 && word & 256 == low & 256
      && word & 512 == low & 512
  {
  }

  lemma ClearedWord(bits: bv64)
    ensures
      var word := bits & !4;
      && word & 0x003f_ffff_ffff_fc00 == bits & 0x003f_ffff_ffff_fc00 && word & 4 == 0
      && word & 1 == bits & 1 && word & 2 == bits & 2 && word & 8 == bits & 8 && word & 16 == bits & 16
      && word & 32 == bits & 32 && word & 64 == bits & 64 && word & 128 == bits & 128 && word & 256 == bits & 256
      && word & 512 == bits & 512
  {
  }

  lemma SharedWord(bits: bv64)
    ensures
      var word := bits | 256;
      && word & 0x003f_ffff_ffff_fc00 == bits & 0x003f_ffff_ffff_fc00 && word & 256 != 0
      && word & 1 == bits & 1 && word & 2 == bits & 2 && word & 4 == bits & 4 && word & 8 == bits & 8
      && word & 16 == bits & 16 && word & 32 == bits & 32 && word & 64 == bits & 64 && word & 128 == bits & 128
      && word & 512 == bits & 512
  {
  }

  lemma FlagBitsDecode(f: Flags)
    ensures FlagsOf(FlagBits(f)) == f && FlagBits(f) & PTE_PPN_MASK_SV39 == 0
  {
    FlagWord(f.v, f.r, f.w, f.x, f.u, f.g, f.a, f.d, f.shared, f.rsw2);
  }

  lemma JoinedDecode(paddr: bv64, low: bv64)
    requires paddr & 0xfff == 0 && paddr >> 56 == 0 && low & PTE_PPN_MASK_SV39 == 0
    ensures Decode(((paddr >> 2) & PTE_PPN_MASK_SV39) | low) == Entry((paddr >> 12) as nat, FlagsOf(low))
  {
    JoinedWord(paddr, low);
  }

  /** A 56-bit page-aligned physical address and ten flags survive encoding. */
  lemma EncodeDecode(paddr: bv64, f: Flags)
    requires paddr & 0xfff == 0 && paddr >> 56 == 0
    ensures Decode(BitsOf(paddr, f)) == Entry((paddr >> 12) as nat, f)
  {
    FlagBitsDecode(f);
    var low := FlagBits(f);
    JoinedDecode(paddr, low);
  }

  /** `clear_writable` and `set_shared` act on one flag of the decoded entry and keep its frame. */
  lemma BitUpdates(bits: bv64)
    ensures Decode(bits & !4) == Decode(bits).ClearWritable()
    ensures Decode(bits | 256) == Decode(bits).SetShared()
  {
    ClearedWord(bits);
    SharedWord(bits);
  }

  /** Where the flags and the page number lie in the word: bits 0 to 9 and 10 to 53 of an Sv39 entry. */
  lemma WordLayout(paddr: bv64, f: Flags)
    requires paddr & 0xfff == 0 && paddr >> 56 == 0
    ensures
      var word := BitsOf(paddr, f);
      && (f.v <==> word & 0x1 != 0) && (f.r <==> word & 0x2 != 0) && (f.w <==> word & 0x4 != 0)
      && (f.x <==> word & 0x8 != 0) && (f.u <==> word & 0x10 != 0) && (f.g <==> word & 0x20 != 0)
      && (f.a <==> word & 0x40 != 0) && (f.d <==> word & 0x80 != 0)
      && (f.shared <==> word & 0x100 != 0) && (f.rsw2 <==> word & 0x200 != 0)
      && word >> 10 == paddr >> 12
  {
    hide FlagBits;
    EncodeDecode(paddr, f);
    FlagBitsLow(f);
    JoinedTop(paddr, FlagBits(f));
  }

  lemma FlagBitsLow(f: Flags)
    ensures FlagBits(f) & 0xffff_ffff_ffff_fc00 == 0
  {
    LowWord(f.v, f.r, f.w, f.x, f.u, f.g, f.a, f.d, f.shared, f.rsw2);
  }

  lemma LowWord(v: bool, r: bool, w: bool, x: bool, u: bool, g: bool, a: bool, d: bool, s: bool, t: bool)
    ensures
      var word: bv64 :=
        (if v then 1 else 0) | (if r then 2 else 0) | (if w then 4 else 0) | (if x then 8 else 0) |
        (if u then 16 else 0) | (if g then 32 else 0) | (if a then 64 else 0) | (if d then 128 else 0) |
        (if s then 256 else 0) | (if t then 512 else 0);
      word & 0xffff_ffff_ffff_fc00 == 0
  {
  }

  lemma JoinedTop(paddr: bv64, low: bv64)
    requires paddr & 0xfff == 0 && paddr >> 56 == 0 && low & 0xffff_ffff_ffff_fc00 == 0
    ensures (((paddr >> 2) & 0x003f_ffff_ffff_fc00) | low) >> 10 == paddr >> 12
  {
  }
}
