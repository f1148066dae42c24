/** The packed 64-bit register word of the SSA IR (internal/atm/ssa/ir.go, type `Reg`).
    Bit 63 is the pointer flag, bits 59..62 the kind and bits 0..58 the index.
    Everything here is bit-vector arithmetic on `bv64`, exactly as the Go code
    computes it on `uint64`; the Go `int` and `uint64` arguments of `mkreg`,
    `rename` and `normalize` are taken as their 64-bit two's-complement patterns. */
module Registers {
  import opened Basics

  type Reg = bv64

  const B_PTR: bv64 := 63
  const B_KIND: bv64 := 59

  const M_PTR: bv64 := 1
  const M_KIND: bv64 := 0x0f

  const R_PTR: bv64 := M_PTR << B_PTR
  const R_KIND: bv64 := M_KIND << B_KIND
  const R_INDEX: bv64 := (1 << B_KIND) - 1

  /** Kinds 0..K_MAX are the generic register classes; 8..11 are unused. */
  const K_MAX: bv64 := 7
  const K_ARCH: bv64 := 12
  const K_ZERO: bv64 := 13
  const K_TEMP: bv64 := 14
  const K_NORM: bv64 := 15

  /** The zero constant and the nil pointer. */
  const Rz: Reg := (0 << B_PTR) | (K_ZERO << B_KIND)
  const Pn: Reg := (1 << B_PTR) | (K_ZERO << B_KIND)

  /** The first generic and pointer temporaries. */
  const Tr: Reg := (0 << B_PTR) | (K_TEMP << B_KIND)
  const Pr: Reg := (1 << B_PTR) | (K_TEMP << B_KIND)

  /** `Reg.Ptr`: the pointer flag, the top bit of the word. */
  function Ptr(r: Reg): (p: bool)
    ensures p <==> r >> B_PTR == 1
  {
    r & R_PTR != 0
  }

  /** The pointer flag as the bit that `mkreg` stores. */
  function PtrBit(r: Reg): (b: bv64)
    ensures b <= 1
    ensures b == 1 <==> Ptr(r)
  {
    r >> B_PTR
  }

  /** `Reg.Index`: the slot number, the low 59 bits. */
  function Index(r: Reg): (i: bv64)
    ensures i <= R_INDEX
  {
    r & R_INDEX
  }

  /** `Reg.kind`: the 4-bit kind field (Go returns it as a `uint8`). */
  function Kind(r: Reg): (k: bv64)
    ensures k <= 0x0f
  {
    (r & R_KIND) >> B_KIND
  }

  /** The register whose three fields are `p`, `k` and `i`: the encoding that the
      three accessors decode. */
  function Pack(p: bv64, k: bv64, i: bv64): Reg
    requires p <= 1 && k <= 0x0f && i <= R_INDEX
  {
    (p << B_PTR) | (k << B_KIND) | i
  }

  /** `mkreg`: a register of a generic kind with index 0; every kind above K_MAX
      panics, the reserved kinds 12..15 included. */
  function MkReg(ptr: bv64, kind: bv64): (r: Result<Reg>)
    ensures r.Ok? <==> kind <= K_MAX
    ensures r.Panic? ==> r.reason == InvalidRegisterKind(kind)
    ensures r.Ok? ==> PtrBit(r.value) == ptr & M_PTR && Kind(r.value) == kind && Index(r.value) == 0
  {
    if kind > K_MAX then
      Panic(InvalidRegisterKind(kind))
    else
      Ok(((ptr & M_PTR) << B_PTR) | ((kind & M_KIND) << B_KIND))
  }

  /** `Reg.zero`: the zero register of the same pointer-ness. */
  function Zero(r: Reg): (z: Reg)
    ensures Ptr(z) == Ptr(r) && Kind(z) == K_ZERO && Index(z) == 0
  {
    if Ptr(r) then Pn else Rz
  }

  /** `Reg.rename`: keeps the pointer flag and the kind, replaces the index by the
      low 59 bits of `i`. */
  function Rename(r: Reg, i: bv64): (s: Reg)
    ensures Ptr(s) == Ptr(r) && Kind(s) == Kind(r) && Index(s) == i & R_INDEX
  {
    (r & (R_PTR | R_KIND)) | (i & R_INDEX)
  }

  /** `Reg.normalize`: keeps the pointer flag, forces the SSA-normalized kind and
      replaces the index by the low 59 bits of `i`. */
  function Normalize(r: Reg, i: bv64): (s: Reg)
    ensures Ptr(s) == Ptr(r) && Kind(s) == K_NORM && Index(s) == i & R_INDEX
  {
    (r & R_PTR) | (K_NORM << B_KIND) | (i & R_INDEX)
  }

  /* ---------------- the encoding is a bijection ---------------- */

  /** The three masked fields, shifted down and back up, add up to the word. */
  lemma FieldsReassemble(r: Reg)
    ensures ((r >> B_PTR) << B_PTR) | (((r & R_KIND) >> B_KIND) << B_KIND) | (r & R_INDEX) == r
  {
  }

  /** Decoding an encoded triple gives the triple back. */
  lemma UnpackPack(p: bv64, k: bv64, i: bv64)
    requires p <= 1 && k <= 0x0f && i <= R_INDEX
    ensures PtrBit(Pack(p, k, i)) == p && Kind(Pack(p, k, i)) == k && Index(Pack(p, k, i)) == i
  {
  }

  /** Every register is the encoding of its own three fields. */
  lemma PackUnpack(r: Reg)
    ensures Pack(PtrBit(r), Kind(r), Index(r)) == r
  {
    FieldsReassemble(r);
  }

  /** Two registers are equal exactly when their three fields are: no two distinct
      (pointer, kind, index) triples alias. */
  lemma FieldsDetermine(r: Reg, s: Reg)
    ensures r == s <==> (Ptr(r) == Ptr(s) && Kind(r) == Kind(s) && Index(r) == Index(s))
  {
    if Ptr(r) == Ptr(s) && Kind(r) == Kind(s) && Index(r) == Index(s) {
      PackUnpack(r);
      PackUnpack(s);
    }
  }

  lemma WordRoundTrip(x: bv64)
    ensures (x as nat) as bv64 == x
  {
  }

  /** Two words are equal exactly when their unsigned values are. */
  lemma WordValue(x: bv64, y: bv64)
    ensures x as nat == y as nat <==> x == y
  {
    WordRoundTrip(x);
    WordRoundTrip(y);
  }

  /** `mkreg` agrees with the encoding. */
  lemma MkRegIsPack(ptr: bv64, kind: bv64)
    requires kind <= K_MAX
    ensures MkReg(ptr, kind) == Ok(Pack(ptr & M_PTR, kind, 0))
  {
  }

  /* ---------------- rename, normalize, zero ---------------- */

  /** Renaming twice keeps only the second index; renaming twice with the same
      index is the same as renaming once. */
  lemma RenameLastWins(r: Reg, i: bv64, j: bv64)
    ensures Rename(Rename(r, i), j) == Rename(r, j)
    ensures Rename(Rename(r, i), i) == Rename(r, i)
  {
    FieldsDetermine(Rename(Rename(r, i), j), Rename(r, j));
  }

  /** Normalizing is idempotent and the last index wins, whatever the prior kind. */
  lemma NormalizeLastWins(r: Reg, i: bv64, j: bv64)
    ensures Normalize(Normalize(r, i), j) == Normalize(r, j)
    ensures Normalize(Normalize(r, i), i) == Normalize(r, i)
  {
    FieldsDetermine(Normalize(Normalize(r, i), j), Normalize(r, j));
  }

  /** Renaming a normalized register is normalizing it again. */
  lemma RenameOfNormalized(r: Reg, i: bv64, j: bv64)
    ensures Rename(Normalize(r, i), j) == Normalize(r, j)
  {
    FieldsDetermine(Rename(Normalize(r, i), j), Normalize(r, j));
  }

  /** The two zero registers are fixed points of `zero`, and `zero` picks between
      them by the pointer flag alone. */
  lemma ZeroFixedPoints(r: Reg)
    ensures Zero(Rz) == Rz && Zero(Pn) == Pn
    ensures Zero(Zero(r)) == Zero(r)
    ensures Zero(r) == Rz <==> !Ptr(r)
    ensures Zero(r) == Pn <==> Ptr(r)
  {
  }

  /** The named constants decode to the fields their names promise. */
  lemma ConstantsDecode()
    ensures !Ptr(Rz) && Kind(Rz) == K_ZERO && Index(Rz) == 0
    ensures Ptr(Pn) && Kind(Pn) == K_ZERO && Index(Pn) == 0
    ensures !Ptr(Tr) && Kind(Tr) == K_TEMP && Index(Tr) == 0
    ensures Ptr(Pr) && Kind(Pr) == K_TEMP && Index(Pr) == 0
  {
  }
}
