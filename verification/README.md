# RISC-V gdbarch feature record

This project is a Dafny model of `riscv_gdbarch_features`, the small value type
in GDB's RISC-V architecture layer. GDB uses it to tell RISC-V gdbarch instances
apart, and it keys an `std::unordered_map` of default target descriptions. The
record holds three register widths in bytes:

- `xlen`, the x-registers;
- `flen`, the f-registers;
- `clen`, the capability registers.

Each field starts at 0. The record has an equality operator and an inequality
operator that compare `xlen` and `flen` only. Its `hash()` packs the low five
bits of those same two fields into a ten-bit value.

The project has two modules:

- `RiscvFeatures` (`riscv_features.dfy`) holds the record, its documented
  validity, the operators, and the laws they obey.
- `BitOps` (`bit_ops.dfy`) models the C++ operators `&`, `|` and `<<` that
  `hash()` is written with. They work bit by bit on the natural number that a
  32-bit two's-complement `int` denotes. This lets `Hash` keep the source's
  expression `(xlen & 0x1f) << 5 | (flen & 0x1f) << 0` literally. Its contract
  then proves what that expression means: `xlen` modulo 32 and `flen` modulo 32
  as the two digits of a base-32 number. The modulo is Euclidean, so a negative
  field gives the same low bits as its two's-complement pattern.

Equality and the hash both ignore `clen`. The model does not correct this. It
proves the omission instead: `ClenIgnored` for all records, and
`CapabilityVariantsCollide` for two valid records. One of those records has
capability registers and the other has none, yet they are the same map key.

## Model

| member | source | states |
|---|---|---|
| RiscvFeatures.Default | gdb/arch/riscv.h:38-52 | A default-constructed record is marked uninitialised (xlen 0). It is not valid, and it has no f-registers and no capability registers. |
| RiscvFeatures.Eq | gdb/arch/riscv.h:54-58 | operator== holds exactly when the two records are identical once clen is set aside. |
| RiscvFeatures.Neq | gdb/arch/riscv.h:60-64 | operator!= holds exactly when the records still differ after clen is set aside, in xlen or flen. |
| RiscvFeatures.Hash | gdb/arch/riscv.h:66-71 | hash() is below 1024. Divided by 32 it gives xlen & 0x1f, and modulo 32 it gives flen & 0x1f. Both masks are Euclidean residues mod 32, negative ints included. |
| RiscvFeatures.HashIsPacking | gdb/arch/riscv.h:69 | hash() equals (xlen mod 32) * 32 + (flen mod 32). The shift and the bitwise or act as a base-32 packing. |
| RiscvFeatures.EqIsEquivalence | gdb/arch/riscv.h:55-58 | operator== is reflexive, symmetric and transitive. |
| RiscvFeatures.NeqIsNotEq | gdb/arch/riscv.h:61-64 | operator!= is the exact negation of operator== for every pair of records. |
| RiscvFeatures.HashAgreesWithEq | gdb/arch/riscv.h:55-71 | Records that operator== calls equal have equal hashes, as an unordered_map key requires. |
| RiscvFeatures.ClenIgnored | gdb/arch/riscv.h:55-71 | Replacing clen with any value changes neither equality, in either direction, nor the hash. |
| RiscvFeatures.CapabilityVariantsCollide | gdb/arch/riscv.h:49-71 | Some pair of valid records are the same key: one has capability registers, the other has none, they compare equal and they hash alike. |
| RiscvFeatures.HashExactOnValid | gdb/arch/riscv.h:38-71 | On valid records, hashes are equal if and only if operator== holds. The hash tells all documented configurations apart. |
| RiscvFeatures.HashCollidesOutsideValid | gdb/arch/riscv.h:38-71 | Moving xlen or flen by a non-zero multiple of 32 keeps the hash but breaks equality. If the original record was valid, the moved record is not. The masks tell widths apart only when they differ modulo 32, which all the documented widths do. |
| RiscvFeatures.FitsInFiveBits | gdb/arch/riscv.h:38-52 | Every documented xlen and flen is below 32, so a five-bit mask keeps it whole. |
| RiscvFeatures.ValidIsInitialised | gdb/arch/riscv.h:38-42 | A valid record never carries the uninitialised marker xlen 0. |
| RiscvFeatures.ValidityIsIndependent | gdb/arch/riscv.h:38-52 | The widths are constrained separately. Any valid xlen, flen and clen combine into a valid record, and dropping the f-register or capability bank (width 0) keeps a record valid. |
| BitOps.Bits32 | gdb/arch/riscv.h:69 | The bit pattern that `&` sees in a 32-bit int. A non-negative int is unchanged; a negative int is its value plus 2^32. |
| BitOps.And | gdb/arch/riscv.h:69 | Bitwise and never exceeds either operand. |
| BitOps.Or | gdb/arch/riscv.h:69 | Bitwise or is at least each operand and at most their sum. |
| BitOps.ShiftLeft | gdb/arch/riscv.h:69 | Shifting left by k places multiplies by 2^k. |
| BitOps.AndLowMask | gdb/arch/riscv.h:69 | And with a mask of k low ones keeps exactly the low k bits. |
| BitOps.OrDisjoint | gdb/arch/riscv.h:69 | Or-ing a value below 2^k into a value shifted left by k places is addition. |
| BitOps.LowFiveBits | gdb/arch/riscv.h:69 | `x & 0x1f` on a 32-bit int is x modulo 32, Euclidean, for every x. |
| BitOps.PackFive | gdb/arch/riscv.h:69 | The whole hash expression equals 32 * (x mod 32) + (y mod 32). |

## Left out

- `riscv_create_target_description` (gdb/arch/riscv.h:77-78): it is only declared in this header. The code that builds the register catalogue, and the `target_desc` type from `common/tdesc.h`, are not part of this model.
- The cache of target descriptions keyed by this record, and whether access to it is thread-safe: that code is not part of this model. The model proves only the key contract the map relies on (`HashAgreesWithEq`).
- C++ mechanics: `noexcept`, the width of `std::size_t`, the header guard and the include (gdb/arch/riscv.h:20-23). `Hash` returns a natural number. The packed value is below 1024, so conversion to `size_t` cannot change it.
- The fields are unbounded `int`s in the model, while a C++ `int` holds 32 bits. `Bits32` reduces every value modulo 2^32. Inside the 32-bit range this is exactly the two's-complement pattern.
- Nothing validates a record when it is constructed, in the model or in the source. `Valid` is the documented set of widths, and only the lemmas about documented configurations assume it.
