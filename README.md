# Byte-order conversion of hodea-core-slib, in Dafny

This project models `hodea/core/cpu_endian.hpp` from the hodea core
library. The header converts 16-, 32- and 64-bit unsigned words between the
CPU's native byte order and a given byte order, little endian or big endian.
The CPU's order is fixed at build time by the macro `HODEA_IS_CPU_LE`.
`is_cpu_le()` returns that macro and `is_cpu_be()` returns its negation.
`cpu_to_leN` returns its argument unchanged on a little-endian CPU and
`uswapN` of it otherwise. `cpu_to_beN` does the same on a big-endian CPU.
`leN_to_cpu` and `beN_to_cpu` call `cpu_to_leN` and `cpu_to_beN`.

Layout:

- `bytes.dfy`, module `Bytes`: the two byte orders (mixed "PDP" order is
  not supported, as the header says) and sequence reversal. It also has
  `Arrange`, which lays out a word's bytes, given least significant first,
  in a given order.
- `uswap.dfy`, module `Uswap`: the bytes of a 16-, 32- and 64-bit word and
  their reassembly. It also has the byte swaps `Uswap16`, `Uswap32` and
  `Uswap64` that the header calls.
- `cpu_endian.dfy`, module `CpuEndian`: the host flag tests and the twelve
  conversions, with the lemmas about them.

Words are `bv16`, `bv32` and `bv64`. Every result therefore has the width
of its argument, as with `uint16_t`, `uint32_t` and `uint64_t` in the
source. The value of `HODEA_IS_CPU_LE` is the parameter `cpuLE` of every
member, so each property is proved for both hosts.

Each conversion's contract states what it means in bytes:

- `CpuToLeN(cpuLE, x)` is the word whose bytes, in the CPU's order, are the
  bytes of `x` in little-endian order.
- `LeNToCpu(cpuLE, x)` is the word whose little-endian bytes are the bytes
  the CPU holds for `x`.
- The big-endian conversions are the same with big-endian order.

The `ConversionsNUnique` lemmas show that these contracts determine each
result uniquely. The source's rule "swap exactly when the orders differ" is
therefore the only one that meets them. The other lemmas state that rule,
the round trips and the other laws of the header.

Names follow the source (`cpu_to_le16` becomes `CpuToLe16`). Some
descriptions of this library call the same functions `to_little_endian`,
`from_big_endian` and `byte_swap`. The byte swaps live in a separate header
of the library, not in `cpu_endian.hpp`.

## Model

| member | source | states |
|---|---|---|
| `Uswap.Uswap16` | hodea/core/cpu_endian.hpp:97 | the two bytes of the result are the bytes of the argument in reverse order (assumed meaning of `uswap16`) |
| `Uswap.Uswap32` | hodea/core/cpu_endian.hpp:105 | the four bytes of the result are the bytes of the argument in reverse order (assumed meaning of `uswap32`) |
| `Uswap.Uswap64` | hodea/core/cpu_endian.hpp:113 | the eight bytes of the result are the bytes of the argument in reverse order (assumed meaning of `uswap64`) |
| `Uswap.Uswap16Involutive` | hodea/core/cpu_endian.hpp:97 | swapping a 16-bit word twice gives it back |
| `Uswap.Uswap32Involutive` | hodea/core/cpu_endian.hpp:105 | swapping a 32-bit word twice gives it back |
| `Uswap.Uswap64Involutive` | hodea/core/cpu_endian.hpp:113 | swapping a 64-bit word twice gives it back |
| `Uswap.UswapExchangesOrders` | hodea/core/cpu_endian.hpp:4-13 | for every width, the little-endian bytes of the swapped word are the big-endian bytes of the word, and the other way round |
| `Uswap.UswapExamples` | hodea/core/cpu_endian.hpp:97-113 | `uswap16(0x1234) == 0x3412`, `uswap32(0x12345678) == 0x78563412`, `uswap64(0x0102030405060708) == 0x0807060504030201` |
| `CpuEndian.IsCpuLe` | hodea/core/cpu_endian.hpp:79-82 | true exactly when the build flag denotes little-endian order |
| `CpuEndian.IsCpuBe` | hodea/core/cpu_endian.hpp:74-90 | true exactly when the build flag denotes big-endian order, and always the opposite of `IsCpuLe`, so exactly one of the two holds |
| `CpuEndian.CpuToLe16` | hodea/core/cpu_endian.hpp:95-98 | the result's bytes in CPU order are the argument's little-endian bytes |
| `CpuEndian.CpuToLe32` | hodea/core/cpu_endian.hpp:103-106 | the result's bytes in CPU order are the argument's little-endian bytes |
| `CpuEndian.CpuToLe64` | hodea/core/cpu_endian.hpp:111-114 | the result's bytes in CPU order are the argument's little-endian bytes |
| `CpuEndian.CpuToBe16` | hodea/core/cpu_endian.hpp:119-122 | the result's bytes in CPU order are the argument's big-endian bytes |
| `CpuEndian.CpuToBe32` | hodea/core/cpu_endian.hpp:127-130 | the result's bytes in CPU order are the argument's big-endian bytes |
| `CpuEndian.CpuToBe64` | hodea/core/cpu_endian.hpp:135-138 | the result's bytes in CPU order are the argument's big-endian bytes |
| `CpuEndian.Le16ToCpu` | hodea/core/cpu_endian.hpp:143-146 | the result's little-endian bytes are the argument's bytes in CPU order |
| `CpuEndian.Le32ToCpu` | hodea/core/cpu_endian.hpp:151-154 | the result's little-endian bytes are the argument's bytes in CPU order |
| `CpuEndian.Le64ToCpu` | hodea/core/cpu_endian.hpp:159-162 | the result's little-endian bytes are the argument's bytes in CPU order |
| `CpuEndian.Be16ToCpu` | hodea/core/cpu_endian.hpp:167-170 | the result's big-endian bytes are the argument's bytes in CPU order |
| `CpuEndian.Be32ToCpu` | hodea/core/cpu_endian.hpp:175-178 | the result's big-endian bytes are the argument's bytes in CPU order |
| `CpuEndian.Be64ToCpu` | hodea/core/cpu_endian.hpp:183-186 | the result's big-endian bytes are the argument's bytes in CPU order |
| `CpuEndian.SwapExactlyWhenOrdersDiffer` | hodea/core/cpu_endian.hpp:95-138 | for every width, `cpu_to_leN(x)` is `x` on a little-endian CPU and `uswapN(x)` otherwise; `cpu_to_beN(x)` is `x` on a big-endian CPU and `uswapN(x)` otherwise |
| `CpuEndian.DecodeIsEncode` | hodea/core/cpu_endian.hpp:143-186 | for every width and every input, `leN_to_cpu` equals `cpu_to_leN` and `beN_to_cpu` equals `cpu_to_beN` |
| `CpuEndian.RoundTrip16` | hodea/core/cpu_endian.hpp:95-186 | on both hosts, 16-bit conversion to an order and back (in either sequence) is the identity, and each conversion undoes itself |
| `CpuEndian.RoundTrip32` | hodea/core/cpu_endian.hpp:95-186 | the same for 32-bit words |
| `CpuEndian.RoundTrip64` | hodea/core/cpu_endian.hpp:95-186 | the same for 64-bit words |
| `CpuEndian.BigIsSwappedLittle` | hodea/core/cpu_endian.hpp:95-138 | on both hosts and for every width, `cpu_to_beN(x) == uswapN(cpu_to_leN(x))` |
| `CpuEndian.IdentityDependsOnlyOnHost` | hodea/core/cpu_endian.hpp:95-138 | for every width, `cpu_to_leN` is the identity on all words exactly when the CPU is little endian, and `cpu_to_beN` exactly when it is big endian; so exactly one of them is the identity, chosen by the flag alone |
| `CpuEndian.Conversions16Unique` | hodea/core/cpu_endian.hpp:95-170 | a 16-bit word satisfies the byte-level meaning of a conversion of `x` exactly when it is that conversion's result, for all four conversions |
| `CpuEndian.Conversions32Unique` | hodea/core/cpu_endian.hpp:103-178 | the same for the 32-bit conversions |
| `CpuEndian.Conversions64Unique` | hodea/core/cpu_endian.hpp:111-186 | the same for the 64-bit conversions |
| `CpuEndian.HostExamples` | hodea/core/cpu_endian.hpp:95-178 | fixed values on both hosts: on a little-endian CPU `cpu_to_le16(0x1234) == 0x1234`, `cpu_to_be16(0x1234) == 0x3412`, `be32_to_cpu(0x78563412) == 0x12345678`; on a big-endian CPU these invert |

## Left out

- Detecting the CPU's byte order from compiler macros (`__GNUC__`/`__clang__`, `__CC_ARM`, `__ICCARM__`) and the `#error` when detection fails (hodea/core/cpu_endian.hpp:33-72). This is preprocessor behaviour; the model takes the resulting value of `HODEA_IS_CPU_LE` as the parameter `cpuLE`.
- `hodea/core/uswap.hpp` is not part of this model. `Uswap16`, `Uswap32` and `Uswap64` are defined here with shifts and masks; the 64-bit one swaps the two 32-bit halves. Their contracts assume that the real primitives reverse the bytes of a word, which is what the conversion module's documentation relies on.
- How a CPU stores a word in memory, and loads or stores through pointers. A word's bytes in a given order are modelled as a `seq<bv8>`, not as addressed memory.
- `hodea/device/hal/hal_pin_config.hpp` and `hodea/device/hal/retarget_stdout_uart.hpp`. They only include a device-specific header chosen by a brand macro, or stop the build with `#error`. The device-specific headers (pin configuration, UART output) are not part of this model.
- `constexpr`, `static inline` and the other C++ linkage details. The model's functions are pure and total, which is what `constexpr` requires.
