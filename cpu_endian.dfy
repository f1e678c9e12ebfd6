/** Conversion between a given byte order and the CPU's byte order
    (hodea/core/cpu_endian.hpp).

    The CPU's byte order is fixed when the library is built: the macro
    HODEA_IS_CPU_LE is true on a little-endian CPU and false on a big-endian
    one. Every member here takes that value as the parameter `cpuLE`, so every
    property is proved for both kinds of host.

    Meaning of the conversions. A word `x` held by the CPU has its bytes in
    the CPU's order, `Arrange(HostOrder(cpuLE), BytesN(x))`. `CpuToLeN(x)` is
    the word whose bytes, in the CPU's order, are the bytes of `x` in
    little-endian order; `LeNToCpu(x)` reads the bytes the CPU holds for `x`
    as a little-endian word. The big-endian conversions are the same with
    big-endian order.
 */
module CpuEndian {
  import opened Bytes
  import opened Uswap

  /** The byte order that the value of HODEA_IS_CPU_LE stands for. */
  function HostOrder(cpuLE: bool): ByteOrder
  {
    if cpuLE then LittleEndian else BigEndian
  }

  /** Whether the CPU uses little-endian order. */
  function IsCpuLe(cpuLE: bool): (r: bool)
    ensures r <==> HostOrder(cpuLE) == LittleEndian
  {
    cpuLE
  }

  /** Whether the CPU uses big-endian order: the negation of the
      little-endian flag, so exactly one of the two tests holds. */
  function IsCpuBe(cpuLE: bool): (r: bool)
    ensures r <==> HostOrder(cpuLE) == BigEndian
    ensures r != IsCpuLe(cpuLE)
  {
    !cpuLE
  }

  // CPU order to little endian

  function CpuToLe16(cpuLE: bool, x: bv16): (r: bv16)
    ensures Arrange(HostOrder(cpuLE), Bytes16(r)) == Arrange(LittleEndian, Bytes16(x))
  {
    if IsCpuLe(cpuLE) then x else Uswap16(x)
  }

  function CpuToLe32(cpuLE: bool, x: bv32): (r: bv32)
    ensures Arrange(HostOrder(cpuLE), Bytes32(r)) == Arrange(LittleEndian, Bytes32(x))
  {
    if IsCpuLe(cpuLE) then x else Uswap32(x)
  }

  function CpuToLe64(cpuLE: bool, x: bv64): (r: bv64)
    ensures Arrange(HostOrder(cpuLE), Bytes64(r)) == Arrange(LittleEndian, Bytes64(x))
  {
    if IsCpuLe(cpuLE) then x else Uswap64(x)
  }

  // CPU order to big endian

  function CpuToBe16(cpuLE: bool, x: bv16): (r: bv16)
    ensures Arrange(HostOrder(cpuLE), Bytes16(r)) == Arrange(BigEndian, Bytes16(x))
  {
    if IsCpuBe(cpuLE) then x else Uswap16(x)
  }

  function CpuToBe32(cpuLE: bool, x: bv32): (r: bv32)
    ensures Arrange(HostOrder(cpuLE), Bytes32(r)) == Arrange(BigEndian, Bytes32(x))
  {
    if IsCpuBe(cpuLE) then x else Uswap32(x)
  }

  function CpuToBe64(cpuLE: bool, x: bv64): (r: bv64)
    ensures Arrange(HostOrder(cpuLE), Bytes64(r)) == Arrange(BigEndian, Bytes64(x))
  {
    if IsCpuBe(cpuLE) then x else Uswap64(x)
  }

  // Little endian to CPU order: the same computation as the other direction

  function Le16ToCpu(cpuLE: bool, x: bv16): (r: bv16)
    ensures Arrange(LittleEndian, Bytes16(r)) == Arrange(HostOrder(cpuLE), Bytes16(x))
  {
    CpuToLe16(cpuLE, x)
  }

  function Le32ToCpu(cpuLE: bool, x: bv32): (r: bv32)
    ensures Arrange(LittleEndian, Bytes32(r)) == Arrange(HostOrder(cpuLE), Bytes32(x))
  {
    CpuToLe32(cpuLE, x)
  }

  function Le64ToCpu(cpuLE: bool, x: bv64): (r: bv64)
    ensures Arrange(LittleEndian, Bytes64(r)) == Arrange(HostOrder(cpuLE), Bytes64(x))
  {
    CpuToLe64(cpuLE, x)
  }

  // Big endian to CPU order: the same computation as the other direction

  function Be16ToCpu(cpuLE: bool, x: bv16): (r: bv16)
    ensures Arrange(BigEndian, Bytes16(r)) == Arrange(HostOrder(cpuLE), Bytes16(x))
  {
    CpuToBe16(cpuLE, x)
  }

  function Be32ToCpu(cpuLE: bool, x: bv32): (r: bv32)
    ensures Arrange(BigEndian, Bytes32(r)) == Arrange(HostOrder(cpuLE), Bytes32(x))
  {
    CpuToBe32(cpuLE, x)
  }

  function Be64ToCpu(cpuLE: bool, x: bv64): (r: bv64)
    ensures Arrange(BigEndian, Bytes64(r)) == Arrange(HostOrder(cpuLE), Bytes64(x))
  {
    CpuToBe64(cpuLE, x)
  }

  /** Each conversion to an order leaves the word alone when the CPU already
      uses that order and swaps its bytes otherwise. */
  lemma SwapExactlyWhenOrdersDiffer(cpuLE: bool, x16: bv16, x32: bv32, x64: bv64)
    ensures CpuToLe16(cpuLE, x16) == if IsCpuLe(cpuLE) then x16 else Uswap16(x16)
    ensures CpuToLe32(cpuLE, x32) == if IsCpuLe(cpuLE) then x32 else Uswap32(x32)
    ensures CpuToLe64(cpuLE, x64) == if IsCpuLe(cpuLE) then x64 else Uswap64(x64)
    ensures CpuToBe16(cpuLE, x16) == if IsCpuBe(cpuLE) then x16 else Uswap16(x16)
    ensures CpuToBe32(cpuLE, x32) == if IsCpuBe(cpuLE) then x32 else Uswap32(x32)
    ensures CpuToBe64(cpuLE, x64) == if IsCpuBe(cpuLE) then x64 else Uswap64(x64)
  {
  }

  /** Decoding from an order is the same function as encoding to it. */
  lemma DecodeIsEncode(cpuLE: bool, x16: bv16, x32: bv32, x64: bv64)
    ensures Le16ToCpu(cpuLE, x16) == CpuToLe16(cpuLE, x16)
    ensures Le32ToCpu(cpuLE, x32) == CpuToLe32(cpuLE, x32)
    ensures Le64ToCpu(cpuLE, x64) == CpuToLe64(cpuLE, x64)
    ensures Be16ToCpu(cpuLE, x16) == CpuToBe16(cpuLE, x16)
    ensures Be32ToCpu(cpuLE, x32) == CpuToBe32(cpuLE, x32)
    ensures Be64ToCpu(cpuLE, x64) == CpuToBe64(cpuLE, x64)
  {
  }

  /** Converting to an order and back, or back and then to it, gives the
      word unchanged; in particular each conversion undoes itself. */
  lemma RoundTrip16(cpuLE: bool, x: bv16)
    ensures Le16ToCpu(cpuLE, CpuToLe16(cpuLE, x)) == x
    ensures CpuToLe16(cpuLE, Le16ToCpu(cpuLE, x)) == x
    ensures Be16ToCpu(cpuLE, CpuToBe16(cpuLE, x)) == x
    ensures CpuToBe16(cpuLE, Be16ToCpu(cpuLE, x)) == x
    ensures CpuToLe16(cpuLE, CpuToLe16(cpuLE, x)) == x
    ensures CpuToBe16(cpuLE, CpuToBe16(cpuLE, x)) == x
  {
    Uswap16Involutive(x);
  }

  lemma RoundTrip32(cpuLE: bool, x: bv32)
    ensures Le32ToCpu(cpuLE, CpuToLe32(cpuLE, x)) == x
    ensures CpuToLe32(cpuLE, Le32ToCpu(cpuLE, x)) == x
    ensures Be32ToCpu(cpuLE, CpuToBe32(cpuLE, x)) == x
    ensures CpuToBe32(cpuLE, Be32ToCpu(cpuLE, x)) == x
    ensures CpuToLe32(cpuLE, CpuToLe32(cpuLE, x)) == x
    ensures CpuToBe32(cpuLE, CpuToBe32(cpuLE, x)) == x
  {
    Uswap32Involutive(x);
  }

  lemma RoundTrip64(cpuLE: bool, x: bv64)
    ensures Le64ToCpu(cpuLE, CpuToLe64(cpuLE, x)) == x
    ensures CpuToLe64(cpuLE, Le64ToCpu(cpuLE, x)) == x
    ensures Be64ToCpu(cpuLE, CpuToBe64(cpuLE, x)) == x
    ensures CpuToBe64(cpuLE, Be64ToCpu(cpuLE, x)) == x
    ensures CpuToLe64(cpuLE, CpuToLe64(cpuLE, x)) == x
    ensures CpuToBe64(cpuLE, CpuToBe64(cpuLE, x)) == x
  {
    Uswap64Involutive(x);
  }

  /** On either host the big-endian form of a word is the byte swap of its
      little-endian form. */
  lemma BigIsSwappedLittle(cpuLE: bool, x16: bv16, x32: bv32, x64: bv64)
    ensures CpuToBe16(cpuLE, x16) == Uswap16(CpuToLe16(cpuLE, x16))
    ensures CpuToBe32(cpuLE, x32) == Uswap32(CpuToLe32(cpuLE, x32))
    ensures CpuToBe64(cpuLE, x64) == Uswap64(CpuToLe64(cpuLE, x64))
  {
    Uswap16Involutive(x16);
    Uswap32Involutive(x32);
    Uswap64Involutive(x64);
  }

  /** Which conversion is the identity depends on the host flag alone: the
      conversion to little endian leaves every word alone exactly on a
      little-endian CPU, the conversion to big endian exactly on a
      big-endian one. So on either host exactly one of them is the
      identity. */
  lemma IdentityDependsOnlyOnHost(cpuLE: bool)
    ensures (forall x :: CpuToLe16(cpuLE, x) == x) <==> IsCpuLe(cpuLE)
    ensures (forall x :: CpuToLe32(cpuLE, x) == x) <==> IsCpuLe(cpuLE)
    ensures (forall x :: CpuToLe64(cpuLE, x) == x) <==> IsCpuLe(cpuLE)
    ensures (forall x :: CpuToBe16(cpuLE, x) == x) <==> IsCpuBe(cpuLE)
    ensures (forall x :: CpuToBe32(cpuLE, x) == x) <==> IsCpuBe(cpuLE)
    ensures (forall x :: CpuToBe64(cpuLE, x) == x) <==> IsCpuBe(cpuLE)
  {
    var w16, w32, w64 := 0x0102, 0x0102_0304, 0x0102_0304_0506_0708;
    if cpuLE {
      assert CpuToBe16(cpuLE, w16) != w16;
      assert CpuToBe32(cpuLE, w32) != w32;
      assert CpuToBe64(cpuLE, w64) != w64;
    } else {
      assert CpuToLe16(cpuLE, w16) != w16;
      assert CpuToLe32(cpuLE, w32) != w32;
      assert CpuToLe64(cpuLE, w64) != w64;
    }
  }

  /** The byte-level meaning pins each 16-bit conversion down: a word has
      the meaning of the conversion's result exactly when it is that
      result. */
  lemma Conversions16Unique(cpuLE: bool, x: bv16, y: bv16)
    ensures Arrange(HostOrder(cpuLE), Bytes16(y)) == Arrange(LittleEndian, Bytes16(x))
      <==> y == CpuToLe16(cpuLE, x)
    ensures Arrange(HostOrder(cpuLE), Bytes16(y)) == Arrange(BigEndian, Bytes16(x))
      <==> y == CpuToBe16(cpuLE, x)
    ensures Arrange(LittleEndian, Bytes16(y)) == Arrange(HostOrder(cpuLE), Bytes16(x))
      <==> y == Le16ToCpu(cpuLE, x)
    ensures Arrange(BigEndian, Bytes16(y)) == Arrange(HostOrder(cpuLE), Bytes16(x))
      <==> y == Be16ToCpu(cpuLE, x)
  {
    var host := HostOrder(cpuLE);
    if Arrange(host, Bytes16(y)) == Arrange(host, Bytes16(CpuToLe16(cpuLE, x))) {
      ArrangeInjective(host, Bytes16(y), Bytes16(CpuToLe16(cpuLE, x)));
      Bytes16Injective(y, CpuToLe16(cpuLE, x));
    }
    if Arrange(host, Bytes16(y)) == Arrange(host, Bytes16(CpuToBe16(cpuLE, x))) {
      ArrangeInjective(host, Bytes16(y), Bytes16(CpuToBe16(cpuLE, x)));
      Bytes16Injective(y, CpuToBe16(cpuLE, x));
    }
    if Arrange(LittleEndian, Bytes16(y)) == Arrange(LittleEndian, Bytes16(Le16ToCpu(cpuLE, x))) {
      ArrangeInjective(LittleEndian, Bytes16(y), Bytes16(Le16ToCpu(cpuLE, x)));
      Bytes16Injective(y, Le16ToCpu(cpuLE, x));
    }
    if Arrange(BigEndian, Bytes16(y)) == Arrange(BigEndian, Bytes16(Be16ToCpu(cpuLE, x))) {
      ArrangeInjective(BigEndian, Bytes16(y), Bytes16(Be16ToCpu(cpuLE, x)));
      Bytes16Injective(y, Be16ToCpu(cpuLE, x));
    }
  }

  /** The same for the 32-bit conversions. */
  lemma Conversions32Unique(cpuLE: bool, x: bv32, y: bv32)
    ensures Arrange(HostOrder(cpuLE), Bytes32(y)) == Arrange(LittleEndian, Bytes32(x))
      <==> y == CpuToLe32(cpuLE, x)
    ensures Arrange(HostOrder(cpuLE), Bytes32(y)) == Arrange(BigEndian, Bytes32(x))
      <==> y == CpuToBe32(cpuLE, x)
    ensures Arrange(LittleEndian, Bytes32(y)) == Arrange(HostOrder(cpuLE), Bytes32(x))
      <==> y == Le32ToCpu(cpuLE, x)
    ensures Arrange(BigEndian, Bytes32(y)) == Arrange(HostOrder(cpuLE), Bytes32(x))
      <==> y == Be32ToCpu(cpuLE, x)
  {
    var host := HostOrder(cpuLE);
    if Arrange(host, Bytes32(y)) == Arrange(host, Bytes32(CpuToLe32(cpuLE, x))) {
      ArrangeInjective(host, Bytes32(y), Bytes32(CpuToLe32(cpuLE, x)));
      Bytes32Injective(y, CpuToLe32(cpuLE, x));
    }
    if Arrange(host, Bytes32(y)) == Arrange(host, Bytes32(CpuToBe32(cpuLE, x))) {
      ArrangeInjective(host, Bytes32(y), Bytes32(CpuToBe32(cpuLE, x)));
      Bytes32Injective(y, CpuToBe32(cpuLE, x));
    }
    if Arrange(LittleEndian, Bytes32(y)) == Arrange(LittleEndian, Bytes32(Le32ToCpu(cpuLE, x))) {
      ArrangeInjective(LittleEndian, Bytes32(y), Bytes32(Le32ToCpu(cpuLE, x)));
      Bytes32Injective(y, Le32ToCpu(cpuLE, x));
    }
    if Arrange(BigEndian, Bytes32(y)) == Arrange(BigEndian, Bytes32(Be32ToCpu(cpuLE, x))) {
      ArrangeInjective(BigEndian, Bytes32(y), Bytes32(Be32ToCpu(cpuLE, x)));
      Bytes32Injective(y, Be32ToCpu(cpuLE, x));
    }
  }

  /** The same for the 64-bit conversions. */
  lemma Conversions64Unique(cpuLE: bool, x: bv64, y: bv64)
    ensures Arrange(HostOrder(cpuLE), Bytes64(y)) == Arrange(LittleEndian, Bytes64(x))
      <==> y == CpuToLe64(cpuLE, x)
    ensures Arrange(HostOrder(cpuLE), Bytes64(y)) == Arrange(BigEndian, Bytes64(x))
      <==> y == CpuToBe64(cpuLE, x)
    ensures Arrange(LittleEndian, Bytes64(y)) == Arrange(HostOrder(cpuLE), Bytes64(x))
      <==> y == Le64ToCpu(cpuLE, x)
    ensures Arrange(BigEndian, Bytes64(y)) == Arrange(HostOrder(cpuLE), Bytes64(x))
      <==> y == Be64ToCpu(cpuLE, x)
  {
    var host := HostOrder(cpuLE);
    if Arrange(host, Bytes64(y)) == Arrange(host, Bytes64(CpuToLe64(cpuLE, x))) {
      ArrangeInjective(host, Bytes64(y), Bytes64(CpuToLe64(cpuLE, x)));
      Bytes64Injective(y, CpuToLe64(cpuLE, x));
    }
    if Arrange(host, Bytes64(y)) == Arrange(host, Bytes64(CpuToBe64(cpuLE, x))) {
      ArrangeInjective(host, Bytes64(y), Bytes64(CpuToBe64(cpuLE, x)));
      Bytes64Injective(y, CpuToBe64(cpuLE, x));
    }
    if Arrange(LittleEndian, Bytes64(y)) == Arrange(LittleEndian, Bytes64(Le64ToCpu(cpuLE, x))) {
      ArrangeInjective(LittleEndian, Bytes64(y), Bytes64(Le64ToCpu(cpuLE, x)));
      Bytes64Injective(y, Le64ToCpu(cpuLE, x));
    }
    if Arrange(BigEndian, Bytes64(y)) == Arrange(BigEndian, Bytes64(Be64ToCpu(cpuLE, x))) {
      ArrangeInjective(BigEndian, Bytes64(y), Bytes64(Be64ToCpu(cpuLE, x)));
      Bytes64Injective(y, Be64ToCpu(cpuLE, x));
    }
  }

  /** Fixed inputs on a little-endian and on a big-endian CPU. */
  lemma HostExamples()
    ensures CpuToLe16(true, 0x1234) == 0x1234
    ensures CpuToBe16(true, 0x1234) == 0x3412
    ensures Be32ToCpu(true, 0x7856_3412) == 0x1234_5678
    ensures CpuToLe16(false, 0x1234) == 0x3412
    ensures CpuToBe16(false, 0x1234) == 0x1234
    ensures Be32ToCpu(false, 0x7856_3412) == 0x7856_3412
  {
    UswapExamples();
  }
}
