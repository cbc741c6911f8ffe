/** The in-memory tree shared by every converter (src/Conversions.h), and the
    byte encodings the .reg and .pol codecs rely on: UTF-16 little-endian code
    units and little-endian fixed-width integers. */
module Registry {

  /** A byte of a value's binary representation. */
  type byte = x: int | 0 <= x < 0x100

  /** A UTF-16 code unit, treated as a plain 16-bit number (no surrogate logic). */
  type char16 = x: int | 0 <= x < 0x1_0000

  /** A Win32 DWORD. */
  type u32 = x: int | 0 <= x < 0x1_0000_0000

  /** A wide string: the content of a std::wstring or std::wstring_view. */
  type Text = seq<char16>

  const REG_NONE: u32 := 0
  const REG_SZ: u32 := 1
  const REG_EXPAND_SZ: u32 := 2
  const REG_BINARY: u32 := 3
  const REG_DWORD: u32 := 4
  const REG_MULTI_SZ: u32 := 7
  const REG_QWORD: u32 := 11

  /** Largest value of a DWORD. */
  const MAXDWORD: nat := 0xFFFF_FFFF

  /** A registry value: an empty Name stands for the key's default value. */
  datatype RegistryValue = RegistryValue(Name: Text, Type: u32, Data: seq<byte>)

  /** A registry key; children and values are kept in document order. */
  datatype RegistryKey = RegistryKey(Name: Text, Subkeys: seq<RegistryKey>, Values: seq<RegistryValue>)

  /** Why a conversion failed.
      Malformed: the source returns E_UNEXPECTED.
      Indeterminate: the source would go on with a Type it never assigned (or one
        the stream could not hold), so no definite result can be stated.
      TooLarge: value data does not fit the 32-bit size field of a .pol entry. */
  datatype Error = Malformed | Indeterminate | TooLarge

  datatype Result<T> = Ok(value: T) | Err(error: Error)

  datatype Option<T> = None | Some(value: T)

  // ---------------------------------------------------------------------------
  // UTF-16 little-endian: wide strings viewed as bytes and back
  // ---------------------------------------------------------------------------

  /** The bytes of a wide string buffer in memory (little-endian code units). */
  function UnitsToBytes(u: Text): (b: seq<byte>)
    ensures |b| == 2 * |u|
  {
    if u == [] then [] else [u[0] % 0x100, u[0] / 0x100] + UnitsToBytes(u[1..])
  }

  /** The code units of a byte buffer seen as a wide string; a trailing odd byte is
      not part of any code unit. */
  function BytesToUnits(b: seq<byte>): (u: Text)
    ensures |u| == |b| / 2
  {
    if |b| < 2 then [] else [b[0] as int + 0x100 * b[1] as int] + BytesToUnits(b[2..])
  }

  lemma {:induction false} UnitsToBytesAppend(u: Text, w: Text)
    ensures UnitsToBytes(u + w) == UnitsToBytes(u) + UnitsToBytes(w)
  {
    if u != [] {
      assert (u + w)[1..] == u[1..] + w;
      UnitsToBytesAppend(u[1..], w);
      calc {
        UnitsToBytes(u + w);
        [u[0] % 0x100, u[0] / 0x100] + UnitsToBytes(u[1..] + w);
        [u[0] % 0x100, u[0] / 0x100] + (UnitsToBytes(u[1..]) + UnitsToBytes(w));
        ([u[0] % 0x100, u[0] / 0x100] + UnitsToBytes(u[1..])) + UnitsToBytes(w);
      }
    } else {
      assert u + w == w;
    }
  }

  /** Reading a wide string back from the bytes it was written as gives it back,
      whatever bytes follow. */
  lemma {:induction false} BytesToUnitsOfUnits(u: Text, rest: seq<byte>)
    ensures BytesToUnits(UnitsToBytes(u) + rest) == u + BytesToUnits(rest)
  {
    if u != [] {
      var lo, hi := u[0] % 0x100, u[0] / 0x100;
      var tail := UnitsToBytes(u[1..]) + rest;
      assert UnitsToBytes(u) + rest == [lo, hi] + tail;
      BytesToUnitsCons(lo, hi, tail);
      BytesToUnitsOfUnits(u[1..], rest);
      assert [u[0]] + (u[1..] + BytesToUnits(rest)) == u + BytesToUnits(rest);
    } else {
      assert UnitsToBytes(u) + rest == rest;
    }
  }

  lemma BytesToUnitsCons(lo: byte, hi: byte, tail: seq<byte>)
    ensures BytesToUnits([lo, hi] + tail) == [lo + 0x100 * hi] + BytesToUnits(tail)
  {
    assert ([lo, hi] + tail)[2..] == tail;
  }

  /** An even-length buffer survives the round trip through code units. */
  lemma {:induction false} UnitsOfBytesRoundTrip(b: seq<byte>)
    requires |b| % 2 == 0
    ensures UnitsToBytes(BytesToUnits(b)) == b
  {
    if |b| >= 2 {
      UnitsOfBytesRoundTrip(b[2..]);
      assert b == b[..2] + b[2..];
    }
  }

  // ---------------------------------------------------------------------------
  // Little-endian integers, as *(DWORD*)data and CopyMemory(&x) read and write them
  // ---------------------------------------------------------------------------

  /** The number stored little-endian in a buffer. */
  function FromLE(b: seq<byte>): (n: nat)
    ensures n < Pow256(|b|)
  {
    if b == [] then 0 else b[0] + 0x100 * FromLE(b[1..])
  }

  function Pow256(k: nat): (p: nat)
    ensures p >= 1
  {
    if k == 0 then 1 else 0x100 * Pow256(k - 1)
  }

  /** The `width` bytes that store n little-endian. */
  function ToLE(n: nat, width: nat): (b: seq<byte>)
    ensures |b| == width
  {
    if width == 0 then [] else [n % 0x100] + ToLE(n / 0x100, width - 1)
  }

  lemma {:induction false} FromToLE(n: nat, width: nat)
    requires n < Pow256(width)
    ensures FromLE(ToLE(n, width)) == n
  {
    if width > 0 {
      FromToLE(n / 0x100, width - 1);
      assert ToLE(n, width)[1..] == ToLE(n / 0x100, width - 1);
    }
  }

  lemma {:induction false} ToFromLE(b: seq<byte>)
    ensures ToLE(FromLE(b), |b|) == b
  {
    if b != [] {
      ToFromLE(b[1..]);
      assert (b[0] + 0x100 * FromLE(b[1..])) / 0x100 == FromLE(b[1..]);
    }
  }

  /** The eight bytes of a DWORD field, type and size, in a .pol entry. */
  function DwordBytes(n: u32): (b: seq<byte>)
    ensures |b| == 4 && FromLE(b) == n
  {
    FromToLE(n, 4);
    ToLE(n, 4)
  }
}
