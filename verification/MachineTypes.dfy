/** The widths of the program's integers, and the arithmetic that wraps round at them. */
module MachineTypes {

  const TWO_31 := 0x8000_0000
  const TWO_32 := 0x1_0000_0000
  const TWO_63 := 0x8000_0000_0000_0000
  const TWO_64 := 0x1_0000_0000_0000_0000

  type Byte = x: int | 0 <= x < 256 witness 0
  type UInt32 = x: int | 0 <= x < TWO_32 witness 0
  type UInt64 = x: int | 0 <= x < TWO_64 witness 0
  type SInt32 = x: int | -TWO_31 <= x < TWO_31 witness 0

  datatype Option<T> = None | Some(value: T)

  function Add32(a: UInt32, b: UInt32): UInt32 { if a + b < TWO_32 then a + b else a + b - TWO_32 }

  function Sub32(a: UInt32, b: UInt32): UInt32 { if a >= b then a - b else a - b + TWO_32 }

  function Add64(a: UInt64, b: UInt64): UInt64 { if a + b < TWO_64 then a + b else a + b - TWO_64 }

  function Sub64(a: UInt64, b: UInt64): UInt64 { if a >= b then a - b else a - b + TWO_64 }

  function Signed64(x: UInt64): int { if x < TWO_63 then x else x - TWO_64 }

  /** The cast of a wider number to a signed 32-bit one keeps the low bits. */
  function Signed32(x: int): SInt32
  {
    var low := x % TWO_32;
    if low < TWO_31 then low else low - TWO_32
  }

  function Unsigned32(x: SInt32): UInt32 { if x >= 0 then x else x + TWO_32 }

  /** The number that bytes spell in base 256. */
  function Number(bytes: seq<Byte>): nat
  {
    if bytes == [] then 0 else 256 * Number(bytes[..|bytes| - 1]) + bytes[|bytes| - 1]
  }

  lemma {:induction false} NumberInjective(a: seq<Byte>, b: seq<Byte>)
    requires |a| == |b| && Number(a) == Number(b)
    ensures a == b
  {
    if a != [] {
      var n := |a| - 1;
      assert Number(a[..n]) == Number(b[..n]) && a[n] == b[n];
      NumberInjective(a[..n], b[..n]);
      assert a == a[..n] + [a[n]] && b == b[..n] + [b[n]];
    }
  }

  lemma NumberSnoc(bytes: seq<Byte>, k: nat)
    requires k < |bytes|
    ensures Number(bytes[..k + 1]) == 256 * Number(bytes[..k]) + bytes[k]
  {
    assert bytes[..k + 1][..k] == bytes[..k];
  }
}
