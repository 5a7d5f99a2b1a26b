/** Fixed-width integers, IPv4 addresses, simulation time and Option:
    the value types shared by the SIFT header, geographic store and
    forwarding engine. */
module Base {

  /** C++ uint8_t, uint16_t, uint32_t, int16_t and int32_t as ranges of int. */
  type Byte = x: int | 0 <= x < 0x100
  type U8 = x: int | 0 <= x < 0x100
  type U16 = x: int | 0 <= x < 0x1_0000
  type U32 = x: int | 0 <= x < 0x1_0000_0000
  type I16 = x: int | -0x8000 <= x < 0x8000
  type I32 = x: int | -0x8000_0000 <= x < 0x8000_0000

  /** ns-3's Ipv4Address holds the address as one host-order 32-bit number. */
  type Ipv4Address = U32

  /** 0.0.0.0, what an Ipv4Address parsed from "0.0.0.0" or from the empty
      string holds. */
  const Unspecified: Ipv4Address := 0
  /** 102.102.102.102, what ns-3's default Ipv4Address constructor stores
      (ns-3's ipv4-address.cc is not part of this model). */
  const DefaultConstructed: Ipv4Address := 0x6666_6666
  /** 127.0.0.1 */
  const Loopback: Ipv4Address := 0x7F00_0001

  /** Simulation time in nanoseconds, the default resolution of ns-3's Time. */
  type Time = int

  function Seconds(s: int): Time
  {
    s * 1_000_000_000
  }

  datatype Option<T> = None | Some(value: T)

  /** The value a C++ cast of a double to an integer type yields:
      truncation toward zero. */
  function Trunc(r: real): (n: int)
    ensures r >= 0.0 ==> n as real <= r < n as real + 1.0
    ensures r < 0.0 ==> n as real - 1.0 < r <= n as real
  {
    if r >= 0.0 then r.Floor else -((-r).Floor)
  }

  /** Reducing a byte modulo 256 before adding `d` changes nothing modulo
      256: repeated uint8_t decrements wrap consistently. */
  lemma AddModuloByte(a: int, d: int)
    ensures (a % 0x100 + d) % 0x100 == (a + d) % 0x100
  {
    var q := a / 0x100;
    assert a == q * 0x100 + a % 0x100;
  }

  /** The same for uint16_t counters, modulo 65536. */
  lemma AddModuloU16(a: int, d: int)
    ensures (a % 0x1_0000 + d) % 0x1_0000 == (a + d) % 0x1_0000
  {
    var q := a / 0x1_0000;
    assert a == q * 0x1_0000 + a % 0x1_0000;
  }

  /** A double whose truncation fits in int32_t (the cast is undefined otherwise). */
  predicate FitsI32(r: real)
  {
    -0x8000_0000 <= Trunc(r) < 0x8000_0000
  }
}
