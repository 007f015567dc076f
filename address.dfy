/**
 * `ipToUint32`: the 4-octet form of a parsed address packed big-endian
 * (network byte order, most significant octet first) into a `uint32` key.
 *
 * `net.ParseIP` and `IP.To4` are library calls whose code is not part of
 * this model; they reach the model as function parameters (`ParseOracle`,
 * `To4Oracle`) about which nothing is assumed.
 */
module Address {
  import opened Wrappers
  import opened BitSets

  /** Go's `byte` (`uint8`). */
  type Byte = x: int | 0 <= x < 0x100

  /** A parsed address as `net.IP` holds it: a byte slice. */
  type IP = seq<Byte>

  /** A 4-octet address, the form `IP.To4` returns. */
  type Quad = s: seq<Byte> | |s| == 4 witness [0, 0, 0, 0]

  /** `net.ParseIP`: the parsed address, or None for Go's nil. */
  type ParseOracle = seq<Byte> -> Option<IP>

  /** `IP.To4`: the 4-octet form, or None when the address has none. */
  type To4Oracle = IP -> Option<Quad>

  /** The error `ipToUint32` returns for an address without a 4-octet form. */
  datatype AddrError = InvalidIPv4

  /** `binary.BigEndian.Uint32` on four octets. */
  function BigEndianUint32(q: Quad): Key
  {
    var a: int, b: int, c: int, d: int := q[0], q[1], q[2], q[3];
    a * 0x100_0000 + b * 0x1_0000 + c * 0x100 + d
  }

  /** The four octets of a key, most significant first. */
  function Octets(k: Key): Quad
  {
    [k / 0x100_0000, k / 0x1_0000 % 0x100, k / 0x100 % 0x100, k % 0x100]
  }

  lemma {:induction false} DivMod8(x: int, r: int)
    requires 0 <= r < 0x100
    ensures (x * 0x100 + r) / 0x100 == x && (x * 0x100 + r) % 0x100 == r
  {
  }

  lemma {:induction false} Div16(x: int, r: int)
    requires 0 <= r < 0x1_0000
    ensures (x * 0x1_0000 + r) / 0x1_0000 == x
  {
  }

  lemma {:induction false} Div24(x: int, r: int)
    requires 0 <= r < 0x100_0000
    ensures (x * 0x100_0000 + r) / 0x100_0000 == x
  {
  }

  /** Splitting a packed key reproduces the octets it was packed from. */
  lemma {:induction false} OctetsOfBigEndian(q: Quad)
    ensures Octets(BigEndianUint32(q)) == q
  {
    var k := BigEndianUint32(q);
    var a: int, b: int, c: int, d: int := q[0], q[1], q[2], q[3];
    assert k == a * 0x100_0000 + (b * 0x1_0000 + c * 0x100 + d);
    Div24(a, b * 0x1_0000 + c * 0x100 + d);
    assert k == (a * 0x100 + b) * 0x1_0000 + (c * 0x100 + d);
    Div16(a * 0x100 + b, c * 0x100 + d);
    DivMod8(a, b);
    assert k == (a * 0x1_0000 + b * 0x100 + c) * 0x100 + d;
    DivMod8(a * 0x1_0000 + b * 0x100 + c, d);
    assert a * 0x1_0000 + b * 0x100 + c == (a * 0x100 + b) * 0x100 + c;
    DivMod8(a * 0x100 + b, c);
  }

  /** Packing the octets of a key gives the key back. */
  lemma {:induction false} BigEndianOfOctets(k: Key)
    ensures BigEndianUint32(Octets(k)) == k
  {
    var o := Octets(k);
    assert k / 0x1_0000 == (k / 0x100_0000) * 0x100 + k / 0x1_0000 % 0x100;
    assert k / 0x100 == (k / 0x1_0000) * 0x100 + k / 0x100 % 0x100;
    assert k == (k / 0x100) * 0x100 + k % 0x100;
  }

  /** Distinct 4-octet addresses have distinct keys. */
  lemma {:induction false} BigEndianInjective(q: Quad, r: Quad)
    requires BigEndianUint32(q) == BigEndianUint32(r)
    ensures q == r
  {
    OctetsOfBigEndian(q);
    OctetsOfBigEndian(r);
  }

  /**
   * `ipToUint32`: fails exactly when the address has no 4-octet form, and
   * otherwise returns the key whose octets are that form.
   */
  function IpToUint32(ip: IP, to4: To4Oracle): (r: Result<Key, AddrError>)
    ensures r.Success? <==> to4(ip).Some?
    ensures r.Success? ==> Octets(r.value) == to4(ip).value
    ensures r.Failure? ==> r.error == InvalidIPv4
  {
    match to4(ip)
    case None => Failure(InvalidIPv4)
    case Some(q) =>
      OctetsOfBigEndian(q);
      Success(BigEndianUint32(q))
  }
}
