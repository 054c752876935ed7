/** The packets of RFC 1350 as byte strings, and the 512-byte blocks of a file. */
module TftpPackets {
  import opened Basics

  type Packet = seq<Byte>

  // Block numbers on the wire are 16 bits wide.
  const NUMBERS: int := 65536

  function Header(opcode: Byte, n: int): (h: Packet)
    requires 0 <= n < NUMBERS
  {
    [0, opcode, n / 256, n % 256]
  }

  function Ack(n: int): Packet
    requires 0 <= n < NUMBERS
  {
    Header(4, n)
  }

  // The 16-bit number at offset 2, read in network order.
  function Number(p: Packet): (n: int)
    requires |p| >= 4
    ensures 0 <= n < NUMBERS
  {
    256 * (p[2] as int) + p[3] as int
  }

  predicate IsRequest(p: Packet) {
    |p| >= 2 && p[0] == 0 && p[1] == 1
  }

  predicate IsError(p: Packet) {
    |p| >= 4 && p[0] == 0 && p[1] == 5
  }

  predicate IsAck(p: Packet) {
    |p| == 4 && p[0] == 0 && p[1] == 4
  }

  // RFC 1350, section 6: the transfer ends with a block of fewer than 512 bytes,
  // so a file always needs one block more than it has full ones.
  function BlockCount(file: seq<Byte>): (n: nat)
    ensures n >= 1 && 512 * (n - 1) <= |file| < 512 * n
  {
    |file| / 512 + 1
  }

  function Prefix(file: seq<Byte>, k: nat): (r: seq<Byte>)
    ensures |r| == if 512 * k <= |file| then 512 * k else |file|
    ensures r <= file
  {
    if 512 * k <= |file| then file[..512 * k] else file
  }

  function Block(file: seq<Byte>, k: int): (b: seq<Byte>)
    requires 1 <= k <= BlockCount(file)
    ensures |b| == if k < BlockCount(file) then 512 else |file| - 512 * (k - 1)
  {
    if k < BlockCount(file) then file[512 * (k - 1)..512 * k] else file[512 * (k - 1)..]
  }

  // The k-th DATA packet of a sender whose block numbers roll over to 0.
  function DataPacket(file: seq<Byte>, k: int): (p: Packet)
    requires 1 <= k <= BlockCount(file)
    ensures |p| == 4 + |Block(file, k)|
    ensures p[0] == 0 && p[1] == 3 && Number(p) == k % NUMBERS
  {
    var h := Header(3, k % NUMBERS);
    var p := h + Block(file, k);
    assert p[..4] == h;
    p
  }

  // Appending the next block to a whole number of blocks gives the next prefix, and the
  // prefix that holds every block is the file.
  lemma {:induction false} PrefixGrows(file: seq<Byte>, k: nat)
    requires k < BlockCount(file)
    ensures Prefix(file, k) + Block(file, k + 1) == Prefix(file, k + 1)
    ensures k + 1 == BlockCount(file) ==> Prefix(file, k + 1) == file
  {
    if k + 1 < BlockCount(file) {
      assert file[..512 * k] + file[512 * k..512 * (k + 1)] == file[..512 * (k + 1)];
    } else {
      assert file[..512 * k] + file[512 * k..] == file;
    }
  }
}
