/** The writer of classic PCAP files: little-endian, with microsecond time stamps. */
module PcapWriter {
  import opened Bytes
  import opened PacketDecode
  import opened LiveCapturePolicy
  import opened PcapReader

  const MICROSECOND_MAGIC: u32 := 0xA1B2C3D4

  function LinkNumber(link: LinkType): u32 {
    if link == Null then 0 else 1
  }

  /** Division that truncates toward zero, as `duration_cast` does. */
  function Truncate(value: int, unit: nat): int
    requires unit > 0
  {
    if value >= 0 then value / unit else -(-value / unit)
  }

  /** The quotient is the nearest whole number toward zero: it has the dividend's sign, and leaves less than a unit. */
  lemma TruncatesTowardZero(value: int, unit: nat)
    requires unit > 0
    ensures value >= 0 ==> 0 <= value - Truncate(value, unit) * unit < unit && Truncate(value, unit) >= 0
    ensures value <= 0 ==> 0 <= Truncate(value, unit) * unit - value < unit && Truncate(value, unit) <= 0
  {
    var q := -value / unit;
    assert value < 0 ==> -value == q * unit + -value % unit && Truncate(value, unit) * unit == -(q * unit);
  }

  function GlobalHeaderBytes(snaplen: u32, link: LinkType): bytes {
    Le32(MICROSECOND_MAGIC) + Le16(2) + Le16(4) + Le32(0) + Le32(0) + Le32(snaplen) + Le32(LinkNumber(link))
  }

  /** Ticks as whole microseconds. */
  function Micros(timestamp: int, tickNanos: nat): int
    requires ValidTick(tickNanos)
  {
    Truncate(timestamp, 1000 / tickNanos)
  }

  function SecondsPart(micros: int): u32 {
    U32(Truncate(micros, 1_000_000))
  }

  function MicrosPart(micros: int): u32 {
    U32(micros - Truncate(micros, 1_000_000) * 1_000_000)
  }

  /** The record written for the first `length` bytes of a packet. */
  function PacketBytes(packet: CapturedPacket, length: u32, tickNanos: nat): bytes
    requires ValidTick(tickNanos) && length <= packet.SafeCapturedLen()
  {
    var micros := Micros(packet.timestamp, tickNanos);
    Le32(SecondsPart(micros)) + Le32(MicrosPart(micros)) + Le32(length) + Le32(Max(packet.originalLen, length)) +
        packet.data[..length]
  }

  /** The source's output stream is the bytes written to it, and writing to it does not fail. */
  class PcapWriter {
    const snaplen: u32
    const link: LinkType
    const tickNanos: nat
    var output: bytes
    var globalHeaderWritten: bool

    ghost predicate Valid() {
      ValidTick(tickNanos)
    }

    constructor (snaplen: u32, link: LinkType, tickNanos: nat)
      requires ValidTick(tickNanos)
      ensures Valid() && this.snaplen == snaplen && this.link == link && this.tickNanos == tickNanos
      ensures output == [] && !globalHeaderWritten
    {
      this.snaplen, this.link, this.tickNanos := snaplen, link, tickNanos;
      output, globalHeaderWritten := [], false;
    }

    method WriteLe16(value: u16)
      modifies `output
      ensures output == old(output) + Le16(value)
    {
      output := output + [value % 0x100, value / 0x100 % 0x100];
    }

    method WriteLe32(value: u32)
      modifies `output
      ensures output == old(output) + Le32(value)
    {
      output := output + [value % 0x100, value / 0x100 % 0x100, value / 0x1_0000 % 0x100, value / 0x100_0000 % 0x100];
    }

    /** Writes the global header, once. */
    method WriteGlobalHeader()
      modifies this
      ensures globalHeaderWritten
      ensures output == old(output) + if old(globalHeaderWritten) then [] else GlobalHeaderBytes(snaplen, link)
    {
      if globalHeaderWritten {
        return;
      }
      WriteLe32(MICROSECOND_MAGIC);
      WriteLe16(2);
      WriteLe16(4);
      WriteLe32(0);
      WriteLe32(0);
      WriteLe32(snaplen);
      WriteLe32(LinkNumber(link));
      globalHeaderWritten := true;
    }

    /** Writes the first `length` bytes of a packet; fails, writing nothing, when that is more than there are. */
    method WritePacket(packet: CapturedPacket, length: u32) returns (ok: bool)
      requires Valid()
      modifies this
      ensures ok <==> length <= packet.SafeCapturedLen()
      ensures globalHeaderWritten == (ok || old(globalHeaderWritten))
      ensures output == if !ok then old(output)
                        else old(output) + (if old(globalHeaderWritten) then [] else GlobalHeaderBytes(snaplen, link))
                             + PacketBytes(packet, length, tickNanos)
    {
      var safeCapturedLen := packet.SafeCapturedLen();
      if length > safeCapturedLen {
        return false;
      }
      WriteGlobalHeader();
      var micros := Micros(packet.timestamp, tickNanos);
      var seconds := Truncate(micros, 1_000_000);
      WriteLe32(U32(seconds));
      WriteLe32(U32(micros - seconds * 1_000_000));
      WriteLe32(length);
      WriteLe32(Max(packet.originalLen, length));
      output := output + packet.data[..length];
      return true;
    }

    /** Writes all captured bytes of a packet. */
    method WriteWholePacket(packet: CapturedPacket)
      requires Valid()
      modifies this
      ensures globalHeaderWritten
      ensures output == old(output) + (if old(globalHeaderWritten) then [] else GlobalHeaderBytes(snaplen, link))
                        + PacketBytes(packet, packet.SafeCapturedLen(), tickNanos)
    {
      var ok := WritePacket(packet, packet.SafeCapturedLen());
    }
  }
}
