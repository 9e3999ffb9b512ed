/** `SerialData.kt`: one chunk read from the pseudo-terminal master, as
    handed from native code to Kotlin. In packet mode the first byte is
    the kernel's status byte and the rest is what the printer host wrote. */
module SerialData {
  import opened Wrappers
  import opened Text
  import opened Platform

  /** `SerialData.TIOCPKT_DATA`, used as a bit index. */
  const TIOCPKT_DATA: int32 := 0

  /** `Byte.toInt()`: the signed value of a JVM byte holding `b`. */
  function SignExtend(b: byte): (i: int32)
    ensures -128 <= i < 128 && i % 256 == b
  {
    if b >= 128 then b - 256 else b
  }

  /** A constructed `SerialData`: the raw chunk, the baud rate and the four
      flag words stored as given, and the start-packet flag computed from
      the first byte. */
  datatype SerialData = SerialData(
    data: seq<byte>,
    baudrate: int32,
    iflag: int32, oflag: int32, cflag: int32, lflag: int32,
    isStartPacket: bool)

  /** The constructor. It reads `data[0]`, so an empty chunk makes it
      throw. */
  function Make(data: seq<byte>, baudrate: int32, iflag: int32, oflag: int32, cflag: int32, lflag: int32)
    : (r: Result<SerialData, string>)
    ensures r.Err? <==> |data| == 0
    ensures r.Ok? ==> r.value.data == data && r.value.baudrate == baudrate
    ensures r.Ok? ==> r.value.iflag == iflag && r.value.oflag == oflag && r.value.cflag == cflag && r.value.lflag == lflag
    ensures r.Ok? ==> (r.value.isStartPacket <==> data[0] % 2 == 1)
  {
    if |data| == 0 then Err("ArrayIndexOutOfBoundsException")
    else
      BitZeroIsOddness(SignExtend(data[0]));
      Ok(SerialData(data, baudrate, iflag, oflag, cflag, lflag, IsBitSet(SignExtend(data[0]), TIOCPKT_DATA)))
  }

  /** The `serialData` getter: `data.copyOfRange(1, size)`. */
  function SerialBytes(d: SerialData): (r: seq<byte>)
    requires |d.data| >= 1
    ensures |r| == |d.data| - 1
    ensures [d.data[0]] + r == d.data
  {
    d.data[1..]
  }

  /** A data packet (status byte `TIOCPKT_DATA` = 0) is never a start packet,
      and a status packet carrying `TIOCPKT_FLUSHREAD` (1) always is. */
  lemma StartPacketByStatus(payload: seq<byte>, status: byte, baud: int32)
    ensures Make([0] + payload, baud, 0, 0, 0, 0).value.isStartPacket == false
    ensures status % 2 == 1 ==> Make([status], baud, 0, 0, 0, 0).value.isStartPacket
  {
  }
}
