/**
 * The CDC class request hook of `src/usb_cdc.c`: `cdc_control_request`.
 *
 * Three requests of the USB CDC PSTN subclass (version 1.2, sections 6.3.10
 * to 6.3.12) are answered. SetLineCoding is accepted when its data stage is
 * the 7-byte line-coding structure, GetLineCoding answers with a fixed
 * 115200 baud, 1 stop bit, no parity, 8 data bits, and SetControlLineState
 * is always accepted. Every other request is passed on to the next handler.
 * The line-coding structure is that of Table 17 of the same document: a
 * little-endian 32-bit data rate followed by one byte each for the stop
 * bits, the parity and the data bits.
 */
module UsbCdc {
  import opened Bits

  /** Class-specific `bRequest` codes of the USB CDC specification, version 1.2. */
  const SET_LINE_CODING: bv8 := 0x20
  const GET_LINE_CODING: bv8 := 0x21
  const SET_CONTROL_LINE_STATE: bv8 := 0x22

  /** `enum usbd_request_return_codes`: `USBD_REQ_NOTSUPP`, `USBD_REQ_HANDLED`, `USBD_REQ_NEXT_CALLBACK`. */
  datatype RequestResult = NotSupported | Handled | NextCallback

  /** Size of the line-coding structure. */
  const LineCodingSize := 7

  datatype LineCoding = LineCoding(dteRate: u32, charFormat: byte, parityType: byte, dataBits: byte)

  /** What GetLineCoding reports: 115200 baud, `bCharFormat` 0 (1 stop bit), `bParityType` 0 (none), 8 data bits. */
  const Fixed115200_8N1 := LineCoding(115200, 0, 0, 8)

  function Pow256(n: nat): (p: nat)
    ensures p > 0
  {
    if n == 0 then 1 else 256 * Pow256(n - 1)
  }

  /** Bytes read as a little-endian number. */
  function LittleEndian(s: seq<byte>): (x: nat)
    ensures x < Pow256(|s|)
  {
    if s == [] then 0
    else
      var rest := LittleEndian(s[1..]);
      assert s[0] + 256 * rest < 256 * Pow256(|s| - 1) by {
        MulSub(Pow256(|s| - 1), rest, 256);
      }
      s[0] + 256 * rest
  }

  /** The low `n` bytes of `x`, least significant first. */
  function ToLittleEndian(x: nat, n: nat): (s: seq<byte>)
    ensures |s| == n
  {
    if n == 0 then [] else [x % 256] + ToLittleEndian(x / 256, n - 1)
  }

  lemma {:induction false} LittleEndianOfTo(x: nat, n: nat)
    requires x < Pow256(n)
    ensures LittleEndian(ToLittleEndian(x, n)) == x
  {
    if n > 0 {
      DivBound(x, 256, Pow256(n - 1));
      LittleEndianOfTo(x / 256, n - 1);
      assert ToLittleEndian(x, n)[1..] == ToLittleEndian(x / 256, n - 1);
    }
  }

  lemma {:induction false} ToOfLittleEndian(s: seq<byte>)
    ensures ToLittleEndian(LittleEndian(s), |s|) == s
  {
    if s != [] {
      var rest := LittleEndian(s[1..]);
      DivModUnique(LittleEndian(s), 256, rest, s[0]);
      ToOfLittleEndian(s[1..]);
      assert s == [s[0]] + s[1..];
    }
  }

  /** The 7 bytes of a line-coding structure. */
  function EncodeLineCoding(lc: LineCoding): (s: seq<byte>)
    ensures |s| == LineCodingSize
    ensures LittleEndian(s[..4]) == lc.dteRate
    ensures s[4] == lc.charFormat && s[5] == lc.parityType && s[6] == lc.dataBits
  {
    var rate := ToLittleEndian(lc.dteRate, 4);
    assert Pow256(4) == Two32;
    LittleEndianOfTo(lc.dteRate, 4);
    var s := rate + [lc.charFormat, lc.parityType, lc.dataBits];
    assert s[..4] == rate;
    s
  }

  /** A line-coding structure read from its 7 bytes. */
  function DecodeLineCoding(s: seq<byte>): LineCoding
    requires |s| == LineCodingSize
  {
    assert Pow256(4) == Two32;
    LineCoding(LittleEndian(s[..4]), s[4], s[5], s[6])
  }

  lemma DecodeEncode(lc: LineCoding)
    ensures DecodeLineCoding(EncodeLineCoding(lc)) == lc
  {
  }

  lemma EncodeDecode(s: seq<byte>)
    requires |s| == LineCodingSize
    ensures EncodeLineCoding(DecodeLineCoding(s)) == s
  {
    ToOfLittleEndian(s[..4]);
    assert s == s[..4] + [s[4], s[5], s[6]];
  }

  /** The bytes GetLineCoding writes are the line coding 115200 8N1. */
  lemma FixedLineCodingBytes()
    ensures EncodeLineCoding(Fixed115200_8N1) == [0x00, 0xC2, 0x01, 0x00, 0x00, 0x00, 0x08]
    ensures DecodeLineCoding([0x00, 0xC2, 0x01, 0x00, 0x00, 0x00, 0x08]) == Fixed115200_8N1
  {
    assert ToLittleEndian(115200, 4) == [0x00, 0xC2, 0x01, 0x00];
    DecodeEncode(Fixed115200_8N1);
  }

  /**
   * `cdc_control_request`: answer `bRequest` given the data-stage length
   * `*len` and the control buffer `*buf`. The new value of `*len` is
   * returned as `newLen`. `dev` and `complete` are unused by the source and
   * are not parameters here.
   */
  method ControlRequest(bRequest: bv8, len: u16, buf: array<byte>) returns (res: RequestResult, newLen: u16)
    requires bRequest == GET_LINE_CODING && len >= LineCodingSize ==> buf.Length >= LineCodingSize
    modifies buf
    ensures bRequest == SET_CONTROL_LINE_STATE ==> res == Handled
    ensures bRequest == SET_LINE_CODING ==> res == (if len == LineCodingSize then Handled else NotSupported)
    ensures bRequest == GET_LINE_CODING ==> res == (if len >= LineCodingSize then Handled else NotSupported)
    ensures bRequest != SET_CONTROL_LINE_STATE && bRequest != SET_LINE_CODING && bRequest != GET_LINE_CODING
            ==> res == NextCallback
    ensures bRequest == GET_LINE_CODING && len >= LineCodingSize ==>
              && newLen == LineCodingSize
              && buf[..LineCodingSize] == EncodeLineCoding(Fixed115200_8N1)
              && buf[LineCodingSize..] == old(buf[LineCodingSize..])
    ensures !(bRequest == GET_LINE_CODING && len >= LineCodingSize) ==> newLen == len && buf[..] == old(buf[..])
  {
    newLen := len;
    if bRequest == SET_CONTROL_LINE_STATE {
      res := Handled;
    } else if bRequest == SET_LINE_CODING {
      res := if len == LineCodingSize then Handled else NotSupported;
    } else if bRequest == GET_LINE_CODING {
      if len < LineCodingSize {
        return NotSupported, len;
      }
      buf[0] := 0x00;
      buf[1] := 0xC2;
      buf[2] := 0x01;
      buf[3] := 0x00;
      buf[4] := 0;
      buf[5] := 0;
      buf[6] := 8;
      newLen := LineCodingSize;
      FixedLineCodingBytes();
      res := Handled;
    } else {
      res := NextCallback;
    }
  }
}
