/**
 * The USB serial-number string of `src/usb_descriptors.c`: `word_to_hex`
 * and `usb_descriptors_set_unique_serial`.
 *
 * A 32-bit word becomes eight upper-case hexadecimal digits, most
 * significant nibble first, and the three words of the chip's unique ID are
 * laid out as `uid[2]`, `uid[1]`, `uid[0]` in a 25-character buffer ending
 * in NUL. The unique ID is a parameter here; reading it from the chip
 * (`desig_get_unique_id`) is not part of this model.
 */
module UsbDescriptors {
  import opened Bits

  /** Length of the `usb_serial` buffer. */
  const SerialBufferLength := 25

  function Pow16(k: nat): (p: nat)
    ensures p > 0
  {
    if k == 0 then 1 else 16 * Pow16(k - 1)
  }

  lemma {:induction false} Pow16Add(a: nat, b: nat)
    ensures Pow16(a) * Pow16(b) == Pow16(a + b)
    decreases a
  {
    if a > 0 {
      Pow16Add(a - 1, b);
      assert Pow16(a) * Pow16(b) == 16 * (Pow16(a - 1) * Pow16(b));
    }
  }

  lemma Pow16Values()
    ensures Pow16(7) == 0x1000_0000 && Pow16(8) == Two32
  {
    assert Pow16(1) == 16;
    assert Pow16(2) == 0x100;
    assert Pow16(3) == 0x1000;
    assert Pow16(4) == 0x1_0000;
    assert Pow16(5) == 0x10_0000;
    assert Pow16(6) == 0x100_0000;
  }

  /** Nibble `i` of `w`, counted from the most significant: `(w >> (28 - 4 * i)) & 0xF`. */
  function Nibble(w: nat, i: nat): (n: nat)
    requires i < 8
    ensures n < 16
  {
    (w / Pow16(7 - i)) % 16
  }

  predicate IsUpperHex(c: char)
  {
    '0' <= c <= '9' || 'A' <= c <= 'F'
  }

  /** The value of an upper-case hexadecimal digit character, or -1. */
  function HexValue(c: char): int
  {
    if '0' <= c <= '9' then c as int - '0' as int
    else if 'A' <= c <= 'F' then c as int - 'A' as int + 10
    else -1
  }

  /** The character `word_to_hex` writes for a nibble. */
  function HexDigit(nib: nat): (c: char)
    requires nib < 16
    ensures IsUpperHex(c) && HexValue(c) == nib
  {
    if nib < 10 then ('0' as int + nib) as char else ('A' as int + (nib - 10)) as char
  }

  /** The eight characters of `w`, most significant nibble first. */
  function Hex(w: nat): (s: seq<char>)
    ensures |s| == 8
    ensures forall i :: 0 <= i < 8 ==> IsUpperHex(s[i]) && HexValue(s[i]) == Nibble(w, i)
  {
    seq(8, i requires 0 <= i < 8 => HexDigit(Nibble(w, i)))
  }

  /** Hexadecimal digits read as a number, most significant first. */
  function HexDecode(s: seq<char>): int
  {
    if s == [] then 0 else 16 * HexDecode(s[..|s| - 1]) + HexValue(s[|s| - 1])
  }

  lemma Regroup(p: int, d: int, r: int, q: int)
    ensures (p * d + r) * q == d * (p * q) + r * q
    ensures ((p * d + r) * q) * 16 == d * (16 * (p * q)) + r * (q * 16)
  {
    assert (p * d + r) * q == (p * d) * q + r * q;
    assert (p * d) * q == d * (p * q);
  }

  lemma ScaleBelow(r: int, p: int, q: int)
    requires 0 <= r < p && q > 0
    ensures r * q < p * q && r * (q * 16) < 16 * (p * q)
  {
    MulSub(p, r, q);
    MulAtLeast(p - r, q);
  }

  /** A digit `d` above a remainder `r < p`, scaled by `q`: its top digit, and what is left after scaling it by 16 modulo `16 * p * q`. */
  lemma ScaledDigit(d: nat, r: nat, p: nat, q: nat)
    requires d < 16 && r < p && q > 0
    ensures ((p * d + r) * q) / (p * q) == d
    ensures (((p * d + r) * q) * 16) % (16 * (p * q)) == r * (q * 16)
  {
    Regroup(p, d, r, q);
    ScaleBelow(r, p, q);
    DivModUnique((p * d + r) * q, p * q, d, r * q);
    DivModUnique(((p * d + r) * q) * 16, 16 * (p * q), d, r * (q * 16));
  }

  /** The word `word_to_hex` holds after `i` shifts: the low `8 - i` nibbles of `w`, moved to the top. */
  ghost function Shifted(w: nat, i: nat): nat
    requires i <= 8
  {
    (w % Pow16(8 - i)) * Pow16(i)
  }

  /** One step of `word_to_hex`: the top nibble of the shifted word, and the word shifted once more. */
  lemma NibbleStep(w: u32, i: nat, x: nat)
    requires i < 8 && x == Shifted(w, i)
    ensures x / 0x1000_0000 == Nibble(w, i)
    ensures (x * 16) % Two32 == Shifted(w, i + 1)
  {
    var k := 7 - i;
    var p, q := Pow16(k), Pow16(i);
    var d, r := (w / p) % 16, w % p;
    ModMul(w, p, 16);
    assert Pow16(k + 1) == p * 16;
    assert w % Pow16(8 - i) == p * d + r;
    Pow16Add(k, i);
    Pow16Values();
    assert p * q == 0x1000_0000;
    assert 16 * (p * q) == Two32;
    assert x == (p * d + r) * q;
    ScaledDigit(d, r, p, q);
    assert Pow16(i + 1) == q * 16;
  }

  /**
   * `word_to_hex`: write the eight hex digits of `w` at `dst[at..at+8)`.
   * The C code takes `dst` as a `char *`; here it is the array and an offset.
   */
  method WordToHex(w: u32, dst: array<char>, at: nat)
    requires at + 8 <= dst.Length
    modifies dst
    ensures dst[at..at + 8] == Hex(w)
    ensures dst[..at] == old(dst[..at]) && dst[at + 8..] == old(dst[at + 8..])
  {
    ghost var hex, d0 := Hex(w), dst[..];
    var x: nat := w;
    Pow16Values();
    DivModUnique(w, Two32, 0, w);
    for i := 0 to 8
      invariant x == Shifted(w, i)
      invariant dst[at..at + i] == hex[..i]
      invariant dst[..at] == d0[..at] && dst[at + 8..] == d0[at + 8..]
    {
      NibbleStep(w, i, x);
      ghost var top := x / 0x1000_0000;
      MaskIsMod(top, 16);
      ModNear(top, 16);
      var nib := BitAnd(x / 0x1000_0000, 0xF);
      assert nib == Nibble(w, i);
      x := (x * 16) % Two32;
      dst[at + i] := HexDigit(nib);
      assert dst[at..at + i + 1] == dst[at..at + i] + [hex[i]];
    }
    assert dst[at..at + 8] == hex[..8];
  }

  /** Decoding the first `k` digits of `Hex(w)` gives the top `k` nibbles of `w`. */
  lemma {:induction false} HexPrefixDecodes(w: u32, k: nat)
    requires k <= 8
    ensures HexDecode(Hex(w)[..k]) == w / Pow16(8 - k)
  {
    if k == 0 {
      Pow16Values();
      DivModUnique(w, Two32, 0, w);
    } else {
      var s := Hex(w)[..k];
      assert s[..k - 1] == Hex(w)[..k - 1];
      HexPrefixDecodes(w, k - 1);
      var q := w / Pow16(8 - k);
      ModMul(w, Pow16(8 - k), 16);
      assert Pow16(8 - (k - 1)) == Pow16(8 - k) * 16;
      assert HexDecode(s) == 16 * (q / 16) + q % 16;
    }
  }

  /** The eight digits of a 32-bit word read back as that word. */
  lemma HexRoundTrip(w: u32)
    ensures HexDecode(Hex(w)) == w
    ensures forall i :: 0 <= i < 8 ==> IsUpperHex(Hex(w)[i])
  {
    HexPrefixDecodes(w, 8);
    assert Hex(w)[..8] == Hex(w);
  }

  /** The serial-number string: `uid[2]`, `uid[1]`, `uid[0]` in hex. */
  function SerialNumber(uid: seq<u32>): (s: seq<char>)
    requires |uid| == 3
    ensures |s| == 24
  {
    Hex(uid[2]) + Hex(uid[1]) + Hex(uid[0])
  }

  /** A C string's characters: everything before the first NUL. */
  function CString(s: seq<char>): (r: seq<char>)
    ensures '\0' !in r
    ensures |r| <= |s| && r == s[..|r|]
    ensures |r| < |s| ==> s[|r|] == '\0'
  {
    if s == [] || s[0] == '\0' then [] else [s[0]] + CString(s[1..])
  }

  /** A string without NUL, terminated by one, reads back as itself. */
  lemma {:induction false} CStringTerminated(s: seq<char>)
    requires '\0' !in s
    ensures CString(s + ['\0']) == s
  {
    if s != [] {
      assert (s + ['\0'])[1..] == s[1..] + ['\0'];
      CStringTerminated(s[1..]);
    }
  }

  /** The serial number is 24 upper-case hex digits. */
  lemma SerialNumberIsHex(uid: seq<u32>)
    requires |uid| == 3
    ensures forall i :: 0 <= i < 24 ==> IsUpperHex(SerialNumber(uid)[i])
  {
    var s := SerialNumber(uid);
    forall i | 0 <= i < 24
      ensures IsUpperHex(s[i])
    {
      if i < 8 {
        assert s[i] == Hex(uid[2])[i];
      } else if i < 16 {
        assert s[i] == Hex(uid[1])[i - 8];
      } else {
        assert s[i] == Hex(uid[0])[i - 16];
      }
    }
  }

  /** Each 8-digit group of the serial number decodes to its word, and the NUL-terminated buffer reads back as the serial number. */
  lemma SerialNumberDecodes(uid: seq<u32>)
    requires |uid| == 3
    ensures HexDecode(SerialNumber(uid)[0..8]) == uid[2]
    ensures HexDecode(SerialNumber(uid)[8..16]) == uid[1]
    ensures HexDecode(SerialNumber(uid)[16..24]) == uid[0]
    ensures CString(SerialNumber(uid) + ['\0']) == SerialNumber(uid)
  {
    var s := SerialNumber(uid);
    assert s[0..8] == Hex(uid[2]);
    assert s[8..16] == Hex(uid[1]);
    assert s[16..24] == Hex(uid[0]);
    HexRoundTrip(uid[2]);
    HexRoundTrip(uid[1]);
    HexRoundTrip(uid[0]);
    SerialNumberIsHex(uid);
    assert '\0' !in s;
    CStringTerminated(s);
  }

  /** The placeholder `usb_serial` holds before the serial is set. */
  function InitialSerial(): (s: seq<char>)
    ensures |s| == SerialBufferLength && CString(s) == "STM32 Unique ID"
  {
    var placeholder := "STM32 Unique ID";
    var s := placeholder + seq(10, _ => '\0');
    assert CString(s[15..]) == [];
    assert s[15..] == seq(10, _ => '\0');
    s
  }

  /**
   * `usb_descriptors_set_unique_serial` on the `usb_serial` buffer: the three
   * eight-digit groups and a terminating NUL.
   */
  method SetUniqueSerial(uid: seq<u32>, serial: array<char>)
    requires |uid| == 3 && serial.Length == SerialBufferLength
    modifies serial
    ensures serial[..] == SerialNumber(uid) + ['\0']
  {
    WordToHex(uid[2], serial, 0);
    WordToHex(uid[1], serial, 8);
    WordToHex(uid[0], serial, 16);
    serial[24] := '\0';
    assert serial[..] == serial[0..8] + serial[8..16] + serial[16..24] + [serial[24]];
  }

  /**
   * The serial-number string descriptor before and after
   * `usb_descriptors_set_unique_serial`: it reads as the placeholder, and
   * then as the 24 hex digits of the unique ID.
   */
  method SerialLifecycle(uid: seq<u32>) returns (before: seq<char>, after: seq<char>)
    requires |uid| == 3
    ensures CString(before) == "STM32 Unique ID"
    ensures CString(after) == SerialNumber(uid) && |SerialNumber(uid)| == 24
  {
    var init := InitialSerial();
    var serial := new char[SerialBufferLength](i requires 0 <= i < SerialBufferLength => init[i]);
    assert serial[..] == init;
    before := serial[..];
    SetUniqueSerial(uid, serial);
    after := serial[..];
    SerialNumberDecodes(uid);
  }
}
