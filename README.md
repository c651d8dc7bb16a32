# STM32 head-unit interface: ring buffer, CDC requests and USB serial number

This project models, in Dafny, the three self-contained pieces of logic in the
firmware of an STM32 board that bridges a radio head unit's UART to USB CDC.

- **The power-of-two ring buffer** (`src/ringbuf.h`, `src/ringbuf.c`).
  - `Ringbuf.RingBuffer` is a class with the caller's storage (`array<byte>`), `size`, `head`, `tail` and a "write-notify callback registered" flag.
  - Its ghost field `Contents` holds the live bytes, oldest first, from `tail` to `head` with wrap-around. `Valid()` ties the two.
  - `ringbuf_mask` is `Ringbuf.RingBuffer.Mask`. The index wrap `(index + 1) & (size - 1)` is modelled as a bitwise AND (`Bits.BitAnd`). `Bits.MaskIsMod` proves it is reduction modulo `size` for a power-of-two `size`.
  - `(head - tail) & mask` is taken on a 32-bit C `int` (`Bits.Int32Bits`) first, as C integer promotion does.
  - The bulk `ringbuf_read`/`ringbuf_write` live in `RingbufBulk`. They take a nullable `RingBuffer?`, on which they do nothing and return 0.
  - The callback is modelled by the flag and the ghost counter `notifications`: how often `ringbuf_write` has called it.
  - `RingbufBulk.Run` replays any sequence of writes and reads on the abstract contents. `RingbufBulk.FifoTrace` proves the FIFO property for every such sequence.
  - `RingbufScenarios` restates each test group of the regression program `src/t/ringbuf_test.c` as a verified method. The program runs its tests on one buffer in turn. Each method starts from a fresh buffer set empty at the index where the program's earlier tests leave it (`RingbufScenarios.EmptyAt`), so the fills of tests 5 and 7 wrap past the end of the storage as they do in the program.
- **The CDC class request hook** `cdc_control_request` (`src/usb_cdc.c`), as `UsbCdc.ControlRequest`.
  - It handles SetLineCoding, GetLineCoding and SetControlLineState, defined in sections 6.3.10 to 6.3.12 of the USB CDC PSTN subclass 1.2.
  - The 7-byte line-coding structure of Table 17 of that document has an encoder and a decoder, proved inverse to each other. The bytes that GetLineCoding writes are proved to encode 115200 baud, 1 stop bit, no parity, 8 data bits.
- **The USB serial-number string** (`src/usb_descriptors.c`).
  - `word_to_hex` is a loop over a 32-bit word, shifting left by 4. It is modelled on `nat`: `>> 28` is division by 2^28, `<<= 4` is multiplication by 16 modulo 2^32, and `& 0xF` is `BitAnd`.
  - `UsbDescriptors.Hex` is the eight digits of a word, most significant nibble first. `UsbDescriptors.WordToHex` is proved to write `Hex(w)`, which is proved to decode back to `w`.
  - `usb_descriptors_set_unique_serial` is `UsbDescriptors.SetUniqueSerial`. Its unique-ID words are a parameter.

`Bits` holds the integer types and the arithmetic lemmas the others use.

The regression program sets the callback through a `write_notify_cb_ctx` field and a callback that takes a context argument. Neither exists in `ringbuf_t`, whose callback takes no argument (`src/ringbuf.h:15-23`). The model follows the header and keeps only what the test asserts: how often the callback fires.

## Model

| member | source | states |
|---|---|---|
| Bits.MaskIsMod | src/ringbuf.h:39-47 | masking with `p - 1` (`Ringbuf.RingBuffer.Mask`, which is `size - 1`) equals reduction modulo `p` whenever `p` is a power of two |
| Bits.Int32MaskIsMod | src/ringbuf.h:60-63 | for a power-of-two `p` up to 2^32, masking the 32-bit pattern of any `int`, negative ones included, with `p - 1` gives its Euclidean remainder modulo `p` |
| Ringbuf.RingBuffer.Init | src/ringbuf.h:29-36 | the buffer uses the given storage and size, holds no bytes, has no callback, is empty, has count 0 and free `size - 1`, and is full only when `size` is 1 |
| Ringbuf.RingBuffer.Next | src/ringbuf.h:44-47 | for a power-of-two size, the masked successor is in `[0, size)` and equals `(index + 1) mod size` |
| Ringbuf.RingBuffer.Empty | src/ringbuf.h:50-53 | `head == tail` holds exactly when no byte is held |
| Ringbuf.RingBuffer.Full | src/ringbuf.h:55-58 | `next(head) == tail` holds exactly when `size - 1` bytes are held |
| Ringbuf.RingBuffer.Count | src/ringbuf.h:60-63 | the masked index difference is the number of bytes held, is at most `size - 1` and equals `(head - tail) mod size` |
| Ringbuf.RingBuffer.Free | src/ringbuf.h:65-68 | the free slots are `size - 1` minus the bytes held, so count plus free is `size - 1`, and free is 0 exactly when full |
| Ringbuf.RingBuffer.StatusAgree | src/ringbuf.h:50-68 | on a valid buffer, empty holds iff count is 0, full holds iff count is `size - 1`, and count plus free is `size - 1` |
| Ringbuf.RingBuffer.Flush | src/ringbuf.h:70-73 | all unread bytes are dropped, `head` is kept and the buffer is empty with `size - 1` free |
| Ringbuf.RingBuffer.Put | src/ringbuf.h:76-84 | on a full buffer nothing changes. Otherwise `b` is stored at the old `head`, `head` advances, `b` is appended to the contents and no other slot changes. `tail` and the callback count are untouched |
| Ringbuf.RingBuffer.Get | src/ringbuf.h:86-94 | returns 0 and changes nothing (`*out` included) when empty. Otherwise returns 1 with `*out` the oldest byte, removes only that byte and advances `tail`. `head` and the callback count are untouched |
| RingbufBulk.Accepted | src/ringbuf.c:23-27 | the bytes a write accepts are a prefix of the source of length `min(len, room)`, never overfill, and fill the buffer exactly when `len` is at least the room |
| RingbufBulk.Taken | src/ringbuf.c:9-13 | a read takes `min(len, held)` bytes, and they are the oldest ones |
| RingbufBulk.CopyOut | src/ringbuf.c:9-13 | the loop moves the oldest `min(len, held)` bytes into `dst[0..n)` in order, leaves the rest of `dst`, and advances `tail` by `n` with wrap-around |
| RingbufBulk.Read | src/ringbuf.c:3-15 | on NULL returns 0 and writes nothing. Otherwise returns `min(len, count)`, puts exactly those oldest bytes in order into `dst[0..n)`, leaves the rest of `dst`, and removes them. `head`, the storage and the callback count are untouched |
| RingbufBulk.CopyIn | src/ringbuf.c:23-27 | the loop appends `src[0..n)` with `n = min(len, free)` and advances `head` by `n` with wrap-around. Storage slots outside the `n` written from the old `head` keep their bytes, and so does storage beyond `size` |
| RingbufBulk.Write | src/ringbuf.c:17-39 | on NULL returns 0. Otherwise returns `min(len, free)` and appends exactly the accepted prefix of `src`. `head` advances by `n`, `tail` is kept, and the buffer ends full iff `len >= free`. Storage slots other than the `n` written from the old `head` keep their bytes. The callback fires exactly once iff registered and (`n > 0` or full afterwards), equivalently iff registered and (`len > 0` or it was already full) |
| RingbufBulk.SetWriteNotifyFn | src/ringbuf.c:41-45 | only the callback field changes. Storage, size, indices, contents and the callback count are kept, and so is validity |
| RingbufBulk.FifoTrace | src/ringbuf.c:3-39 | for any interleaving of writes and reads, the bytes delivered followed by those still held are the bytes held at the start followed by every byte accepted |
| RingbufBulk.RunWithinCapacity | src/ringbuf.c:23-27 | for any interleaving of writes and reads the buffer never holds more than its capacity |
| RingbufBulk.RoundTrip | src/ringbuf.c:3-39 | writing any sequence that fits into an empty buffer and reading as many bytes back delivers exactly that sequence and leaves the buffer empty |
| RingbufScenarios.NewBuffer | src/t/ringbuf_test.c:36-40 | an 8-slot buffer on fresh storage is valid, empty and has no callback |
| RingbufScenarios.InitPutGet | src/t/ringbuf_test.c:39-54 | a fresh buffer is empty, not full, with count 0 and free 7. After putting 0x11 the count is 1, and `get` returns 1 with 0x11 and leaves it empty |
| RingbufScenarios.BulkWriteRead | src/t/ringbuf_test.c:56-68 | from index 1, writing `[1,2,3,4]` stores 4, count is 4, and reading 4 returns 4 bytes `[1,2,3,4]` and leaves it empty |
| RingbufScenarios.EmptyAt | src/t/ringbuf_test.c:71-73 | flushing and then setting both indices to the same slot leaves a valid, empty buffer at that slot |
| RingbufScenarios.WrapAround | src/t/ringbuf_test.c:70-82 | from `head = tail = 6`, writing `[9,8,7,6]` stores 4 and wraps `head` to 2, and reading 4 returns `[9,8,7,6]` |
| RingbufScenarios.FillAndDrain | src/t/ringbuf_test.c:84-107 | after the flush at index 2, offering 8 bytes stores 7, wraps `head` to 1 and makes the buffer full. A further write stores 0 and it stays full. Reading 8 returns 7 bytes `0..6` and leaves it empty |
| RingbufScenarios.NotifyOnWrite | src/t/ringbuf_test.c:109-128 | from index 1, with the callback registered, each of two 2-byte writes stores 2 bytes and fires it once |
| RingbufScenarios.NotifyWhenFull | src/t/ringbuf_test.c:130-143 | after the flush at index 5, filling the buffer stores 7 and wraps `head` to 4. A write into the full buffer stores 0 but fires the callback once. A read of 7 bytes does not fire it |
| RingbufScenarios.NullBuffer | src/t/ringbuf_test.c:145-147 | read and write on a missing buffer return 0 |
| UsbCdc.LittleEndian | src/usb_cdc.c:49-52 | bytes read least significant first give a value below 256 raised to their count |
| UsbCdc.LittleEndianOfTo | src/usb_cdc.c:49-52 | the `n` low bytes of any value below 256^n read back as that value |
| UsbCdc.ToOfLittleEndian | src/usb_cdc.c:49-52 | any byte sequence is the little-endian encoding of the number it denotes |
| UsbCdc.EncodeLineCoding | src/usb_cdc.c:48-55 | a line coding is 7 bytes: the first four read little-endian as the data rate, then the stop-bit, parity and data-bit codes |
| UsbCdc.DecodeEncode | src/usb_cdc.c:48-55 | decoding the 7 bytes of any line coding gives it back |
| UsbCdc.EncodeDecode | src/usb_cdc.c:48-55 | every 7-byte sequence is the encoding of the line coding it decodes to |
| UsbCdc.FixedLineCodingBytes | src/usb_cdc.c:48-55 | the bytes `00 C2 01 00 00 00 08` are exactly the line coding 115200 baud, 1 stop bit, no parity, 8 data bits, in both directions |
| UsbCdc.ControlRequest | src/usb_cdc.c:22-62 | SetControlLineState is handled. SetLineCoding is handled iff `len == 7`, else not supported. GetLineCoding is not supported when `len < 7`. Otherwise it is handled, `buf[0..7)` holds 115200 8N1, `len` becomes 7 and later bytes are kept. Any other request goes to the next callback. `buf` and `len` are unchanged on every path but the handled GetLineCoding |
| UsbDescriptors.Hex | src/usb_descriptors.c:188-195 | eight characters, each an upper-case hex digit whose value is the matching nibble of `w`, most significant first |
| UsbDescriptors.HexDigit | src/usb_descriptors.c:193 | the digit written for a nibble is upper-case hexadecimal and has that nibble as its value |
| UsbDescriptors.NibbleStep | src/usb_descriptors.c:191-192 | after `i` shifts left by 4 bits the top nibble of the word is nibble `i` of the original, and one more shift leaves the low `7 - i` nibbles at the top |
| UsbDescriptors.WordToHex | src/usb_descriptors.c:188-195 | writes exactly `dst[at..at+8)` with the eight hex digits of `w`, most significant first, and nothing else |
| UsbDescriptors.HexPrefixDecodes | src/usb_descriptors.c:190-194 | the first `k` digits decode to the top `k` nibbles of the word |
| UsbDescriptors.HexRoundTrip | src/usb_descriptors.c:190-194 | the eight digits are upper-case hex and decode back to the word |
| UsbDescriptors.CString | src/usb_descriptors.c:177 | a C string is the NUL-free prefix before the first NUL |
| UsbDescriptors.CStringTerminated | src/usb_descriptors.c:209 | a NUL-free string followed by NUL reads back as itself |
| UsbDescriptors.SerialNumberIsHex | src/usb_descriptors.c:205-207 | all 24 characters are upper-case hex digits |
| UsbDescriptors.SerialNumberDecodes | src/usb_descriptors.c:205-209 | characters `[0..8)`, `[8..16)` and `[16..24)` decode to `uid[2]`, `uid[1]` and `uid[0]`, and the NUL-terminated buffer reads as the 24-digit string |
| UsbDescriptors.InitialSerial | src/usb_descriptors.c:177 | the buffer starts as 25 characters reading "STM32 Unique ID" |
| UsbDescriptors.SetUniqueSerial | src/usb_descriptors.c:198-210 | the 25-character buffer becomes `hex(uid[2]) ++ hex(uid[1]) ++ hex(uid[0])` followed by NUL |
| UsbDescriptors.SerialLifecycle | src/usb_descriptors.c:177-209 | the serial string reads "STM32 Unique ID" before the unique ID is set, and the 24 hex digits of `uid[2]`, `uid[1]`, `uid[0]` after |

## Left out

- Interrupt-context access and `volatile` on `head`/`tail` (`src/ringbuf.h:20-21`). The model covers sequential calls only.
- What the write-notify callback does. Only the number of calls is modelled.
- `RingbufBulk.Read`: requires that `dst` differ from the ring's own storage. The C code does not exclude that aliasing, but the contract's copy-out reading of `dst` would then not hold.
- `RingbufBulk.Write`: requires that `src` differ from the ring's own storage, for the same reason.
- `RingbufBulk.Read`, `RingbufBulk.Write`: `len` is an unbounded integer. Negative values count as zero iterations, as in the C loop. The 32-bit width of C `int` is not modelled because no loop can count past it.
- `Ringbuf.RingBuffer.Get`: `*out` is an in-out cell. Its value before the call is a parameter, and its value after the call is a result.
- The wiring in `src/main.c`, where `ringbuf_init` is given `sizeof(ringbuf_t)` instead of the storage size (`src/main.c:86-87`). This is a caller's argument, not ring-buffer logic. The model's `Init` requires a power of two no larger than the storage.
- The clocks, GPIO, polling loop and fault handler of `src/main.c`, and the USART configuration of `src/usart.c`. These are hardware I/O.
- The UART/USB bridge functions named in `src/usart.h:15-21` and `src/main.c:89-90,103`. They are declared but not defined in the available sources.
- `usb_cdc_setup`, `usb_cdc_poll`, `usb_set_config` and `src/usb_core.c`. These set up the USB stack and its endpoints through library calls. Which `bmRequestType` reaches `cdc_control_request` is decided by that registration and is not part of this model.
- `cdc0_data_rx_cb` (`src/usb_cdc.c:68-76`), an echo built on the library's endpoint read and write calls.
- `UsbCdc.ControlRequest`: the `dev` and `complete` arguments are unused by the source and are not parameters. `*buf` is the control buffer, passed as an array. The only thing required of it is what the GetLineCoding path writes.
- The device and configuration descriptor tables and the constant strings (`src/usb_descriptors.c:13-168,181-185`). They are constant data.
- Reading the chip's unique ID (`desig_get_unique_id`). The three words are a parameter of `UsbDescriptors.SetUniqueSerial`.
