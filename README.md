# serial_joytisck core, modelled in Dafny

This project models three byte-level components of the serial joystick
host application. Each one is proved against a functional specification.

- **Bootloader client** (`bootloader.dfy`, module `Bootloader`). This is the
  host side of the firmware download:
  - the transfer frame `[addr, func, seq, len, data…, ckHi, ckLo]` and its
    8-bit additive checksum;
  - the word-oriented CRC-32 over the image (polynomial 0x04C11DB7, words
    packed little-endian, shifted MSB-first, result complemented);
  - the wrapping `u8` sequence counter;
  - `download_firmware`, which cuts the image into chunks of at most 512
    bytes and sends them, then an optional CRC frame, then an empty end
    frame.

  `BootloaderClient` is a class. Its fields are the sequence number, the CRC
  switch, and a ghost log of the frames the port accepted, together with
  their encodings. `DownloadFirmware` is proved to append the prefix of an
  independent plan, `PlannedFrames`, up to the first refused write.
  `SendChunks` and `SendTrailer` are proved against the two parts of that
  plan, `DataFrames` and `TrailerFrames`. Each single-frame method is proved
  to append its one frame when the write is accepted, and nothing otherwise.
- **Serial packet reassembly** (`serial.dfy`, module `Serial`).
  `SerialManager::read`:
  - appends the bytes one port read delivered to an internal buffer;
  - hands out the first 24-byte window framed by 0xAA and 0xBF;
  - drops everything up to and including that window;
  - when no window is found and more than 1024 bytes are buffered, keeps
    only the bytes from the last 0xAA on.

  `SerialManager` is a class with a `seq<bv8>` buffer. `Read` is proved
  against the function `Receive`.
- **Telemetry parser** (`matrix.dfy`, module `Matrix`).
  - `parse_data` searches backwards for the latest 24-byte frame whose XOR
    checksum holds. Failing that, it takes the latest frame that is merely
    delimited and marks it invalid. It decodes the index, 24 key bits,
    14 ADC bytes and 20 LED bits.
  - `read_and_parse` reads one packet through the serial manager. It keeps
    an error counter that stops at 5, and it replaces or marks the stored
    data.

  The field loops and the backward scan of `parse_data` are module-level
  methods, proved against `Decode` and `LastAccepted`; `ParseData` combines
  them and is proved against `Parse`. `DataParser` is a class whose
  `ReadAndParse` is proved against `Absorb` and `NextErrorCount`.

`wrappers.dfy` holds the `Option` and `Result` types. Paths below are
relative to the repository root.

## Model

| member | source | states |
|---|---|---|
| Bootloader.Checksum | docs/bootloader_client_simple.rs:63-69 | the checksum is at most 0xFF, and adding it to the byte sum of the frame gives a multiple of 256 |
| Bootloader.CalcChecksum | docs/bootloader_client_simple.rs:63-69 | the `u16` wrapping-sum loop computes exactly `Checksum` |
| Bootloader.Encode | docs/bootloader_client_simple.rs:38-57 | a frame is 4 + len + 2 bytes: address, function, sequence number, payload length mod 256 (a 512-byte payload gets length byte 0), the payload unchanged, a high checksum byte that is always 0, and then the checksum; all its bytes sum to 0 mod 256 |
| Bootloader.FullChunkLengthByte | docs/bootloader_client_simple.rs:38 | the frame of a full 512-byte chunk carries length byte 0, because `len as u8` truncates |
| Bootloader.ToBytes | docs/bootloader_client_simple.rs:38-57 | the push-by-push construction yields `Encode(f)` |
| Bootloader.ReadWord | docs/bootloader_client_simple.rs:77-85 | the inner loop packs the four bytes from the offset little-endian, reading bytes past the end as zero |
| Bootloader.ShiftWord | docs/bootloader_client_simple.rs:89-95 | the 32 conditional shift-and-xor steps equal 32 applications of the MSB-first polynomial step |
| Bootloader.CalcCrc32 | docs/bootloader_client_simple.rs:72-99 | the two nested loops compute `Crc32`: start at 0xFFFFFFFF, take ⌈len/4⌉ words, and complement the result |
| Bootloader.Crc32 | docs/bootloader_client_simple.rs:73-74 | the CRC of the empty image is 0 (no words, complement of 0xFFFFFFFF) |
| Bootloader.ShiftedInitial | docs/bootloader_client_simple.rs:89-95 | the 32 shift steps take the initial accumulator 0xFFFFFFFF to 0xC704DD7B |
| Bootloader.Crc32ZeroWord | docs/bootloader_client_simple.rs:72-99 | the CRC of one zero word is 0x38FB2284 |
| Bootloader.CrcZeroPadding | docs/bootloader_client_simple.rs:74-85 | appending zero bytes that stay within the last word does not change the CRC |
| Bootloader.CrcPayloadPacks | docs/bootloader_client_simple.rs:161-168 | the CRC payload is the four little-endian bytes of the CRC: packing them back gives the CRC |
| Bootloader.ChunksCover | docs/bootloader_client_simple.rs:232-261 | the chunks concatenate to the image, there are ⌈len/512⌉ of them, and each holds 1 to 512 bytes |
| Bootloader.ChunkAt | docs/bootloader_client_simple.rs:233-234 | chunk k is the slice of the image from k·512 to min(len, (k+1)·512) |
| Bootloader.LastChunkLength | docs/bootloader_client_simple.rs:233 | the last chunk holds len mod 512 bytes, or 512 when that is 0 |
| Bootloader.PercentBounds | docs/bootloader_client_simple.rs:245 | the progress percentage is at most 100, and exactly 100 on the last chunk |
| Bootloader.SeqAtWraps | docs/bootloader_client_simple.rs:193-197 | the sequence number k steps after s is (s + k) mod 256 |
| Bootloader.PlannedFramesShape | docs/bootloader_client_simple.rs:201-291 | the planned frames are the data chunks in order, the CRC frame of the image only with CRC enabled, then an empty end frame; all carry device address 1 and sequence numbers s, s+1, … mod 256 |
| Bootloader.PlannedTail | docs/bootloader_client_simple.rs:265-279 | after the data frames come the CRC frame (function 0x06) when enabled, and then the end frame (function 0x01, no data) |
| Bootloader.BootloaderClient.constructor | docs/bootloader_client_simple.rs:111-129 | a new client starts at sequence number 0 with nothing sent |
| Bootloader.BootloaderClient.NextSeq | docs/bootloader_client_simple.rs:193-197 | returns the current sequence number and leaves it incremented mod 256 |
| Bootloader.BootloaderClient.Send | docs/bootloader_client_simple.rs:132-137 | a frame the port accepts is appended to the log with its encoding; a refused one is not, and the failure is returned |
| Bootloader.BootloaderClient.SendDataChunk | docs/bootloader_client_simple.rs:149-158 | sends a data frame (function 0x01) with the next sequence number; the number advances even when the write fails |
| Bootloader.BootloaderClient.SendCrc | docs/bootloader_client_simple.rs:161-178 | sends a CRC frame (function 0x06) whose payload is the CRC's little-endian bytes, with the next sequence number |
| Bootloader.BootloaderClient.SendEnd | docs/bootloader_client_simple.rs:181-190 | sends the empty end frame (function 0x01) with the next sequence number |
| Bootloader.BootloaderClient.SendChunks | docs/bootloader_client_simple.rs:230-261 | the `while sent < total` loop sends the planned data frames in order up to the first refused write; it succeeds exactly when all are delivered, and reports each chunk's percentage |
| Bootloader.BootloaderClient.SendTrailer | docs/bootloader_client_simple.rs:265-279 | sends the optional CRC frame and the end frame, stopping at the first refused write |
| Bootloader.BootloaderClient.DownloadFirmware | docs/bootloader_client_simple.rs:201-291 | the log grows by the prefix of `PlannedFrames` up to the first refused write; the result is Ok exactly when every planned frame was delivered; the sequence number ends |plan| (or delivered + 1) steps on |
| Serial.FirstPacketFrom | src-tauri/src/serial.rs:57-65 | the lowest start from i on of a 24-byte window framed by 0xAA and 0xBF, and no earlier one; None when there is none |
| Serial.LastIndexBefore | src-tauri/src/serial.rs:81-87 | the highest index below n that holds the byte, with none after it; None when there is none |
| Serial.Trimmed | src-tauri/src/serial.rs:76-96 | a suffix of the buffer: the whole buffer up to 1024 bytes; beyond that, a suffix that starts at the last 0xAA and holds no later one, or empty when no 0xAA is past index 0 |
| Serial.ReceivePacket | src-tauri/src/serial.rs:67-74 | a packet handed out starts with 0xAA and ends with 0xBF, no earlier window is a packet, and the old buffer plus the new bytes split into dropped prefix, packet and kept rest |
| Serial.ReceiveKeeps | src-tauri/src/serial.rs:45-49 | without a packet and with at most 1024 bytes, the new bytes are appended in order and nothing is dropped |
| Serial.ReceiveShort | src-tauri/src/serial.rs:57-65 | fewer than 24 buffered bytes yield no packet and keep every byte |
| Serial.ScanLimit | src-tauri/src/serial.rs:58 | the scan bound `len - 24` in 64-bit `usize`; it equals len - 24 when len is at least 24 |
| Serial.ShortBufferScanOverruns | src-tauri/src/serial.rs:58 | with fewer than 24 bytes buffered, the wrapped bound admits index len, so the scan reads past the buffer |
| Serial.SerialManager.constructor | src-tauri/src/serial.rs:13-25 | a new manager has its port and an empty buffer |
| Serial.SerialManager.Close | src-tauri/src/serial.rs:114-117 | the port is gone afterwards |
| Serial.SerialManager.Read | src-tauri/src/serial.rs:38-103 | without a port: Err, and buffer and output untouched; with a port, the buffer becomes `Receive(old buffer, incoming).rest`; Ok(24) with the packet in `out[0..24]` when there is one, Ok(0) and `out` untouched otherwise |
| Serial.SerialManager.FindPacket | src-tauri/src/serial.rs:51-65 | the forward scan finds a packet exactly when one exists, and finds the first |
| Serial.SerialManager.LastHead | src-tauri/src/serial.rs:81-87 | the reverse scan gives the position of the last 0xAA, or 0 when there is none |
| Serial.SerialManager.CopyPacket | src-tauri/src/serial.rs:69 | the packet window is copied to the front of the output, and the rest of the output is untouched |
| Matrix.DefaultData | src-tauri/src/matrix.rs:16-27 | index 0, all keys and LEDs off, all ADC values 0, no raw data, invalid |
| Matrix.LastAccepted | src-tauri/src/matrix.rs:122-165 | the highest window start below n that the scan accepts, with no accepted start after it; None when there is none |
| Matrix.XorPrefix | src-tauri/src/matrix.rs:130-137 | one more loop step folds the next byte into the XOR of the prefix |
| Matrix.Parse | src-tauri/src/matrix.rs:116-118 | the result always has 24 keys, 14 ADC values and 20 LEDs, and its raw data is the input |
| Matrix.ParseValidIff | src-tauri/src/matrix.rs:122-137 | the result is valid exactly when some window starts with 0xAA, ends with 0xBF, and its byte 22 equals the XOR of bytes 0 to 21 |
| Matrix.ParseLatest | src-tauri/src/matrix.rs:122-165 | among checksum-valid windows, the one with the highest start is decoded, and the result is valid |
| Matrix.ParseFallback | src-tauri/src/matrix.rs:168-201 | with no checksum-valid window, the latest delimited window is decoded and marked invalid |
| Matrix.ParseDefault | src-tauri/src/matrix.rs:203 | with no delimited window, the result is the default carrying the input as raw data |
| Matrix.ParseTooShort | src-tauri/src/matrix.rs:122 | a 23-byte input scans nothing and gives the default |
| Matrix.KeysAreKeyWordBits | src-tauri/src/matrix.rs:139-144 | key k is bit k of the little-endian word formed by bytes 2 to 4 |
| Matrix.TestFrameChecksum | debug_parser.rs:3-27 | the XOR of bytes 0 to 21 of the recorded frame is 0x6E, its checksum byte |
| Matrix.TestFrameFields | debug_parser.rs:3-8 | the recorded frame decodes as index 0x47, with only keys 16 and 17 pressed, the ADC bytes as recorded (channels 0 to 3 and 7 at 0x80) and every LED off |
| Matrix.TestFrameKeys | debug_parser.rs:3-8 | of the recorded frame's 24 key flags only 16 and 17 are set |
| Matrix.TestFrameLeds | debug_parser.rs:3-8 | all 20 LED flags of the recorded frame are clear |
| Matrix.TestFrameParses | src-tauri/src/matrix.rs:122-159 | `parse_data` accepts the recorded frame as valid and decodes it |
| Matrix.ParseOneFrame | src-tauri/src/matrix.rs:101-103 | a 24-byte delimited packet decodes as itself, valid exactly when its checksum holds |
| Matrix.FrameXor | src-tauri/src/matrix.rs:130-137 | the loop yields the XOR of bytes 0 to 21 |
| Matrix.FillBits | src-tauri/src/matrix.rs:139-157 | the key and LED loops set flag k to bit k mod 8 of byte at + k/8 |
| Matrix.FillAdc | src-tauri/src/matrix.rs:146-149 | the ADC loop copies bytes 5 to 18 |
| Matrix.DecodeFrame | src-tauri/src/matrix.rs:138-159 | the field loops produce `Decode` of the frame |
| Matrix.WindowChecksum | src-tauri/src/matrix.rs:126-131 | the checksum bytes of the window slice are those of the input |
| Matrix.Scan | src-tauri/src/matrix.rs:122-165 | each backward scan returns the highest accepted window start |
| Matrix.ParseData | src-tauri/src/matrix.rs:116-204 | the two scans and the field loops compute `Parse` |
| Matrix.CountStaysBounded | src-tauri/src/matrix.rs:85-96 | over any run of reads, the error counter never exceeds 5 |
| Matrix.FailureRun | src-tauri/src/matrix.rs:85-96 | k failed reads in a row are reported min(k, 5 - count) times, and the counter ends at min(count + k, 5) |
| Matrix.SuccessResets | src-tauri/src/matrix.rs:79-84 | a successful read clears the counter, whatever came before |
| Matrix.CountAfterAppend | src-tauri/src/matrix.rs:78-96 | the counter after two runs of reads is the second run applied to the counter after the first |
| Matrix.AbsorbPacket | src-tauri/src/matrix.rs:104-110 | a valid packet replaces the stored data whole; an invalid one changes only raw data and the valid flag |
| Matrix.ReceivedPacketAbsorbed | src-tauri/src/matrix.rs:99-110 | a packet from the serial manager is delimited, so it is either decoded in full or only marks the stored data invalid |
| Matrix.DataParser.constructor | src-tauri/src/matrix.rs:37-44 | not connected, default data, counter 0 |
| Matrix.DataParser.Connect | src-tauri/src/matrix.rs:46-52 | takes the manager and resets the counter |
| Matrix.DataParser.Disconnect | src-tauri/src/matrix.rs:54-63 | closes the manager's port, drops the manager and resets the counter |
| Matrix.DataParser.ReadAndParse | src-tauri/src/matrix.rs:65-114 | without a manager: Err and nothing changes; on a failed read the counter follows `NextErrorCount` and Err is returned only below 5; on a successful read the counter is 0, the result is Ok, and the stored data is `Absorb`ed from the packet or left unchanged |

## Left out

- Serial port I/O (opening, settings, `write`, `read`, `list_ports`) is not modelled. A port read is the `incoming` argument of `Read`; a failed port read (`unwrap_or(0)`) is an empty `incoming`. A bootloader write that fails is the `portFailsAt` argument, the index of the first write the port refuses.
- `tokio::Mutex` and `Arc` are not modelled: every method runs atomically.
- Not modelled in `download_firmware`: reading the firmware file, `println!`, the 50 ms sleep, and `recv`. The responses only gate a printed progress line, and their errors are swallowed.
- Bootloader.BootloaderClient.DownloadFirmware: reports a percentage for every delivered chunk. The source prints one only when the device's response is at least 4 bytes long and echoes function 0x01.
- Bootloader.BootloaderClient.SendChunks: computes the percentage of every delivered chunk, in the loop that sends the chunks. The source prints it only when the device's response is at least 4 bytes long and echoes function 0x01; responses are not modelled.
- `SerialManager::send`, `DataParser::send_command` and the `get_*` accessors are not modelled. The first two pass bytes to the port; the accessors are plain field reads.
- Serial.SerialManager.Read: `incoming` is bounded by the 1024-byte temporary buffer of one port read, and `out` must hold at least 24 bytes, as it does in `read_and_parse` (128 bytes).
- Matrix.Parse: requires at least 23 input bytes, as `data.len() - 23` does. `read_and_parse` only passes 24-byte packets.
- `lib.rs` (Tauri commands), `config.rs`, `tray.rs` and the Tauri command at the end of the bootloader file are not part of this model.
- `debug_parser.rs` is used only for its test frame.

## Findings

| source | as written | input that shows it | evidently intended | confidence | as-written member | corrected member |
|---|---|---|---|---|---|---|
| src-tauri/src/serial.rs:58 | the scan bound `buffer_guard.len() - 24` is computed in `usize`; with fewer than 24 bytes buffered it panics in a debug build, and in a release build it wraps around so the scan indexes past the buffer and panics | a first `read` after connecting whose port delivers 0 to 23 bytes (for example, nothing within the timeout) | no packet: Ok(0), with the bytes kept for the next read | not executed | Serial.ShortBufferScanOverruns | Serial.SerialManager.Read |
