/**
 * The telemetry frame parser of `DataParser` (src-tauri/src/matrix.rs).
 *
 * A telemetry frame is 24 bytes: 0xAA, the frame index, three bytes of key
 * bits, fourteen ADC bytes, three bytes of LED bits, the XOR of the 22
 * bytes before it, and 0xBF. `parse_data` decodes the latest frame whose
 * checksum holds, or else the latest merely delimited one marked invalid;
 * `read_and_parse` reads one packet through the serial manager, keeps an
 * error counter and updates the stored data.
 */
module Matrix {
  import opened Wrappers
  import Serial

  const FRAME_LEN: nat := 24
  /** Byte 22 of a frame holds the XOR of bytes 0 to 21. */
  const CHECKSUM_AT: nat := 22
  const KEY_COUNT: nat := 24
  const ADC_COUNT: nat := 14
  const LED_COUNT: nat := 20
  /** Offsets of the key bits, the ADC bytes and the LED bits in a frame. */
  const KEYS_AT: nat := 2
  const ADC_AT: nat := 5
  const LEDS_AT: nat := 19
  /** Failed reads reported as errors before they are silently ignored. */
  const MAX_ERRORS: nat := 5
  /** The output buffer `read_and_parse` hands to the serial manager. */
  const READ_BUFFER_LEN: nat := 128

  /** `ParsedData`; `keys`, `adc` and `leds` are the fixed-size arrays of the source. */
  datatype ParsedData = ParsedData(
    index: bv8,
    keys: seq<bool>,
    adc: seq<bv8>,
    leds: seq<bool>,
    rawData: seq<bv8>,
    valid: bool)

  predicate WellSized(d: ParsedData)
  {
    |d.keys| == KEY_COUNT && |d.adc| == ADC_COUNT && |d.leds| == LED_COUNT
  }

  /** `ParsedData::default()`. */
  function DefaultData(): (d: ParsedData)
    ensures WellSized(d) && !d.valid && d.index == 0 && d.rawData == []
    ensures forall k :: 0 <= k < KEY_COUNT ==> !d.keys[k]
    ensures forall k :: 0 <= k < ADC_COUNT ==> d.adc[k] == 0
    ensures forall k :: 0 <= k < LED_COUNT ==> !d.leds[k]
  {
    ParsedData(0, seq(KEY_COUNT, _ => false), seq(ADC_COUNT, _ => 0), seq(LED_COUNT, _ => false), [], false)
  }

  // ---------------------------------------------------------------------
  // Frames and their checksum
  // ---------------------------------------------------------------------

  function XorByte(a: bv8, b: bv8): bv8
  {
    a ^ b
  }

  /** The XOR of all bytes of s, folded from the left starting at 0. */
  function XorOf(s: seq<bv8>): bv8
  {
    if |s| == 0 then 0 else XorByte(XorOf(s[..|s| - 1]), s[|s| - 1])
  }

  /** A frame delimited by 0xAA and 0xBF starts at i. */
  predicate Delimited(data: seq<bv8>, i: nat)
  {
    Serial.PacketAt(data, i)
  }

  /** A delimited frame starts at i and its checksum byte is the XOR of the bytes before it. */
  predicate ChecksumOk(data: seq<bv8>, i: nat)
  {
    Delimited(data, i) && XorOf(data[i..i + CHECKSUM_AT]) == data[i + CHECKSUM_AT]
  }

  /** What the first (`checked`) or the second backward scan of `parse_data` accepts. */
  predicate Accepted(data: seq<bv8>, i: nat, checked: bool)
  {
    if checked then ChecksumOk(data, i) else Delimited(data, i)
  }

  /** The highest start below n that a scan accepts, if any. */
  function LastAccepted(data: seq<bv8>, n: nat, checked: bool): (r: Option<nat>)
    ensures r.Some? ==> r.value < n && Accepted(data, r.value, checked)
    ensures r.Some? ==> forall j :: r.value < j < n ==> !Accepted(data, j, checked)
    ensures r.None? ==> forall j :: 0 <= j < n ==> !Accepted(data, j, checked)
  {
    if n == 0 then None
    else if Accepted(data, n - 1, checked) then Some(n - 1)
    else LastAccepted(data, n - 1, checked)
  }

  /** Folding one more byte into the checksum of a prefix. */
  lemma XorPrefix(s: seq<bv8>, k: nat)
    requires k < |s|
    ensures XorOf(s[..k + 1]) == XorByte(XorOf(s[..k]), s[k])
  {
    assert s[..k + 1][..k] == s[..k];
  }

  // ---------------------------------------------------------------------
  // Decoding the fields
  // ---------------------------------------------------------------------

  /** `b & (1 << k) != 0`. */
  function Bit(b: bv8, k: nat): bool
    requires k < 8
  {
    b & (1 << k) != 0
  }

  /** `count` flags packed little-endian, eight to a byte, from byte `at` of a frame on. */
  function Bits(frame: seq<bv8>, at: nat, count: nat): (bits: seq<bool>)
    requires at + (count + 7) / 8 <= |frame|
    ensures |bits| == count
  {
    seq(count, k requires 0 <= k < count => Bit(frame[at + k / 8], k % 8))
  }

  /** The fields of one 24-byte frame. */
  function Decode(frame: seq<bv8>, raw: seq<bv8>, valid: bool): (d: ParsedData)
    requires |frame| == FRAME_LEN
    ensures WellSized(d)
  {
    ParsedData(frame[1], Bits(frame, KEYS_AT, KEY_COUNT), frame[ADC_AT..ADC_AT + ADC_COUNT],
               Bits(frame, LEDS_AT, LED_COUNT), raw, valid)
  }

  /** The three key bytes as one little-endian 24-bit word. */
  function KeyWord(frame: seq<bv8>): bv24
    requires |frame| == FRAME_LEN
  {
    (frame[KEYS_AT] as bv24) | ((frame[KEYS_AT + 1] as bv24) << 8) | ((frame[KEYS_AT + 2] as bv24) << 16)
  }

  // ---------------------------------------------------------------------
  // parse_data
  // ---------------------------------------------------------------------

  /**
   * `parse_data`: the latest window whose checksum holds, decoded and
   * valid; else the latest delimited window, decoded and invalid; else the
   * default. The raw data is always the input.
   */
  function Parse(data: seq<bv8>): (p: ParsedData)
    requires |data| >= FRAME_LEN - 1
    ensures WellSized(p) && p.rawData == data
  {
    var n := |data| - (FRAME_LEN - 1);
    match LastAccepted(data, n, true)
    case Some(i) => Decode(data[i..i + FRAME_LEN], data, true)
    case None =>
      match LastAccepted(data, n, false)
      case Some(i) => Decode(data[i..i + FRAME_LEN], data, false)
      case None => DefaultData().(rawData := data)
  }

  /** The result is valid exactly when some window's checksum holds. */
  lemma ParseValidIff(data: seq<bv8>)
    requires |data| >= FRAME_LEN - 1
    ensures Parse(data).valid <==> exists i :: ChecksumOk(data, i)
  {
    var n := |data| - (FRAME_LEN - 1);
    if LastAccepted(data, n, true).None? {
      forall j: nat
        ensures !ChecksumOk(data, j)
      {
        if j < n {
          assert !Accepted(data, j, true);
        }
      }
    }
  }

  /** Among windows whose checksum holds, the one with the highest start is decoded. */
  lemma ParseLatest(data: seq<bv8>, i: nat)
    requires |data| >= FRAME_LEN - 1
    requires ChecksumOk(data, i)
    requires forall j :: i < j ==> !ChecksumOk(data, j)
    ensures Parse(data) == Decode(data[i..i + FRAME_LEN], data, true)
  {
    var n := |data| - (FRAME_LEN - 1);
    var r := LastAccepted(data, n, true);
    assert Accepted(data, i, true);
    assert r == Some(i);
  }

  /**
   * With no window whose checksum holds, the delimited window with the
   * highest start is decoded and marked invalid.
   */
  lemma ParseFallback(data: seq<bv8>, i: nat)
    requires |data| >= FRAME_LEN - 1
    requires forall j :: !ChecksumOk(data, j)
    requires Delimited(data, i)
    requires forall j :: i < j ==> !Delimited(data, j)
    ensures Parse(data) == Decode(data[i..i + FRAME_LEN], data, false)
  {
    var n := |data| - (FRAME_LEN - 1);
    assert Accepted(data, i, false);
    assert LastAccepted(data, n, false) == Some(i);
  }

  /** With no delimited window at all, the result is the default with the input as raw data. */
  lemma ParseDefault(data: seq<bv8>)
    requires |data| >= FRAME_LEN - 1
    requires forall j :: !Delimited(data, j)
    ensures Parse(data) == DefaultData().(rawData := data)
  {
    var n := |data| - (FRAME_LEN - 1);
  }

  /** 23 bytes hold no frame: nothing is scanned and the default comes back. */
  lemma ParseTooShort(data: seq<bv8>)
    requires |data| == FRAME_LEN - 1
    ensures Parse(data) == DefaultData().(rawData := data)
  {
    ParseDefault(data);
  }

  /** Key k is bit k of the little-endian word made of the three key bytes. */
  lemma KeysAreKeyWordBits(frame: seq<bv8>, raw: seq<bv8>, valid: bool, k: nat)
    requires |frame| == FRAME_LEN && k < KEY_COUNT
    ensures Decode(frame, raw, valid).keys[k] == ((KeyWord(frame) >> k) & 1 == 1)
  {
  }

  /** The frame recorded as a checksum test vector next to the application. */
  const TEST_FRAME: seq<bv8> := [
    0xAA, 0x47, 0x00, 0x00, 0x03,
    0x80, 0x80, 0x80, 0x80, 0x00, 0x00, 0x00, 0x80, 0x00, 0x00, 0x00, 0x00, 0x00, 0x00,
    0x00, 0x00, 0x00,
    0x6E, 0xBF]

  /** The XOR of the first 6 bytes of the test vector. */
  lemma TestFramePrefix6()
    ensures XorOf(TEST_FRAME[..6]) == 0x6E
  {
    XorPrefix(TEST_FRAME, 0);
    XorPrefix(TEST_FRAME, 1);
    XorPrefix(TEST_FRAME, 2);
    XorPrefix(TEST_FRAME, 3);
    XorPrefix(TEST_FRAME, 4);
    XorPrefix(TEST_FRAME, 5);
  }

  /** The XOR of the first 11 bytes of the test vector. */
  lemma TestFramePrefix11()
    ensures XorOf(TEST_FRAME[..11]) == 0xEE
  {
    TestFramePrefix6();
    XorPrefix(TEST_FRAME, 6);
    XorPrefix(TEST_FRAME, 7);
    XorPrefix(TEST_FRAME, 8);
    XorPrefix(TEST_FRAME, 9);
    XorPrefix(TEST_FRAME, 10);
  }

  /** The XOR of the first 16 bytes of the test vector. */
  lemma TestFramePrefix16()
    ensures XorOf(TEST_FRAME[..16]) == 0x6E
  {
    TestFramePrefix11();
    XorPrefix(TEST_FRAME, 11);
    XorPrefix(TEST_FRAME, 12);
    XorPrefix(TEST_FRAME, 13);
    XorPrefix(TEST_FRAME, 14);
    XorPrefix(TEST_FRAME, 15);
  }

  /** The checksum byte of the test vector is the XOR of the 22 bytes before it. */
  lemma TestFrameChecksum()
    ensures XorOf(TEST_FRAME[..CHECKSUM_AT]) == 0x6E == TEST_FRAME[CHECKSUM_AT]
  {
    TestFramePrefix16();
    XorPrefix(TEST_FRAME, 16);
    XorPrefix(TEST_FRAME, 17);
    XorPrefix(TEST_FRAME, 18);
    XorPrefix(TEST_FRAME, 19);
    XorPrefix(TEST_FRAME, 20);
    XorPrefix(TEST_FRAME, 21);
  }

  /** The flags of the two byte values the test vector holds in its flag fields. */
  lemma TestFlagBytes(k: nat)
    requires k < 8
    ensures !Bit(0x00, k)
    ensures Bit(0x03, k) == (k < 2)
  {
  }

  /** The key flags of the test vector: only keys 16 and 17 are down. */
  lemma TestFrameKeys()
    ensures Bits(TEST_FRAME, KEYS_AT, KEY_COUNT) == seq(KEY_COUNT, k => k == 16 || k == 17)
  {
    var keys := Bits(TEST_FRAME, KEYS_AT, KEY_COUNT);
    forall k | 0 <= k < KEY_COUNT
      ensures keys[k] == (k == 16 || k == 17)
    {
      var b := TEST_FRAME[KEYS_AT + k / 8];
      assert b == if k < 16 then 0x00 else 0x03;
      TestFlagBytes(k % 8);
    }
  }

  /** The LED flags of the test vector: every LED is off. */
  lemma TestFrameLeds()
    ensures Bits(TEST_FRAME, LEDS_AT, LED_COUNT) == seq(LED_COUNT, _ => false)
  {
    var leds := Bits(TEST_FRAME, LEDS_AT, LED_COUNT);
    forall k | 0 <= k < LED_COUNT
      ensures !leds[k]
    {
      assert TEST_FRAME[LEDS_AT + k / 8] == 0x00;
      TestFlagBytes(k % 8);
    }
  }

  /** The fields of the test vector: frame 0x47, of the keys only 16 and 17 down, the ADC
      bytes as sent (channels 0 to 3 and 7 at 0x80, the rest 0) and every LED off. */
  lemma TestFrameFields()
    ensures var d := Decode(TEST_FRAME, TEST_FRAME, true);
      && d.index == 0x47
      && d.keys == seq(KEY_COUNT, k => k == 16 || k == 17)
      && d.adc == [0x80, 0x80, 0x80, 0x80, 0x00, 0x00, 0x00, 0x80, 0x00, 0x00, 0x00, 0x00, 0x00, 0x00]
      && d.leds == seq(LED_COUNT, _ => false)
  {
    TestFrameKeys();
    TestFrameLeds();
    assert TEST_FRAME[ADC_AT..ADC_AT + ADC_COUNT]
      == [0x80, 0x80, 0x80, 0x80, 0x00, 0x00, 0x00, 0x80, 0x00, 0x00, 0x00, 0x00, 0x00, 0x00];
  }

  /** `parse_data` accepts the test vector as a valid frame and decodes it whole. */
  lemma TestFrameParses()
    ensures ChecksumOk(TEST_FRAME, 0)
    ensures Parse(TEST_FRAME) == Decode(TEST_FRAME, TEST_FRAME, true)
  {
    TestFrameChecksum();
    ParseLatest(TEST_FRAME, 0);
    assert TEST_FRAME[0..FRAME_LEN] == TEST_FRAME;
  }

  /** A 24-byte window delimited by 0xAA and 0xBF decodes as itself, valid exactly when its checksum holds. */
  lemma ParseOneFrame(packet: seq<bv8>)
    requires |packet| == FRAME_LEN
    ensures Delimited(packet, 0) ==> Parse(packet) == Decode(packet, packet, ChecksumOk(packet, 0))
    ensures !Delimited(packet, 0) ==> Parse(packet) == DefaultData().(rawData := packet)
  {
    assert packet[0..FRAME_LEN] == packet;
    if ChecksumOk(packet, 0) {
      ParseLatest(packet, 0);
    } else if Delimited(packet, 0) {
      ParseFallback(packet, 0);
    } else {
      ParseDefault(packet);
    }
  }

  // ---------------------------------------------------------------------
  // parse_data, step by step
  // ---------------------------------------------------------------------

  /** The XOR loop of `parse_data` over the 22 bytes before the checksum. */
  method FrameXor(frame: seq<bv8>) returns (x: bv8)
    requires |frame| == FRAME_LEN
    ensures x == XorOf(frame[..CHECKSUM_AT])
  {
    x := 0;
    for j := 0 to CHECKSUM_AT
      invariant x == XorOf(frame[..j])
    {
      XorPrefix(frame, j);
      x := XorByte(x, frame[j]);
    }
  }

  /** One flag loop of `parse_data` (keys or LEDs), filling a new array bit by bit. */
  method FillBits(frame: seq<bv8>, at: nat, count: nat) returns (bits: seq<bool>)
    requires at + (count + 7) / 8 <= |frame|
    ensures bits == Bits(frame, at, count)
  {
    var flags := new bool[count](_ => false);
    for k := 0 to count
      invariant forall m :: 0 <= m < k ==> flags[m] == Bit(frame[at + m / 8], m % 8)
    {
      flags[k] := Bit(frame[at + k / 8], k % 8);
    }
    bits := flags[..];
  }

  /** The ADC loop of `parse_data`, copying fourteen bytes from offset 5 of the frame. */
  method FillAdc(frame: seq<bv8>) returns (adc: seq<bv8>)
    requires |frame| == FRAME_LEN
    ensures adc == frame[ADC_AT..ADC_AT + ADC_COUNT]
  {
    var channels := new bv8[ADC_COUNT](_ => 0);
    for k := 0 to ADC_COUNT
      invariant forall m :: 0 <= m < k ==> channels[m] == frame[ADC_AT + m]
    {
      channels[k] := frame[ADC_AT + k];
    }
    adc := channels[..];
  }

  /** The field loops of `parse_data` applied to one frame. */
  method DecodeFrame(frame: seq<bv8>, raw: seq<bv8>, valid: bool) returns (d: ParsedData)
    requires |frame| == FRAME_LEN
    ensures d == Decode(frame, raw, valid)
  {
    var keys := FillBits(frame, KEYS_AT, KEY_COUNT);
    var adc := FillAdc(frame);
    var leds := FillBits(frame, LEDS_AT, LED_COUNT);
    d := ParsedData(frame[1], keys, adc, leds, raw, valid);
  }

  /** The checksum fields of the window starting at i are those of the data. */
  lemma WindowChecksum(data: seq<bv8>, i: nat)
    requires i + FRAME_LEN <= |data|
    ensures var frame := data[i..i + FRAME_LEN];
      frame[..CHECKSUM_AT] == data[i..i + CHECKSUM_AT] && frame[CHECKSUM_AT] == data[i + CHECKSUM_AT]
  {
  }

  /**
   * One backward scan of `parse_data` over the window starts: the latest
   * window delimited by 0xAA and 0xBF and, when `checked`, whose checksum
   * holds.
   */
  method Scan(data: seq<bv8>, checked: bool) returns (r: Option<nat>)
    requires |data| >= FRAME_LEN - 1
    ensures r == LastAccepted(data, |data| - (FRAME_LEN - 1), checked)
  {
    var n := |data| - (FRAME_LEN - 1);
    var i: nat := n;
    while i > 0
      invariant i <= n
      invariant LastAccepted(data, i, checked) == LastAccepted(data, n, checked)
    {
      i := i - 1;
      if data[i] == Serial.PACKET_HEAD {
        var end := i + FRAME_LEN - 1;
        if end < |data| && data[end] == Serial.PACKET_TAIL {
          var frame := data[i..end + 1];
          WindowChecksum(data, i);
          var calculated := FrameXor(frame);
          if !checked || calculated == frame[CHECKSUM_AT] {
            return Some(i);
          }
        }
      }
    }
    return None;
  }

  /**
   * `parse_data`: the checked scan, then the unchecked one, then the
   * default; the frame found is decoded by the field loops.
   */
  method ParseData(data: seq<bv8>) returns (parsed: ParsedData)
    requires |data| >= FRAME_LEN - 1
    ensures parsed == Parse(data)
  {
    var latest := Scan(data, true);
    if latest.Some? {
      var i := latest.value;
      parsed := DecodeFrame(data[i..i + FRAME_LEN], data, true);
      return;
    }
    latest := Scan(data, false);
    if latest.Some? {
      var i := latest.value;
      parsed := DecodeFrame(data[i..i + FRAME_LEN], data, false);
      return;
    }
    parsed := DefaultData().(rawData := data);
  }

  // ---------------------------------------------------------------------
  // read_and_parse
  // ---------------------------------------------------------------------

  /** The error counter after one read that succeeded or failed. */
  function NextErrorCount(count: nat, readOk: bool): nat
  {
    if readOk then 0 else if count < MAX_ERRORS then count + 1 else count
  }

  /** A failed read is reported as an error while the counter is below MAX_ERRORS. */
  predicate Reported(count: nat)
  {
    count < MAX_ERRORS
  }

  /** The counter after a run of outcomes, each one succeeding (true) or failing (false). */
  function CountAfter(count: nat, outcomes: seq<bool>): nat
    decreases |outcomes|
  {
    if |outcomes| == 0 then count else CountAfter(NextErrorCount(count, outcomes[0]), outcomes[1..])
  }

  /** How many reads of the run are reported as errors. */
  function ReportedCount(count: nat, outcomes: seq<bool>): nat
    decreases |outcomes|
  {
    if |outcomes| == 0 then 0
    else (if !outcomes[0] && Reported(count) then 1 else 0) + ReportedCount(NextErrorCount(count, outcomes[0]), outcomes[1..])
  }

  /** The counter never exceeds MAX_ERRORS, so it fits the `u8` it is stored in. */
  lemma {:induction false} CountStaysBounded(count: nat, outcomes: seq<bool>)
    requires count <= MAX_ERRORS
    ensures CountAfter(count, outcomes) <= MAX_ERRORS
    decreases |outcomes|
  {
    if |outcomes| > 0 {
      CountStaysBounded(NextErrorCount(count, outcomes[0]), outcomes[1..]);
    }
  }

  /**
   * A run of k failed reads is reported k times while the counter has
   * room, and at most MAX_ERRORS - count times; after that the failures
   * are silent and the counter rests at MAX_ERRORS.
   */
  lemma {:induction false} FailureRun(count: nat, k: nat)
    requires count <= MAX_ERRORS
    ensures var failures := seq(k, _ => false);
      && ReportedCount(count, failures) == (if count + k <= MAX_ERRORS then k else MAX_ERRORS - count)
      && CountAfter(count, failures) == (if count + k <= MAX_ERRORS then count + k else MAX_ERRORS)
    decreases k
  {
    var failures := seq(k, _ => false);
    if k > 0 {
      FailureRun(NextErrorCount(count, false), k - 1);
      assert failures[1..] == seq(k - 1, _ => false);
    }
  }

  /** A read that succeeds, whatever came before, clears the counter. */
  lemma SuccessResets(count: nat, outcomes: seq<bool>)
    ensures CountAfter(count, outcomes + [true]) == 0
  {
    CountAfterAppend(count, outcomes, [true]);
  }

  lemma {:induction false} CountAfterAppend(count: nat, a: seq<bool>, b: seq<bool>)
    ensures CountAfter(count, a + b) == CountAfter(CountAfter(count, a), b)
    decreases |a|
  {
    if |a| > 0 {
      CountAfterAppend(NextErrorCount(count, a[0]), a[1..], b);
      assert (a + b)[1..] == a[1..] + b;
    } else {
      assert a + b == b;
    }
  }

  /**
   * What the stored data becomes after a packet arrives: the packet's
   * decoding when its checksum holds; otherwise the old fields with the
   * packet as raw data, marked invalid.
   */
  function Absorb(stored: ParsedData, packet: seq<bv8>): ParsedData
    requires |packet| == FRAME_LEN
  {
    var decoded := Parse(packet);
    if decoded.valid then decoded else stored.(rawData := packet, valid := false)
  }

  /** A delimited packet replaces the stored data exactly when its checksum holds. */
  lemma AbsorbPacket(stored: ParsedData, packet: seq<bv8>)
    requires |packet| == FRAME_LEN && Delimited(packet, 0)
    ensures var d := Absorb(stored, packet);
      && d.rawData == packet
      && (d.valid <==> ChecksumOk(packet, 0))
      && (d.valid ==> d == Decode(packet, packet, true))
      && (!d.valid ==> d.index == stored.index && d.keys == stored.keys && d.adc == stored.adc && d.leds == stored.leds)
  {
    ParseOneFrame(packet);
  }

  /**
   * A packet the serial manager hands out is always delimited, so it
   * either replaces the stored data whole or only marks it invalid.
   */
  lemma ReceivedPacketAbsorbed(stored: ParsedData, buffered: seq<bv8>, incoming: seq<bv8>)
    requires Serial.Receive(buffered, incoming).packet.Some?
    ensures var packet := Serial.Receive(buffered, incoming).packet.value;
      && |packet| == FRAME_LEN && Delimited(packet, 0)
      && (ChecksumOk(packet, 0) ==> Absorb(stored, packet) == Decode(packet, packet, true))
      && (!ChecksumOk(packet, 0) ==> Absorb(stored, packet) == stored.(rawData := packet, valid := false))
  {
    Serial.ReceivePacket(buffered, incoming);
    var packet := Serial.Receive(buffered, incoming).packet.value;
    AbsorbPacket(stored, packet);
  }

  datatype ReadError = NotConnected | SerialFailed(cause: Serial.SerialError)

  /** `DataParser`: the serial manager it reads through, the latest data and the error counter. */
  class DataParser {
    var serial: Serial.SerialManager?
    var parsedData: ParsedData
    var errorCount: nat

    ghost predicate Valid()
      reads this
    {
      errorCount <= MAX_ERRORS && WellSized(parsedData)
    }

    /** `DataParser::new`: not connected, default data, no errors. */
    constructor ()
      ensures Valid()
      ensures serial == null && parsedData == DefaultData() && errorCount == 0
    {
      serial := null;
      parsedData := DefaultData();
      errorCount := 0;
    }

    /** `connect`: takes the serial manager and clears the counter. */
    method Connect(s: Serial.SerialManager)
      requires Valid()
      modifies this`serial, this`errorCount
      ensures Valid()
      ensures serial == s && errorCount == 0
    {
      serial := s;
      errorCount := 0;
    }

    /** `disconnect`: closes the port of the manager, if any, drops it and clears the counter. */
    method Disconnect()
      requires Valid()
      modifies this`serial, this`errorCount, serial
      ensures Valid()
      ensures old(serial) != null ==> !old(serial).portOpen && old(serial).buffer == old(serial.buffer)
      ensures serial == null && errorCount == 0
    {
      if serial != null {
        serial.Close();
      }
      serial := null;
      errorCount := 0;
    }

    /**
     * `read_and_parse`: `incoming` is what the port delivers to the
     * manager's read. A packet handed out replaces or marks the stored
     * data; a failed read is reported while the counter has room.
     */
    method ReadAndParse(incoming: seq<bv8>) returns (r: Result<(), ReadError>)
      requires Valid()
      requires |incoming| <= Serial.READ_CHUNK
      modifies this`parsedData, this`errorCount, serial
      ensures Valid()
      ensures serial == old(serial)
      ensures old(serial) == null ==>
        r == Err(NotConnected) && parsedData == old(parsedData) && errorCount == old(errorCount)
      ensures old(serial) != null && !old(serial.portOpen) ==>
        && serial.portOpen == old(serial.portOpen) && serial.buffer == old(serial.buffer)
        && parsedData == old(parsedData)
        && errorCount == NextErrorCount(old(errorCount), false)
        && (r.Err? <==> Reported(old(errorCount)))
        && (r.Err? ==> r.error == SerialFailed(Serial.PortNotConnected))
      ensures old(serial) != null && old(serial.portOpen) ==>
        var rc := Serial.Receive(old(serial.buffer), incoming);
        && serial.portOpen && serial.buffer == rc.rest
        && r == Ok(())
        && errorCount == NextErrorCount(old(errorCount), true)
        && parsedData == (if rc.packet.Some? then Absorb(old(parsedData), rc.packet.value) else old(parsedData))
    {
      var buffer := new bv8[READ_BUFFER_LEN](_ => 0);
      if serial == null {
        return Err(NotConnected);
      }
      var readResult := serial.Read(incoming, buffer);
      var readLen: nat;
      match readResult {
        case Ok(len) =>
          errorCount := 0;
          readLen := len;
        case Err(e) =>
          if errorCount < MAX_ERRORS {
            errorCount := errorCount + 1;
            return Err(SerialFailed(e));
          }
          readLen := 0;
      }
      if readLen > 0 {
        var received := buffer[0..readLen];
        var decoded := ParseData(received);
        if decoded.valid {
          parsedData := decoded;
        } else {
          parsedData := parsedData.(rawData := received, valid := false);
        }
      }
      r := Ok(());
    }
  }
}
