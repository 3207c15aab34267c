/**
 * The packet reassembly buffer of `SerialManager` (src-tauri/src/serial.rs).
 *
 * `read` appends what the port delivered to an internal byte buffer, hands
 * out the first 24-byte `AA … BF` window it finds there, drops everything
 * up to and including that window, and, when no window is found and the
 * buffer has grown beyond 1024 bytes, keeps only the bytes from the last
 * `0xAA` on. The port itself is not modelled: the bytes one port read
 * delivered are an argument of `Read`.
 */
module Serial {
  import opened Wrappers

  /** Every packet is 24 bytes long, starts with 0xAA and ends with 0xBF. */
  const PACKET_LEN: nat := 24
  const PACKET_HEAD: bv8 := 0xAA
  const PACKET_TAIL: bv8 := 0xBF

  /** Above this many buffered bytes without a packet, the buffer is trimmed. */
  const MAX_BUFFERED: nat := 1024

  /** One port read fills at most this many bytes (`temp_buffer`). */
  const READ_CHUNK: nat := 1024

  /** Width of `usize` on the 64-bit targets the application is built for. */
  const USIZE_MODULUS: nat := 0x1_0000_0000_0000_0000

  datatype SerialError = PortNotConnected

  // ---------------------------------------------------------------------
  // Finding a packet
  // ---------------------------------------------------------------------

  /** A 24-byte window starting at i that is delimited by 0xAA and 0xBF. */
  predicate PacketAt(b: seq<bv8>, i: nat)
  {
    i + PACKET_LEN <= |b| && b[i] == PACKET_HEAD && b[i + PACKET_LEN - 1] == PACKET_TAIL
  }

  /** The lowest index from i on where a packet starts, if any. */
  function FirstPacketFrom(b: seq<bv8>, i: nat): (r: Option<nat>)
    decreases |b| - i
    ensures r.Some? ==> i <= r.value && PacketAt(b, r.value)
    ensures r.Some? ==> forall j :: i <= j < r.value ==> !PacketAt(b, j)
    ensures r.None? ==> forall j :: i <= j ==> !PacketAt(b, j)
  {
    if i + PACKET_LEN > |b| then None
    else if PacketAt(b, i) then Some(i)
    else FirstPacketFrom(b, i + 1)
  }

  /** The lowest index of the buffer where a packet starts, if any. */
  function FirstPacket(b: seq<bv8>): Option<nat>
  {
    FirstPacketFrom(b, 0)
  }

  // ---------------------------------------------------------------------
  // Trimming an overgrown buffer
  // ---------------------------------------------------------------------

  /** The highest index below n that holds x, if any. */
  function LastIndexBefore(b: seq<bv8>, x: bv8, n: nat): (r: Option<nat>)
    requires n <= |b|
    ensures r.Some? ==> r.value < n && b[r.value] == x
    ensures r.Some? ==> forall j :: r.value < j < n ==> b[j] != x
    ensures r.None? ==> forall j :: 0 <= j < n ==> b[j] != x
  {
    if n == 0 then None
    else if b[n - 1] == x then Some(n - 1)
    else LastIndexBefore(b, x, n - 1)
  }

  /**
   * What is left of a buffer without a packet: all of it up to
   * MAX_BUFFERED bytes; beyond that, the bytes from the last 0xAA on, or
   * nothing when the only 0xAA is the first byte or there is none.
   */
  function Trimmed(b: seq<bv8>): (t: seq<bv8>)
    ensures |t| <= |b| && t == b[|b| - |t|..]
    ensures |b| <= MAX_BUFFERED ==> t == b
    ensures |b| > MAX_BUFFERED && |t| > 0 ==> t[0] == PACKET_HEAD && |t| < |b|
    ensures |b| > MAX_BUFFERED ==> forall j :: 0 < j < |t| ==> t[j] != PACKET_HEAD
    ensures |b| > MAX_BUFFERED && |t| == 0 ==> forall j :: 0 < j < |b| ==> b[j] != PACKET_HEAD
  {
    if |b| <= MAX_BUFFERED then b
    else
      match LastIndexBefore(b, PACKET_HEAD, |b|)
      case Some(p) => if p > 0 then b[p..] else []
      case None => []
  }

  // ---------------------------------------------------------------------
  // One read, as a function of the buffer and the bytes the port delivered
  // ---------------------------------------------------------------------

  /** The packet a read hands out, if any, and the buffer it leaves behind. */
  datatype Reception = Reception(packet: Option<seq<bv8>>, rest: seq<bv8>)

  function Receive(buffered: seq<bv8>, incoming: seq<bv8>): Reception
  {
    var b := buffered + incoming;
    match FirstPacket(b)
    case Some(s) => Reception(Some(b[s..s + PACKET_LEN]), b[s + PACKET_LEN..])
    case None => Reception(None, Trimmed(b))
  }

  /**
   * A packet handed out is the first delimited window of the old buffer
   * followed by the new bytes; the bytes before it and the packet are
   * dropped and the rest is kept in order.
   */
  lemma ReceivePacket(buffered: seq<bv8>, incoming: seq<bv8>)
    requires Receive(buffered, incoming).packet.Some?
    ensures var b := buffered + incoming;
      var rc := Receive(buffered, incoming);
      var s := |b| - |rc.rest| - PACKET_LEN;
      && 0 <= s
      && |rc.packet.value| == PACKET_LEN
      && rc.packet.value[0] == PACKET_HEAD && rc.packet.value[PACKET_LEN - 1] == PACKET_TAIL
      && b == b[..s] + rc.packet.value + rc.rest
      && (forall j :: 0 <= j < s ==> !PacketAt(b, j))
  {
    var b := buffered + incoming;
    var s := FirstPacket(b).value;
    assert b == b[..s] + b[s..s + PACKET_LEN] + b[s + PACKET_LEN..];
  }

  /** Without a packet and with at most MAX_BUFFERED bytes, nothing is dropped. */
  lemma ReceiveKeeps(buffered: seq<bv8>, incoming: seq<bv8>)
    requires FirstPacket(buffered + incoming).None? && |buffered| + |incoming| <= MAX_BUFFERED
    ensures Receive(buffered, incoming) == Reception(None, buffered + incoming)
  {
  }

  /** A buffer shorter than one packet yields no packet and keeps every byte. */
  lemma ReceiveShort(buffered: seq<bv8>, incoming: seq<bv8>)
    requires |buffered| + |incoming| < PACKET_LEN
    ensures Receive(buffered, incoming) == Reception(None, buffered + incoming)
  {
  }

  /**
   * The scan bound `len - 24` of `read`, computed in `usize`: it wraps
   * around when fewer than 24 bytes are buffered (a debug build panics on
   * the subtraction instead).
   */
  function ScanLimit(len: nat): (limit: nat)
    ensures limit < USIZE_MODULUS
    ensures len >= PACKET_LEN && len < USIZE_MODULUS ==> limit + PACKET_LEN == len
  {
    (len - PACKET_LEN) % USIZE_MODULUS
  }

  /**
   * With fewer than 24 bytes buffered, the guard `i <= len - 24` of the
   * scan admits every index up to and including len, so the scan reaches
   * an index the buffer does not have.
   */
  lemma ShortBufferScanOverruns(len: nat)
    requires len < PACKET_LEN
    ensures len <= ScanLimit(len)
  {
    assert ScanLimit(len) == len - PACKET_LEN + USIZE_MODULUS;
  }

  // ---------------------------------------------------------------------
  // The manager
  // ---------------------------------------------------------------------

  /** `SerialManager`: whether its port is present, and the bytes it buffered. */
  class SerialManager {
    var portOpen: bool
    var buffer: seq<bv8>

    /** `SerialManager::new` after the port opened. */
    constructor ()
      ensures portOpen && buffer == []
    {
      portOpen := true;
      buffer := [];
    }

    /** `close`: drops the port; the buffered bytes stay. */
    method Close()
      modifies this`portOpen
      ensures !portOpen
    {
      portOpen := false;
    }

    /**
     * `read`: `incoming` is what the port delivered into its 1024-byte
     * temporary buffer (empty when the port read failed). A packet, when
     * one is found, is copied to the front of `out` and the result is
     * Ok(24); otherwise the result is Ok(0).
     */
    method Read(incoming: seq<bv8>, out: array<bv8>) returns (r: Result<nat, SerialError>)
      requires |incoming| <= READ_CHUNK
      requires out.Length >= PACKET_LEN
      modifies this`buffer, out
      ensures !old(portOpen) ==> r == Err(PortNotConnected) && buffer == old(buffer) && out[..] == old(out[..])
      ensures old(portOpen) ==>
        var rc := Receive(old(buffer), incoming);
        && buffer == rc.rest
        && (rc.packet.Some? ==>
              r == Ok(PACKET_LEN) && out[..PACKET_LEN] == rc.packet.value && out[PACKET_LEN..] == old(out[PACKET_LEN..]))
        && (rc.packet.None? ==> r == Ok(0) && out[..] == old(out[..]))
    {
      if !portOpen {
        r := Err(PortNotConnected);
        return;
      }
      ghost var rc := Receive(buffer, incoming);
      if |incoming| > 0 {
        buffer := buffer + incoming;
      }
      assert buffer == old(buffer) + incoming;

      var found, start := FindPacket();
      if found {
        assert rc == Reception(Some(buffer[start..start + PACKET_LEN]), buffer[start + PACKET_LEN..]);
        CopyPacket(out, start);
        buffer := buffer[start + PACKET_LEN..];
        r := Ok(PACKET_LEN);
        return;
      }
      assert rc == Reception(None, Trimmed(buffer));
      if |buffer| > MAX_BUFFERED {
        var lastHead := LastHead();
        if lastHead > 0 {
          buffer := buffer[lastHead..];
        } else {
          buffer := [];
        }
      }
      r := Ok(0);
    }

    /** The forward scan of `read` for the first window delimited by 0xAA and 0xBF. */
    method FindPacket() returns (found: bool, start: nat)
      ensures found <==> FirstPacket(buffer).Some?
      ensures found ==> FirstPacket(buffer) == Some(start)
    {
      found, start := false, 0;
      var i := 0;
      while i + PACKET_LEN <= |buffer|
        invariant FirstPacketFrom(buffer, i) == FirstPacket(buffer)
      {
        if buffer[i] == PACKET_HEAD && buffer[i + PACKET_LEN - 1] == PACKET_TAIL {
          start := i;
          found := true;
          break;
        }
        i := i + 1;
      }
    }

    /** The reverse scan of `read` for the last 0xAA; 0 when there is none. */
    method LastHead() returns (lastHead: nat)
      ensures lastHead == match LastIndexBefore(buffer, PACKET_HEAD, |buffer|) case Some(p) => p case None => 0
    {
      lastHead := 0;
      var j: nat := |buffer|;
      while j > 0
        invariant j <= |buffer|
        invariant LastIndexBefore(buffer, PACKET_HEAD, j) == LastIndexBefore(buffer, PACKET_HEAD, |buffer|)
      {
        j := j - 1;
        if buffer[j] == PACKET_HEAD {
          lastHead := j;
          break;
        }
      }
    }

    /** `copy_from_slice` of the packet at `start` into the front of `out`. */
    method CopyPacket(out: array<bv8>, start: nat)
      requires start + PACKET_LEN <= |buffer| && out.Length >= PACKET_LEN
      modifies out
      ensures out[..PACKET_LEN] == buffer[start..start + PACKET_LEN]
      ensures out[PACKET_LEN..] == old(out[PACKET_LEN..])
    {
      for k := 0 to PACKET_LEN
        invariant out[..k] == buffer[start..start + k]
        invariant out[PACKET_LEN..] == old(out[PACKET_LEN..])
      {
        out[k] := buffer[start + k];
      }
    }
  }
}
