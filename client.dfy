/** The receiving side: the header decoder, the checksum test, the
    reassembly of payloads into the file buffer and the receive loop of
    `get`, which runs every datagram through the corrupter. */
module UdpClient {
  import opened JavaLang
  import UdpServer
  import Impairment

  const PACKET_SIZE := 128
  const CHECKSUM_SIZE := 2
  const SEQUENCE_SIZE := 2
  const DATA_OFFSET := 4
  const CHECKSUM_OFFSET := 0
  const SEQUENCE_OFFSET := 2

  /** The stride between consecutive payloads in the reassembled file:
      `PACKET_SIZE - DATA_OFFSET`. */
  const FRAGMENT_SIZE := PACKET_SIZE - DATA_OFFSET

  function Min(a: int, b: int): int
  {
    if a <= b then a else b
  }

  // ---------------------------------------------------------------------
  // Header decoding and checksum test
  // ---------------------------------------------------------------------

  /** `parseShort(arr, offset)`: the big-endian `short` stored in
      `arr[offset]` and `arr[offset + 1]`, each byte taken unsigned. */
  function ParseShort(arr: seq<SByte>, offset: int): Short
    requires 0 <= offset && offset + 1 < |arr|
  {
    ToShort((arr[offset] as int % 256) * 256 + arr[offset + 1] as int % 256)
  }

  /** `parseShort` followed by `shortToByte` gives back the two bytes. */
  lemma ParseShortBytes(arr: seq<SByte>, offset: int)
    requires 0 <= offset && offset + 1 < |arr|
    ensures UdpServer.HighByte(ParseShort(arr, offset)) == arr[offset]
    ensures UdpServer.LowByte(ParseShort(arr, offset)) == arr[offset + 1]
  {
    var hi := arr[offset] as int % 256;
    var lo := arr[offset + 1] as int % 256;
    var r := ParseShort(arr, offset);
    assert r / 256 == (if hi < 128 then hi else hi - 256) && r % 256 == lo by {
      if hi < 128 {
        assert r == hi * 256 + lo;
      } else {
        assert r == (hi - 256) * 256 + lo;
      }
    }
  }

  /** `shortToByte` followed by `parseShort` gives back the value. */
  lemma ParseShortOfShortToByte(v: Short, arr: seq<SByte>, offset: int)
    requires 0 <= offset && offset + 1 < |arr|
    requires arr[offset] == UdpServer.HighByte(v) && arr[offset + 1] == UdpServer.LowByte(v)
    ensures ParseShort(arr, offset) == v
  {
    var q, m := v / 256, v % 256;
    assert v == q * 256 + m && -128 <= q < 128;
    assert arr[offset] == q;
    assert arr[offset + 1] as int % 256 == m;
    var hi := q % 256;
    assert hi * 256 + m - v == (if q < 0 then 65536 else 0);
    ToShortCongruent(hi * 256 + m, v);
  }

  /** `verifyChecksum(data, checksum)`: recomputes the wrapping sum of the
      payload and compares it with the received checksum. */
  method VerifyChecksum(data: array<SByte>, checksum: Short) returns (verified: bool)
    ensures verified <==> UdpServer.ChecksumOf(data[..]) == checksum
  {
    var calcChecksum: Short := 0;
    var i := 0;
    while i < data.Length
      invariant 0 <= i <= data.Length
      invariant calcChecksum == UdpServer.ChecksumOf(data[..i])
    {
      assert data[..i + 1] == data[..i] + [data[i]];
      ToShortAbsorbs(SignedSum(data[..i]), data[i]);
      calcChecksum := ToShort(calcChecksum + data[i]);
      i := i + 1;
    }
    assert data[..i] == data[..];
    return calcChecksum == checksum;
  }

  /** Verification only sums the bytes, so it cannot see their order: a
      payload verifies exactly when any permutation of it does. */
  lemma VerifyIgnoresOrder(a: seq<SByte>, b: seq<SByte>, checksum: Short)
    requires multiset(a) == multiset(b)
    ensures UdpServer.ChecksumOf(a) == checksum <==> UdpServer.ChecksumOf(b) == checksum
  {
    SignedSumPermutation(a, b);
  }

  /** Raising `k` bytes by one, each wrapping from 127 to -128, moves the
      plain sum by `k` minus 256 for every wrap. */
  lemma {:induction false} BumpedSum(data: seq<SByte>, indices: seq<int>) returns (wraps: nat)
    requires Impairment.InRange(indices, |data|)
    ensures wraps <= |indices|
    ensures SignedSum(Impairment.Bumped(data, indices)) == SignedSum(data) + |indices| - 256 * wraps
  {
    if indices == [] {
      return 0;
    }
    var init := indices[..|indices| - 1];
    var last := indices[|indices| - 1];
    assert Impairment.InRange(init, |data|);
    var w := BumpedSum(data, init);
    var d := Impairment.Bumped(data, init);
    SignedSumUpdate(d, last, Impairment.Increment(d[last]));
    wraps := if d[last] == 127 then w + 1 else w;
  }

  /** Two byte strings whose plain sums differ by `k` (between 1 and 255)
      minus a multiple of 256 never have the same checksum. */
  lemma ChecksumShift(a: seq<SByte>, b: seq<SByte>, k: int, w: int)
    requires 1 <= k < 256
    requires SignedSum(b) == SignedSum(a) + k - 256 * w
    ensures UdpServer.ChecksumOf(b) != UdpServer.ChecksumOf(a)
  {
    var x: int, y: int := UdpServer.ChecksumOf(b), UdpServer.ChecksumOf(a);
    var qx := ToShortQuotient(SignedSum(b));
    var qy := ToShortQuotient(SignedSum(a));
    var z := 256 * (qx - qy) - w;
    assert x - y == k + 256 * z;
    OffMultiple(k, z);
  }

  /** The corruption the corrupter applies (one to 255 raised bytes) always
      changes the checksum, so a corrupted payload never verifies against
      the checksum of the payload it came from. */
  lemma CorruptionDetected(data: seq<SByte>, indices: seq<int>)
    requires Impairment.InRange(indices, |data|) && 1 <= |indices| < 256
    ensures UdpServer.ChecksumOf(Impairment.Bumped(data, indices)) != UdpServer.ChecksumOf(data)
  {
    var w := BumpedSum(data, indices);
    ChecksumShift(data, Impairment.Bumped(data, indices), |indices|, w);
  }

  /** A number strictly between two multiples of 256 is not zero. */
  lemma OffMultiple(k: int, z: int)
    requires 1 <= k < 256
    ensures k + 256 * z != 0
  {
  }

  // ---------------------------------------------------------------------
  // Reassembly
  // ---------------------------------------------------------------------

  /** Where `reassemble` puts a payload: `sequence--` wraps as a `short`, and
      the product is taken in `int`. */
  function ReassembleOffset(sequence: Short): int
  {
    ToShort(sequence - 1) * FRAGMENT_SIZE
  }

  /** The copy length after the clip against the buffer's end. */
  function ClippedLength(offset: int, dataLength: int, capacity: int): int
  {
    if offset + dataLength > capacity then capacity - offset else dataLength
  }

  /** Whether the `System.arraycopy` of `reassemble` throws
      `IndexOutOfBoundsException`: a negative offset or length, or a copy that
      would read past the source or write past the buffer. */
  predicate ReassembleThrows(capacity: int, dataSize: int, sequence: Short, dataLength: int)
  {
    var offset := ReassembleOffset(sequence);
    var n := ClippedLength(offset, dataLength, capacity);
    offset < 0 || n < 0 || n > dataSize || offset + n > capacity
  }

  /** The buffer after `reassemble` when the copy does not throw. */
  function Reassembled(buffer: seq<SByte>, data: seq<SByte>, sequence: Short, dataLength: int): seq<SByte>
    requires !ReassembleThrows(|buffer|, |data|, sequence, dataLength)
  {
    var offset := ReassembleOffset(sequence);
    var n := ClippedLength(offset, dataLength, |buffer|);
    buffer[..offset] + data[..n] + buffer[offset + n..]
  }

  /** The copy throws exactly when the payload's slot starts before the
      buffer or after its end, the length is negative, or the clipped length
      is more than the source holds. */
  lemma ReassembleThrowsExactly(capacity: int, dataSize: int, sequence: Short, dataLength: int)
    ensures ReassembleThrows(capacity, dataSize, sequence, dataLength) <==>
      var offset := ReassembleOffset(sequence);
      offset < 0 || offset > capacity || dataLength < 0 || Min(dataLength, capacity - offset) > dataSize
  {
  }

  /** A payload with a 1-based sequence number whose slot starts inside the
      buffer, and a length the payload holds, never makes the copy throw. */
  lemma ReassembleInBounds(capacity: int, dataSize: int, sequence: Short, dataLength: int)
    requires 1 <= sequence && (sequence - 1) * FRAGMENT_SIZE <= capacity
    requires 0 <= dataLength <= dataSize
    ensures !ReassembleThrows(capacity, dataSize, sequence, dataLength)
    ensures ReassembleOffset(sequence) == (sequence - 1) * FRAGMENT_SIZE
  {
    assert ToShort(sequence - 1) == sequence - 1;
  }

  /** `reassemble` writes `min(dataLength, |buffer| - offset)` payload bytes
      at the payload's offset, never past the buffer's end, and leaves every
      other byte as it was. */
  lemma ReassembledWindow(buffer: seq<SByte>, data: seq<SByte>, sequence: Short, dataLength: int)
    requires !ReassembleThrows(|buffer|, |data|, sequence, dataLength)
    ensures var offset := ReassembleOffset(sequence);
      var n := Min(dataLength, |buffer| - offset);
      var r := Reassembled(buffer, data, sequence, dataLength);
      && 0 <= offset && 0 <= n && offset + n <= |buffer|
      && |r| == |buffer|
      && (forall k :: 0 <= k < |r| && !(offset <= k < offset + n) ==> r[k] == buffer[k])
      && (forall k :: offset <= k < offset + n ==> r[k] == data[k - offset])
  {
  }

  /** Reassembling the same payload twice leaves what reassembling it once
      left. */
  lemma ReassembleIdempotent(buffer: seq<SByte>, data: seq<SByte>, sequence: Short, dataLength: int)
    requires !ReassembleThrows(|buffer|, |data|, sequence, dataLength)
    ensures var once := Reassembled(buffer, data, sequence, dataLength);
      && |once| == |buffer|
      && Reassembled(once, data, sequence, dataLength) == once
  {
    var once := Reassembled(buffer, data, sequence, dataLength);
    var offset := ReassembleOffset(sequence);
    var n := ClippedLength(offset, dataLength, |buffer|);
    assert once[offset..offset + n] == data[..n];
    calc {
      Reassembled(once, data, sequence, dataLength);
      once[..offset] + data[..n] + once[offset + n..];
      once[..offset] + once[offset..offset + n] + once[offset + n..];
      { assert once == once[..offset] + once[offset..offset + n] + once[offset + n..]; }
      once;
    }
  }

  // ---------------------------------------------------------------------
  // The receive loop of `get`, as a function of the client's state
  // ---------------------------------------------------------------------

  /** One datagram as it arrives, with the values of the `Math.random()`
      calls `touchPacket` makes for it. */
  datatype Arrival = Arrival(bytes: seq<SByte>, damageRoll: real, countRoll: real, indexRolls: seq<real>)

  /** Every roll lies in [0, 1), as `Math.random()` promises. */
  predicate Drawn(a: Arrival)
  {
    && 0.0 <= a.damageRoll < 1.0
    && 0.0 <= a.countRoll < 1.0
    && forall k :: 0 <= k < |a.indexRolls| ==> 0.0 <= a.indexRolls[k] < 1.0
  }

  /** How one pass of the receive loop ends: it goes round again, it leaves
      the loop on the terminator, the corrupter's rolls ran out (where the
      source would go on drawing), or an exception ends `get`. */
  datatype Step = Continue | Terminated | Stalled | Crashed

  /** The contents of the `PACKET_SIZE`-byte receive buffer. */
  type ReceiveBuffer = b: seq<SByte> | |b| == PACKET_SIZE witness UdpServer.Zeros(PACKET_SIZE)

  /** What the receive loop reads and writes: the receive buffer, the
      length of the datagram in it, the two counters and the reassembled
      file. */
  datatype ClientState = ClientState(
    buffer: ReceiveBuffer, length: int, packetsReceived: int, checksumErrors: int, file: seq<SByte>)

  /** The receive buffer after a datagram of `bytes` lands in it: the
      datagram's bytes up to the buffer's size, then what was there. */
  function Received(buffer: seq<SByte>, bytes: seq<SByte>): (r: seq<SByte>)
    ensures |r| == |buffer|
    ensures forall k :: 0 <= k < |r| ==> r[k] == if k < |bytes| then bytes[k] else buffer[k]
  {
    var n := Min(|bytes|, |buffer|);
    bytes[..n] + buffer[n..]
  }

  /** One pass of the receive loop: receive, stop on a zero first byte, read
      the header, run the corrupter, copy the payload out, verify and count
      it, and reassemble it into the file. */
  function StepSpec(s: ClientState, a: Arrival, dmgChance: real): (r: (ClientState, Step))
    ensures |r.0.file| == |s.file|
    ensures r.1 == Continue ==> r.0.length == PACKET_SIZE
  {
    var n := Min(|a.bytes|, PACKET_SIZE);
    var buffer := Received(s.buffer, a.bytes);
    if buffer[0] == 0 then (s.(buffer := buffer, length := n), Terminated)
    else
      var checksum := ParseShort(buffer, CHECKSUM_OFFSET);
      var sequence := ParseShort(buffer, SEQUENCE_OFFSET);
      var t := Impairment.Decide(buffer, n, dmgChance, a.damageRoll, a.countRoll, a.indexRolls);
      Impairment.DecideFits(buffer, n, dmgChance, a.damageRoll, a.countRoll, a.indexRolls);
      var data := Impairment.TouchedData(buffer, t);
      var length := if t.Corrupted? then |data| else n;
      var touched := s.(buffer := data, length := length);
      if t.OutOfRolls? || t.OutOfBounds? then (touched, if t.OutOfRolls? then Stalled else Crashed)
      else Consumed(touched, checksum, sequence)
  }

  /** The rest of a pass once the corrupter is done with the datagram now
      in `s.buffer`: copy its payload out (which throws for a datagram shorter
      than the header), count it, count a checksum error when it does not
      verify, and reassemble it into the file. */
  function Consumed(s: ClientState, checksum: Short, sequence: Short): (r: (ClientState, Step))
    requires 0 <= s.length <= |s.buffer|
    ensures |r.0.file| == |s.file|
    ensures r.1 == Continue ==> r.0.length == PACKET_SIZE
  {
    if s.length < DATA_OFFSET then (s, Crashed)
    else
      var payload := s.buffer[DATA_OFFSET..s.length];
      var counted := s.(
        packetsReceived := s.packetsReceived + 1,
        checksumErrors := if UdpServer.ChecksumOf(payload) == checksum then s.checksumErrors else s.checksumErrors + 1);
      if ReassembleThrows(|s.file|, |payload|, sequence, |payload|) then (counted, Crashed)
      else (counted.(length := PACKET_SIZE, file := Reassembled(s.file, payload, sequence, |payload|)), Continue)
  }

  /** The terminator test of `get` looks only at the first byte, so a pass
      stops exactly when the first received byte is zero, and then counts
      nothing and leaves the file as it was. The counters keep
      `0 <= checksumErrors <= packetsReceived`: a pass counts at most one
      datagram, at most one error for it, and always counts a datagram it
      goes on from. */
  lemma StepCounters(s: ClientState, a: Arrival, dmgChance: real)
    requires 0 <= s.checksumErrors <= s.packetsReceived
    ensures var r := StepSpec(s, a, dmgChance);
      && (r.1 == Terminated <==> Received(s.buffer, a.bytes)[0] == 0)
      && (r.1 == Terminated || r.1 == Stalled ==>
            r.0.packetsReceived == s.packetsReceived && r.0.checksumErrors == s.checksumErrors
            && r.0.file == s.file)
      && (r.1 == Continue ==> r.0.packetsReceived == s.packetsReceived + 1)
      && s.packetsReceived <= r.0.packetsReceived <= s.packetsReceived + 1
      && s.checksumErrors <= r.0.checksumErrors
      && r.0.checksumErrors - s.checksumErrors <= r.0.packetsReceived - s.packetsReceived
  {
  }

  /** Byte 0 of a frame is the high byte of its checksum, so a data frame
      ends the transfer exactly when its checksum lies in [0, 256): the
      terminator test cannot tell such a frame from the terminator. */
  lemma TerminatorIsChecksumHighByte(s: ClientState, a: Arrival, dmgChance: real,
                                     checksum: Short, wireSequence: Short, data: seq<SByte>)
    requires |data| <= UdpServer.DATA_SIZE
    requires a.bytes == UdpServer.Frame(checksum, wireSequence, data)
    ensures StepSpec(s, a, dmgChance).1 == Terminated <==> 0 <= checksum < 256
  {
    assert Received(s.buffer, a.bytes)[0] == UdpServer.HighByte(checksum);
    var q := checksum / 256;
    assert -128 <= q < 128;
    assert UdpServer.HighByte(checksum) == 0 <==> q == 0;
  }

  /** A full-size datagram the corrupter leaves alone, with a sequence
      number whose slot starts inside the file: the pass goes on, counts the
      datagram, counts an error exactly when the header's checksum is not
      that of the 124 payload bytes, and writes those bytes, clipped at the
      file's end, at `(sequence - 1) * 124` and nowhere else. */
  lemma CleanDatagramDelivered(s: ClientState, a: Arrival, dmgChance: real)
    requires Drawn(a)
    requires |a.bytes| >= PACKET_SIZE && a.bytes[0] != 0
    requires dmgChance == 0.0 || a.damageRoll > dmgChance
    requires 1 <= ParseShort(a.bytes, SEQUENCE_OFFSET)
    requires (ParseShort(a.bytes, SEQUENCE_OFFSET) - 1) * FRAGMENT_SIZE <= |s.file|
    ensures var r := StepSpec(s, a, dmgChance);
      var offset := (ParseShort(a.bytes, SEQUENCE_OFFSET) - 1) * FRAGMENT_SIZE;
      var m := Min(FRAGMENT_SIZE, |s.file| - offset);
      && r.1 == Continue
      && r.0.packetsReceived == s.packetsReceived + 1
      && (r.0.checksumErrors == s.checksumErrors <==>
            UdpServer.ChecksumOf(a.bytes[DATA_OFFSET..PACKET_SIZE]) == ParseShort(a.bytes, CHECKSUM_OFFSET))
      && r.0.file[offset..offset + m] == a.bytes[DATA_OFFSET..DATA_OFFSET + m]
      && r.0.file[..offset] == s.file[..offset]
      && r.0.file[offset + m..] == s.file[offset + m..]
  {
    var buffer := Received(s.buffer, a.bytes);
    assert buffer == a.bytes[..PACKET_SIZE];
    Impairment.DecideShape(buffer, PACKET_SIZE, dmgChance, a.damageRoll, a.countRoll, a.indexRolls);
    assert ParseShort(buffer, CHECKSUM_OFFSET) == ParseShort(a.bytes, CHECKSUM_OFFSET);
    var sequence := ParseShort(buffer, SEQUENCE_OFFSET);
    assert sequence == ParseShort(a.bytes, SEQUENCE_OFFSET);
    var payload := buffer[DATA_OFFSET..PACKET_SIZE];
    assert payload == a.bytes[DATA_OFFSET..PACKET_SIZE];
    ReassembleInBounds(|s.file|, |payload|, sequence, |payload|);
    ReassembledWindow(s.file, payload, sequence, |payload|);
  }

  /** A full-size datagram whose header carries the checksum of its 124
      payload bytes is always counted as a checksum error when the corrupter
      damages it: the raised bytes all lie past the header, and one to three
      raised bytes always change the checksum. */
  lemma CorruptedDatagramCounted(s: ClientState, a: Arrival, dmgChance: real)
    requires Drawn(a)
    requires |a.bytes| >= PACKET_SIZE && a.bytes[0] != 0
    requires ParseShort(a.bytes, CHECKSUM_OFFSET) == UdpServer.ChecksumOf(a.bytes[DATA_OFFSET..PACKET_SIZE])
    requires Impairment.Decide(a.bytes[..PACKET_SIZE], PACKET_SIZE, dmgChance,
                               a.damageRoll, a.countRoll, a.indexRolls).Corrupted?
    ensures var r := StepSpec(s, a, dmgChance);
      && r.0.packetsReceived == s.packetsReceived + 1
      && r.0.checksumErrors == s.checksumErrors + 1
  {
    var buffer := Received(s.buffer, a.bytes);
    assert buffer == a.bytes[..PACKET_SIZE];
    Impairment.DecideShape(buffer, PACKET_SIZE, dmgChance, a.damageRoll, a.countRoll, a.indexRolls);
    var t := Impairment.Decide(buffer, PACKET_SIZE, dmgChance, a.damageRoll, a.countRoll, a.indexRolls);
    var data := Impairment.Bumped(buffer, t.indices);
    assert ParseShort(buffer, CHECKSUM_OFFSET) == ParseShort(a.bytes, CHECKSUM_OFFSET);
    CorruptedPayload(buffer, t.indices);
    assert buffer[DATA_OFFSET..] == a.bytes[DATA_OFFSET..PACKET_SIZE];
    var checksum := ParseShort(buffer, CHECKSUM_OFFSET);
    var touched := s.(buffer := data, length := PACKET_SIZE);
    assert StepSpec(s, a, dmgChance) == Consumed(touched, checksum, ParseShort(buffer, SEQUENCE_OFFSET));
    assert touched.buffer[DATA_OFFSET..touched.length] == data[DATA_OFFSET..];
  }

  /** Corrupting only payload bytes keeps the header and changes the
      payload's checksum. */
  lemma CorruptedPayload(buffer: seq<SByte>, indices: seq<int>)
    requires |buffer| >= DATA_OFFSET && Impairment.InRange(indices, |buffer|) && 1 <= |indices| < 256
    requires Distinct(indices) && forall k :: 0 <= k < |indices| ==> DATA_OFFSET <= indices[k]
    ensures var data := Impairment.Bumped(buffer, indices);
      && data[..DATA_OFFSET] == buffer[..DATA_OFFSET]
      && UdpServer.ChecksumOf(data[DATA_OFFSET..]) != UdpServer.ChecksumOf(buffer[DATA_OFFSET..])
  {
    var data := Impairment.Bumped(buffer, indices);
    var w := BumpedSum(buffer, indices);
    forall p | 0 <= p < DATA_OFFSET
      ensures data[p] == buffer[p]
    {
      Impairment.BumpedAt(buffer, indices, p);
    }
    assert data[..DATA_OFFSET] == buffer[..DATA_OFFSET];
    assert data == data[..DATA_OFFSET] + data[DATA_OFFSET..];
    assert buffer == buffer[..DATA_OFFSET] + buffer[DATA_OFFSET..];
    SignedSumAppend(data[..DATA_OFFSET], data[DATA_OFFSET..]);
    SignedSumAppend(buffer[..DATA_OFFSET], buffer[DATA_OFFSET..]);
    ChecksumShift(buffer[DATA_OFFSET..], data[DATA_OFFSET..], |indices|, w);
  }

  /** The kind of function a pass of the receive loop is. */
  type PassFunction = (ClientState, Arrival) -> (ClientState, Step)

  /** The pass of `get` for a corrupter with damage chance `dmgChance`. */
  function Pass(dmgChance: real): PassFunction
  {
    (s, a) => StepSpec(s, a, dmgChance)
  }

  /** A loop over a run of arrivals that makes one `pass` per arrival and
      goes on while passes end in `Continue`. The result carries the state,
      how the last pass ended and how many arrivals were used; running out of
      arrivals leaves the loop waiting in `receive`, reported as `Continue`. */
  function Run(s: ClientState, arrivals: seq<Arrival>, pass: PassFunction): (r: (ClientState, Step, nat))
    ensures r.2 <= |arrivals|
    ensures r.1 == Continue ==> r.2 == |arrivals|
    ensures r.1 != Continue ==> 1 <= r.2
    decreases |arrivals|
  {
    if arrivals == [] then (s, Continue, 0)
    else
      var first := pass(s, arrivals[0]);
      if first.1 == Continue then Shifted(Run(first.0, arrivals[1..], pass), 1)
      else (first.0, first.1, 1)
  }

  /** The run over `arrivals` after the first `i` were used. */
  function Shifted(r: (ClientState, Step, nat), i: nat): (ClientState, Step, nat)
  {
    (r.0, r.1, r.2 + i)
  }

  lemma ShiftedTwice(r: (ClientState, Step, nat), i: nat, j: nat)
    ensures Shifted(Shifted(r, i), j) == Shifted(r, i + j)
  {
  }

  /** The loop's progress: if the run from `start` is the run from `before`
      once `i` arrivals were used, then after the pass over arrival `i` it is
      the run from the pass's state once `i + 1` were used, or it ends with
      that pass. */
  lemma RunStep(start: ClientState, arrivals: seq<Arrival>, pass: PassFunction, i: nat,
                before: ClientState, after: ClientState, step: Step)
    requires i < |arrivals|
    requires Run(start, arrivals, pass) == Shifted(Run(before, arrivals[i..], pass), i)
    requires (after, step) == pass(before, arrivals[i])
    ensures step == Continue ==>
      Run(start, arrivals, pass) == Shifted(Run(after, arrivals[i + 1..], pass), i + 1)
    ensures step != Continue ==> Run(start, arrivals, pass) == (after, step, i + 1)
  {
    assert arrivals[i..][1..] == arrivals[i + 1..];
    if step == Continue {
      ShiftedTwice(Run(after, arrivals[i + 1..], pass), 1, i);
    }
  }

  /** Over a whole run the counters keep `0 <= checksumErrors <=
      packetsReceived`, and at most one datagram is counted per arrival used. */
  lemma {:induction false} RunCounters(s: ClientState, arrivals: seq<Arrival>, dmgChance: real)
    requires 0 <= s.checksumErrors <= s.packetsReceived
    ensures var r := Run(s, arrivals, Pass(dmgChance));
      && 0 <= r.0.checksumErrors <= r.0.packetsReceived
      && s.packetsReceived <= r.0.packetsReceived <= s.packetsReceived + r.2
      && r.0.checksumErrors - s.checksumErrors <= r.0.packetsReceived - s.packetsReceived
      && |r.0.file| == |s.file|
    decreases |arrivals|
  {
    if arrivals != [] {
      StepCounters(s, arrivals[0], dmgChance);
      var first := StepSpec(s, arrivals[0], dmgChance);
      if first.1 == Continue {
        RunCounters(first.0, arrivals[1..], dmgChance);
      }
    }
  }

  /** The state `get` starts its loop from: a zeroed receive buffer wrapped
      by a fresh packet, a zeroed file buffer of the announced length, and the
      counters as they were. */
  function Start(fileLength: nat, packetsReceived: int, checksumErrors: int): ClientState
  {
    ClientState(UdpServer.Zeros(PACKET_SIZE), PACKET_SIZE, packetsReceived, checksumErrors,
                UdpServer.Zeros(fileLength))
  }

  /** The client of `Client.java` as far as `get`'s receive loop uses it.
      The socket, the request and the output file are not modelled. */
  class Client {
    var receiveData: array<SByte>
    var receivePacket: Impairment.Datagram
    const gremlin: Impairment.Gremlin
    var checksumErrors: int
    var packetsReceived: int
    var reassembledData: array<SByte>

    /** The receive packet wraps the 128-byte receive buffer, which is not
        the file buffer. */
    ghost predicate Valid()
      reads this, receivePacket
    {
      && receiveData.Length == PACKET_SIZE
      && receivePacket.data == receiveData
      && receivePacket.Valid()
      && reassembledData != receiveData
    }

    ghost function State(): ClientState
      requires receiveData.Length == PACKET_SIZE
      reads this, receivePacket, receiveData, reassembledData
    {
      ClientState(receiveData[..], receivePacket.length, packetsReceived, checksumErrors, reassembledData[..])
    }

    /** `new Client(port, host, gremlin_chance, requestFile, outFile)`: a
        zeroed receive buffer, a corrupter with the clamped chance and both
        counters at zero. */
    constructor (gremlinChance: real)
      ensures Valid() && fresh(gremlin)
      ensures gremlin.dmgChance == Impairment.Clamp(gremlinChance)
      ensures receiveData[..] == UdpServer.Zeros(PACKET_SIZE)
      ensures packetsReceived == 0 && checksumErrors == 0
    {
      var buffer := new SByte[PACKET_SIZE](_ => 0);
      receiveData := buffer;
      receivePacket := new Impairment.Datagram(buffer, PACKET_SIZE);
      gremlin := new Impairment.Gremlin(gremlinChance);
      checksumErrors := 0;
      packetsReceived := 0;
      reassembledData := new SByte[0];
    }

    /** `clientSocket.receive(receivePacket)`: the datagram's bytes, cut at
        the packet's length, overwrite the start of the receive buffer, and
        the packet's length becomes the number of bytes kept. */
    method Receive(bytes: seq<SByte>)
      requires Valid()
      modifies receiveData, receivePacket
      ensures Valid()
      ensures receivePacket.length == Min(|bytes|, old(receivePacket.length))
      ensures receiveData[..] == Received(old(receiveData[..]), bytes[..receivePacket.length])
    {
      var n := Min(|bytes|, receivePacket.length);
      var k := 0;
      while k < n
        modifies receiveData
        invariant 0 <= k <= n
        invariant forall i :: 0 <= i < k ==> receiveData[i] == bytes[i]
        invariant forall i :: k <= i < receiveData.Length ==> receiveData[i] == old(receiveData[i])
      {
        receiveData[k] := bytes[k];
        k := k + 1;
      }
      receivePacket.length := n;
    }

    /** `reassemble(data, sequence, dataLength)`: copies the payload to its
        slot in the file buffer, clipped at the buffer's end; `thrown` tells
        whether `System.arraycopy` throws, in which case nothing changes. */
    method Reassemble(data: array<SByte>, sequence: Short, dataLength: int) returns (thrown: bool)
      requires data != reassembledData
      modifies reassembledData
      ensures thrown <==> ReassembleThrows(reassembledData.Length, data.Length, sequence, dataLength)
      ensures !thrown ==> reassembledData[..] == Reassembled(old(reassembledData[..]), data[..], sequence, dataLength)
      ensures thrown ==> reassembledData[..] == old(reassembledData[..])
    {
      var slot := ToShort(sequence - 1);
      var offset := slot * FRAGMENT_SIZE;
      var n := dataLength;
      if offset + n > reassembledData.Length {
        n := reassembledData.Length - offset;
      }
      if offset < 0 || n < 0 || n > data.Length || offset + n > reassembledData.Length {
        return true;
      }
      ArrayCopy(data, 0, reassembledData, offset, n);
      assert data[0..n] == data[..n];
      return false;
    }

    /** One pass of the `while (true)` loop of `get`. */
    method ReceiveStep(a: Arrival) returns (step: Step)
      requires Valid() && receivePacket.length == PACKET_SIZE
      modifies this, receiveData, receivePacket, reassembledData
      ensures Valid()
      ensures receiveData == old(receiveData) && reassembledData == old(reassembledData)
      ensures receivePacket == old(receivePacket) || fresh(receivePacket)
      ensures (State(), step) == StepSpec(old(State()), a, gremlin.dmgChance)
    {
      ghost var s := State();
      Receive(a.bytes);
      assert receiveData[..] == Received(s.buffer, a.bytes);
      if receiveData[0] == 0 {
        return Terminated;
      }
      var checksum := ParseShort(receiveData[..], CHECKSUM_OFFSET);
      var sequence := ParseShort(receiveData[..], SEQUENCE_OFFSET);
      ghost var buffer := receiveData[..];
      var touch;
      receivePacket, touch := gremlin.TouchPacket(receivePacket, a.damageRoll, a.countRoll, a.indexRolls);
      assert receiveData[..] == Impairment.TouchedData(buffer, touch);
      if touch.OutOfRolls? || touch.OutOfBounds? {
        return if touch.OutOfRolls? then Stalled else Crashed;
      }
      step := Consume(checksum, sequence);
    }

    /** The second half of a pass, after `touchPacket`: `copyOfRange` of the
        payload, `verifyChecksum`, the two counters, `reassemble`, and a fresh
        receive packet over the receive buffer. */
    method Consume(checksum: Short, sequence: Short) returns (step: Step)
      requires Valid()
      modifies this, reassembledData
      ensures Valid() && receiveData == old(receiveData) && reassembledData == old(reassembledData)
      ensures receivePacket == old(receivePacket) || fresh(receivePacket)
      ensures (State(), step) == Consumed(old(State()), checksum, sequence)
    {
      if receivePacket.length < DATA_OFFSET {
        return Crashed;
      }
      var dataBytes := CopyOfRange(receivePacket.data, DATA_OFFSET, receivePacket.length);
      var verified := VerifyChecksum(dataBytes, checksum);
      packetsReceived := packetsReceived + 1;
      if !verified {
        checksumErrors := checksumErrors + 1;
      }
      var thrown := Reassemble(dataBytes, sequence, dataBytes.Length);
      if thrown {
        return Crashed;
      }
      receivePacket := new Impairment.Datagram(receiveData, receiveData.Length);
      return Continue;
    }

    /** The receive side of `get()`: allocates the file buffer for the
        announced `fileLength` and a fresh receive buffer and packet, then runs
        the receive loop over the datagrams `arrivals`. A negative length makes
        the allocation throw before anything changes. */
    method Get(fileLength: int, arrivals: seq<Arrival>) returns (step: Step, consumed: nat)
      modifies this
      ensures fileLength < 0 ==> step == Crashed && consumed == 0 && unchanged(this)
      ensures fileLength >= 0 ==>
        && Valid()
        && (State(), step, consumed) ==
             Run(Start(fileLength, old(packetsReceived), old(checksumErrors)), arrivals, Pass(gremlin.dmgChance))
    {
      if fileLength < 0 {
        return Crashed, 0;
      }
      reassembledData := new SByte[fileLength](_ => 0);
      receiveData := new SByte[PACKET_SIZE](_ => 0);
      receivePacket := new Impairment.Datagram(receiveData, receiveData.Length);
      assert State() == Start(fileLength, old(packetsReceived), old(checksumErrors));
      step, consumed := ReceiveAll(arrivals);
    }

    /** The `while (true)` loop of `get()` over the datagrams `arrivals`: it
        stops after the first pass that does not go on, or waits in `receive`
        once the datagrams run out. `consumed` is how many it took. */
    method ReceiveAll(arrivals: seq<Arrival>) returns (step: Step, consumed: nat)
      requires Valid() && receivePacket.length == PACKET_SIZE
      modifies this, receiveData, receivePacket, reassembledData
      ensures Valid() && receiveData == old(receiveData) && reassembledData == old(reassembledData)
      ensures (State(), step, consumed) == Run(old(State()), arrivals, Pass(gremlin.dmgChance))
    {
      ghost var start := State();
      ghost var pass := Pass(gremlin.dmgChance);
      var i := 0;
      while i < |arrivals|
        invariant 0 <= i <= |arrivals|
        invariant Valid() && receivePacket.length == PACKET_SIZE
        invariant receiveData == old(receiveData) && reassembledData == old(reassembledData)
        invariant receivePacket == old(receivePacket) || fresh(receivePacket)
        invariant pass == Pass(gremlin.dmgChance)
        invariant Run(start, arrivals, pass) == Shifted(Run(State(), arrivals[i..], pass), i)
      {
        ghost var before := State();
        step := ReceiveStep(arrivals[i]);
        RunStep(start, arrivals, pass, i, before, State(), step);
        i := i + 1;
        if step != Continue {
          return step, i;
        }
      }
      assert arrivals[i..] == [];
      return Continue, i;
    }
  }
}
