/** The sending side: the packet codec, the per-client Go-Back-N session
    (its queue, its window and one pass of its transmission loop) and the
    registry of sessions kept by the server. */
module UdpServer {
  import opened JavaLang

  const PACKET_SIZE := 512
  const CHECKSUM_SIZE := 2
  const SEQUENCE_SIZE := 2
  const DATA_OFFSET := 4
  const DATA_SIZE := PACKET_SIZE - CHECKSUM_SIZE - SEQUENCE_SIZE
  const CHECKSUM_OFFSET := 0
  const SEQUENCE_OFFSET := 2
  const SEQUENCE_MODULO := 64
  const WINDOW_SIZE := 32

  /** What a step that may call `System.exit` leads to. */
  datatype Status = Running | Exited(code: int)

  // ---------------------------------------------------------------------
  // Packet codec
  // ---------------------------------------------------------------------

  /** The 16-bit checksum of a payload: the sum of its signed bytes, wrapped
      into a `short`. */
  function ChecksumOf(data: seq<SByte>): Short
  {
    ToShort(SignedSum(data))
  }

  /** `checksum(arr, dataLength)`: accumulates `arr[0..dataLength)` into a
      `short`, wrapping at every step. */
  method Checksum(arr: array<SByte>, dataLength: int) returns (checksum: Short)
    requires dataLength <= arr.Length
    ensures checksum == ChecksumOf(arr[..if dataLength < 0 then 0 else dataLength])
  {
    checksum := 0;
    var i := 0;
    while i < dataLength
      invariant 0 <= i <= (if dataLength < 0 then 0 else dataLength)
      invariant checksum == ChecksumOf(arr[..i])
    {
      assert arr[..i + 1] == arr[..i] + [arr[i]];
      ToShortAbsorbs(SignedSum(arr[..i]), arr[i]);
      checksum := ToShort(checksum + arr[i]);
      i := i + 1;
    }
  }

  /** The byte `shortToByte` stores first: `(byte) ((value >> 8) & 0xff)`.
      On the sign-extended value, `>> 8` is floor division by 256. */
  function HighByte(value: Short): SByte
  {
    ToByte((value / 256) % 256)
  }

  /** The byte `shortToByte` stores second: `(byte) (value & 0xff)`. */
  function LowByte(value: Short): SByte
  {
    ToByte(value % 256)
  }

  /** `shortToByte(value, arr, offset)`: big-endian store of a `short`. */
  method ShortToByte(value: Short, arr: array<SByte>, offset: int)
    requires 0 <= offset && offset + 1 < arr.Length
    modifies arr
    ensures arr[offset] == HighByte(value) && arr[offset + 1] == LowByte(value)
    ensures forall i :: 0 <= i < arr.Length && i != offset && i != offset + 1 ==> arr[i] == old(arr[i])
  {
    arr[offset + 1] := ToByte(value % 256);
    arr[offset] := ToByte((value / 256) % 256);
  }

  function Zeros(n: nat): (z: seq<SByte>)
    ensures |z| == n && forall i :: 0 <= i < n ==> z[i] == 0
  {
    seq(n, _ => 0)
  }

  /** The 512-byte wire image of a packet: checksum and sequence big-endian,
      then the payload, then zero fill. */
  function Frame(checksum: Short, wireSequence: Short, data: seq<SByte>): seq<SByte>
    requires |data| <= DATA_SIZE
  {
    [HighByte(checksum), LowByte(checksum), HighByte(wireSequence), LowByte(wireSequence)]
      + data + Zeros(DATA_SIZE - |data|)
  }

  /** A frame is always `PACKET_SIZE` long and its payload region holds the
      payload followed by zeros. */
  lemma FrameLayout(checksum: Short, wireSequence: Short, data: seq<SByte>)
    requires |data| <= DATA_SIZE
    ensures |Frame(checksum, wireSequence, data)| == PACKET_SIZE
    ensures Frame(checksum, wireSequence, data)[DATA_OFFSET..DATA_OFFSET + |data|] == data
    ensures forall i :: DATA_OFFSET + |data| <= i < PACKET_SIZE ==> Frame(checksum, wireSequence, data)[i] == 0
  {
    var f := Frame(checksum, wireSequence, data);
    assert f[DATA_OFFSET..] == data + Zeros(DATA_SIZE - |data|);
  }

  /** A packet to be sent. `sequence` is a field the source declares but never
      assigns, so it is the constant 0, Java's default; the sequence handed to the
      constructor reaches the wire only through `buffer`. The fields only the
      constructor assigns are `const`. `compiled` is the array handed to the
      socket, and it is the caller's payload array itself. `buffer` is written
      only while the constructor fills it, so it is kept as the value it ends
      up holding. */
  class Packet {
    const sequence: Short := 0
    const checksum: Short
    const compiled: array<SByte>
    const buffer: seq<SByte>
    const created: int
    var sent: int
    var inTransit: bool
    var isCompleted: bool
    /** The queue slot the packet was created for; proof bookkeeping only. */
    ghost const position: nat

    /** `new Packet(sequence, data)` at clock time `now`, for the queue slot
        `position`. */
    constructor (sequence: Short, data: array<SByte>, now: int, ghost position: nat)
      requires data.Length <= DATA_SIZE
      ensures checksum == ChecksumOf(data[..])
      ensures buffer == Frame(checksum, ToShort(sequence + 1), data[..])
      ensures compiled == data
      ensures created == now && sent == 0 && !inTransit && !isCompleted
      ensures this.position == position
    {
      var c := Checksum(data, data.Length);
      assert data[..data.Length] == data[..];
      var buf := new SByte[PACKET_SIZE](_ => 0);
      var wireSequence := ToShort(sequence + 1);
      ShortToByte(c, buf, CHECKSUM_OFFSET);
      ShortToByte(wireSequence, buf, SEQUENCE_OFFSET);
      ghost var header := buf[..DATA_OFFSET];
      assert header == [HighByte(c), LowByte(c), HighByte(wireSequence), LowByte(wireSequence)];
      assert buf[DATA_OFFSET + data.Length..] == Zeros(DATA_SIZE - data.Length);
      ArrayCopy(data, 0, buf, DATA_OFFSET, data.Length);
      assert data[0..data.Length] == data[..];
      this.created := now;
      this.checksum := c;
      this.buffer := buf[..];
      this.compiled := data;
      this.sent := 0;
      this.inTransit := false;
      this.isCompleted := false;
      this.position := position;
    }
  }

  // ---------------------------------------------------------------------
  // Sessions
  // ---------------------------------------------------------------------

  /** A client's socket address. The registry compares addresses with `==`,
      which on Java objects is identity, so this is a class, not a value. */
  class SocketAddress {
    const host: string
    const port: int

    constructor (host: string, port: int)
      ensures this.host == host && this.port == port
    {
      this.host := host;
      this.port := port;
    }
  }

  /** The sequence number `enqueue` hands to the next packet: 0 for an empty
      queue, otherwise the last packet's stored `sequence` plus one, taken
      with Java's `%` and narrowed to a `short`. */
  function SequenceArgument(queue: seq<Packet>): (r: Short)
    ensures 0 <= r < SEQUENCE_MODULO
    ensures r == if queue == [] then 0 else 1
  {
    if |queue| > 0 then ToShort(JavaRem(queue[|queue| - 1].sequence + 1, SEQUENCE_MODULO)) else 0
  }

  /** The payload array after `FileInputStream.read(buffer)` returned the
      chunk `chunk`: the chunk overwrites the front, the rest is left over
      from earlier reads. */
  function AfterRead(buffer: seq<SByte>, chunk: seq<SByte>): (r: seq<SByte>)
    requires |chunk| <= |buffer|
    ensures |r| == |buffer| && r[..|chunk|] == chunk && r[|chunk|..] == buffer[|chunk|..]
  {
    chunk + buffer[|chunk|..]
  }

  /** What one `FileInputStream.read(buffer)` can deliver into a
      `DATA_SIZE`-byte buffer. */
  type Chunk = c: seq<SByte> | |c| <= DATA_SIZE

  /** The contents of `serve`'s read buffer after the given reads. */
  function ReadBuffer(chunks: seq<Chunk>): (r: seq<SByte>)
    ensures |r| == DATA_SIZE
  {
    if chunks == [] then Zeros(DATA_SIZE)
    else AfterRead(ReadBuffer(chunks[..|chunks| - 1]), chunks[|chunks| - 1])
  }

  /** The contents of `serve`'s read buffer after each of the given reads. */
  function ReadStates(chunks: seq<Chunk>): (r: seq<seq<SByte>>)
    ensures |r| == |chunks|
  {
    if chunks == [] then [] else ReadStates(chunks[..|chunks| - 1]) + [ReadBuffer(chunks)]
  }

  /** The buffer after read `j` holds chunk `j` at the front and the leftovers
      of earlier reads behind it. */
  lemma {:induction false} ReadStatesAt(chunks: seq<Chunk>, j: nat)
    requires j < |chunks|
    ensures ReadStates(chunks)[j] == ReadBuffer(chunks[..j + 1])
  {
    if j < |chunks| - 1 {
      var init := chunks[..|chunks| - 1];
      assert init[..j + 1] == chunks[..j + 1];
      ReadStatesAt(init, j);
    } else {
      assert chunks[..j + 1] == chunks;
    }
  }

  /** The sequence number on the wire of the packet at position `k` of a
      session's queue: with every stored `sequence` left at 0, `enqueue`
      passes 0 for the first packet and 1 for every later one, and the
      constructor adds one. */
  function WireSequenceAt(k: nat): Short
  {
    if k == 0 then 1 else 2
  }

  /** Per-client state of the Go-Back-N sender (`GoBackNThread`). */
  class GoBackNThread {
    /** The enclosing `Server`, whose registry the completion step edits. */
    const outer: Server
    const clientAddress: SocketAddress
    var queue: seq<Packet>
    var window: array<Packet?>
    var hasCompletedTransmission: bool
    var isRunning: bool

    /** Every packet sits at the queue slot it was created for, so no packet
        is queued twice, and the window has `WINDOW_SIZE` slots. */
    ghost predicate Valid()
      reads this
    {
      && window.Length == WINDOW_SIZE
      && (forall i :: 0 <= i < |queue| ==> queue[i].position == i)
    }

    /** The queue never holds the same packet twice. */
    lemma QueueDistinct()
      requires Valid()
      ensures Distinct(queue)
    {
      forall i, j | 0 <= i < j < |queue| ensures queue[i] != queue[j] {
        assert queue[i].position != queue[j].position;
      }
    }

    constructor (outer: Server, clientAddress: SocketAddress)
      ensures this.outer == outer && this.clientAddress == clientAddress
      ensures Valid() && queue == [] && fresh(window)
      ensures forall i :: 0 <= i < window.Length ==> window[i] == null
      ensures !hasCompletedTransmission && isRunning
    {
      this.outer := outer;
      this.clientAddress := clientAddress;
      queue := [];
      window := new Packet?[WINDOW_SIZE](_ => null);
      hasCompletedTransmission := false;
      isRunning := true;
    }

    /** `enqueue(data)`: appends one new packet and changes nothing else. */
    method Enqueue(data: array<SByte>, now: int)
      requires Valid()
      requires data.Length <= DATA_SIZE
      modifies this`queue
      ensures Valid()
      ensures |queue| == |old(queue)| + 1 && queue == old(queue) + [queue[|queue| - 1]]
      ensures var p := queue[|queue| - 1];
        && fresh(p) && p.compiled == data
        && p.checksum == ChecksumOf(data[..])
        && p.buffer == Frame(p.checksum, WireSequenceAt(|old(queue)|), data[..])
        && p.created == now && !p.inTransit
    {
      var nextSequence := if |queue| > 0 then queue[|queue| - 1].sequence + 1 else 0;
      var sequence := ToShort(JavaRem(nextSequence, SEQUENCE_MODULO));
      assert sequence == SequenceArgument(queue) == if |queue| == 0 then 0 else 1;
      var p := new Packet(sequence, data, now, |queue|);
      queue := queue + [p];
    }

    /** `send(packet)`: stamps `sent`, hands `compiled` to the transport and
        marks the packet in transit only if the transport accepted it; a
        transport failure ends the process with status 500. */
    method Send(packet: Packet, now: int, transportOk: bool) returns (status: Status)
      modifies packet`sent, packet`inTransit
      ensures packet.sent == now
      ensures transportOk ==> packet.inTransit && status == Running
      ensures !transportOk ==> packet.inTransit == old(packet.inTransit) && status == Exited(500)
    {
      packet.sent := now;
      if transportOk {
        packet.inTransit := true;
        status := Running;
      } else {
        status := Exited(500);
      }
    }

    /** One pass of the loop in `run`: every queued packet not yet in transit
        is stamped and handed to the transport, in queue order, and stored at
        `window[sequence]`. `transportOk[k]` says whether the transport
        accepts the packet at queue position `k`; the first refusal ends the
        process, and `stop` is the position where the pass ended. Since no
        packet's `sequence` is ever assigned, every store goes to slot 0 and
        the window keeps only the last packet sent. */
    method TransmitPass(now: int, transportOk: seq<bool>) returns (status: Status, ghost stop: nat)
      requires Valid()
      requires |transportOk| == |queue|
      modifies window, set p | p in queue
      ensures Valid() && queue == old(queue)
      ensures stop <= |queue|
      ensures !Refused(old(Snapshot(queue)), transportOk, stop)
      ensures stop < |queue| ==> !old(Snapshot(queue))[stop].inTransit && !transportOk[stop] && status == Exited(500)
      ensures stop == |queue| ==> status == Running
      ensures Snapshot(queue) == AfterPass(old(Snapshot(queue)), stop, now)
      ensures window[..] == WindowAfter(old(window[..]), queue, LastPending(old(Snapshot(queue)), stop))
    {
      ghost var q := queue;
      ghost var before := Snapshot(q);
      ghost var w0 := window[..];
      status := Running;
      var i := 0;
      while i < |queue|
        invariant queue == q && 0 <= i <= |q| && status == Running
        invariant !Refused(before, transportOk, i)
        invariant Snapshot(q) == Stamped(before, i, now)
        invariant window[..] == WindowAfter(w0, q, LastPending(before, i))
      {
        status := TransmitAt(i, now, transportOk[i], before, w0);
        if status.Exited? {
          stop := i;
          return;
        }
        i := i + 1;
      }
      stop := i;
      assert Stamped(before, i, now) == AfterPass(before, i, now);
    }

    /** The body of `run`'s loop for the packet at queue position `i`: if it is
        not in transit, `send` it, then store it at `window[sequence]`. The
        contract relates the state to the snapshot `before` taken when the
        pass began and to the window `w0` it began with. */
    method TransmitAt(i: nat, now: int, transportOk: bool, ghost before: seq<PacketFields>, ghost w0: seq<Packet?>)
      returns (status: Status)
      requires window.Length == WINDOW_SIZE
      requires forall k :: 0 <= k < |queue| ==> queue[k].position == k
      requires i < |queue| == |before| && |w0| == WINDOW_SIZE
      requires Snapshot(queue) == Stamped(before, i, now)
      requires window[..] == WindowAfter(w0, queue, LastPending(before, i))
      modifies queue[i], window
      ensures status.Running? ==>
        && (before[i].inTransit || transportOk)
        && Snapshot(queue) == Stamped(before, i + 1, now)
        && window[..] == WindowAfter(w0, queue, LastPending(before, i + 1))
      ensures status.Exited? ==>
        && !before[i].inTransit && !transportOk && status == Exited(500)
        && Snapshot(queue) == AfterPass(before, i, now)
        && window[..] == WindowAfter(w0, queue, LastPending(before, i))
    {
      var packet := queue[i];
      assert FieldsOf(packet) == Snapshot(queue)[i] == before[i];
      StampedStep(before, i, now);
      if !packet.inTransit {
        status := Send(packet, now, transportOk);
        assert forall k :: 0 <= k < |queue| && k != i ==> queue[k] != packet;
        if status.Running? {
          window[packet.sequence] := packet;
        }
      } else {
        status := Running;
      }
    }

    /** The completion step of `run`: once the transmission is complete the
        session leaves the registry and stops running. */
    method FinishIfCompleted()
      modifies this`isRunning, outer`threads
      ensures hasCompletedTransmission ==>
        outer.threads == RemoveFirst(old(outer.threads), this) && !isRunning
      ensures !hasCompletedTransmission ==>
        outer.threads == old(outer.threads) && isRunning == old(isRunning)
    {
      if hasCompletedTransmission {
        outer.threads := RemoveFirst(outer.threads, this);
        isRunning := false;
      }
    }

    /** `serve`: enqueues one packet per chunk the file yields, then the
        one-byte terminator. Every read goes into one shared buffer, which is
        also what each data packet keeps as `compiled`; since `enqueue` is
        handed the whole buffer, each data packet carries all `DATA_SIZE`
        bytes of it, including bytes left over from earlier reads. */
    method Serve(chunks: seq<Chunk>, now: int)
      requires Valid()
      requires forall j :: 0 <= j < |chunks| ==> chunks[j] != []
      modifies this`queue
      ensures Valid()
      ensures |queue| == |old(queue)| + |chunks| + 1 && queue[..|old(queue)|] == old(queue)
      ensures forall k :: |old(queue)| <= k < |queue| - 1 ==>
        && fresh(queue[k]) && queue[k].compiled == queue[|old(queue)|].compiled
      ensures forall k :: |old(queue)| <= k < |queue| - 1 ==>
        Carries(queue[k], ReadStates(chunks)[k - |old(queue)|], k)
      ensures |chunks| > 0 ==> queue[|old(queue)|].compiled[..] == ReadBuffer(chunks)
      ensures var t := queue[|queue| - 1];
        fresh(t) && t.compiled[..] == [0] && Carries(t, [0], |queue| - 1)
    {
      var buffer := new SByte[DATA_SIZE](_ => 0);
      ReadAll(buffer, chunks, now);
      ghost var read := queue;
      var terminator := new SByte[1](_ => 0);
      assert terminator[..] == [0];
      Enqueue(terminator, now);
      assert queue == read + [queue[|read|]];
      assert queue[..|old(queue)|] == read[..|old(queue)|];
    }

    /** `serve`'s read loop: every chunk is read into the one shared buffer
        and the buffer is enqueued after each read. */
    method ReadAll(buffer: array<SByte>, chunks: seq<Chunk>, now: int)
      requires Valid()
      requires buffer.Length == DATA_SIZE && buffer[..] == ReadBuffer([])
      requires forall j :: 0 <= j < |chunks| ==> chunks[j] != []
      modifies buffer, this`queue
      ensures Valid()
      ensures |queue| == |old(queue)| + |chunks| && queue == old(queue) + queue[|old(queue)|..]
      ensures buffer[..] == ReadBuffer(chunks)
      ensures forall k :: |old(queue)| <= k < |queue| ==>
        && fresh(queue[k]) && queue[k].compiled == buffer
        && Carries(queue[k], ReadStates(chunks)[k - |old(queue)|], k)
    {
      ghost var added: seq<Packet> := [];
      ghost var contents: seq<seq<SByte>> := [];
      var i := 0;
      while i < |chunks|
        invariant 0 <= i <= |chunks|
        invariant Valid()
        invariant queue == old(queue) + added && |added| == i
        invariant buffer[..] == ReadBuffer(chunks[..i])
        invariant contents == ReadStates(chunks[..i])
        invariant forall j :: 0 <= j < i ==>
          && fresh(added[j]) && added[j].compiled == buffer
          && Carries(added[j], contents[j], |old(queue)| + j)
      {
        assert chunks[..i + 1][..i] == chunks[..i];
        ReadAndEnqueue(buffer, chunks[i], now);
        added := added + [queue[|queue| - 1]];
        contents := contents + [buffer[..]];
        i := i + 1;
      }
      assert chunks[..|chunks|] == chunks;
    }

    /** One turn of `serve`'s loop: read the next chunk into the shared
        buffer, then enqueue the buffer. */
    method ReadAndEnqueue(buffer: array<SByte>, chunk: seq<SByte>, now: int)
      requires Valid()
      requires 1 <= |chunk| <= buffer.Length == DATA_SIZE
      modifies buffer, this`queue
      ensures Valid()
      ensures buffer[..] == AfterRead(old(buffer[..]), chunk)
      ensures |queue| == |old(queue)| + 1 && queue == old(queue) + [queue[|queue| - 1]]
      ensures var p := queue[|queue| - 1];
        fresh(p) && p.compiled == buffer && Carries(p, buffer[..], |old(queue)|)
    {
      ReadInto(buffer, chunk);
      Enqueue(buffer, now);
    }
  }

  /** A snapshot of the fields of a `Packet` that can change after it is built. */
  datatype PacketFields = PacketFields(sent: int, inTransit: bool, isCompleted: bool)

  ghost function FieldsOf(p: Packet): PacketFields
    reads p
  {
    PacketFields(p.sent, p.inTransit, p.isCompleted)
  }

  /** A packet's fields after a pass handed it to a transport that accepted
      it: stamped and in transit. A packet already in transit is skipped. */
  function Accepted(f: PacketFields, now: int): PacketFields
  {
    if f.inTransit then f else f.(sent := now, inTransit := true)
  }

  /** The fields of a run of packets after each of the first `n` was handed
      to a transport that accepted it. */
  function Stamped(before: seq<PacketFields>, n: nat, now: int): (r: seq<PacketFields>)
    ensures |r| == |before|
    ensures forall k :: 0 <= k < |r| ==> r[k] == if k < n then Accepted(before[k], now) else before[k]
  {
    seq(|before|, k requires 0 <= k < |before| => if k < n then Accepted(before[k], now) else before[k])
  }

  /** The last position below `n` whose packet was not in transit according
      to `before`, or -1: the packet a pass that reaches `n` sent last. */
  function LastPending(before: seq<PacketFields>, n: nat): (r: int)
    requires n <= |before|
    ensures -1 <= r < n
    ensures r >= 0 ==> !before[r].inTransit
    ensures forall k :: r < k < n ==> before[k].inTransit
  {
    if n == 0 then -1 else if !before[n - 1].inTransit then n - 1 else LastPending(before, n - 1)
  }

  /** The window after a pass whose last packet sent was `q[last]` (none
      when `last` is negative): every packet goes to slot 0. */
  function WindowAfter(window: seq<Packet?>, q: seq<Packet>, last: int): seq<Packet?>
    requires |window| > 0 && last < |q|
  {
    if last < 0 then window else window[0 := q[last]]
  }

  /** The fields of a run of packets after a pass that ended at `stop`: the
      packets before it were accepted, and the one at `stop`, if any, was
      stamped but refused. */
  function AfterPass(before: seq<PacketFields>, stop: nat, now: int): (r: seq<PacketFields>)
    requires stop <= |before|
    ensures |r| == |before|
    ensures forall k :: 0 <= k < |r| ==>
      r[k] == if k < stop then Accepted(before[k], now) else if k == stop then before[k].(sent := now) else before[k]
  {
    if stop < |before| then Stamped(before, stop, now)[stop := before[stop].(sent := now)]
    else Stamped(before, stop, now)
  }

  /** Whether the transport refuses some packet below position `n` that is
      not in transit according to `before`. */
  function Refused(before: seq<PacketFields>, transportOk: seq<bool>, n: nat): bool
    requires n <= |before| == |transportOk|
  {
    n > 0 && (Refused(before, transportOk, n - 1) || (!before[n - 1].inTransit && !transportOk[n - 1]))
  }

  /** `Refused` holds exactly when some position below `n` is both pending
      and refused. */
  lemma {:induction false} RefusedExactly(before: seq<PacketFields>, transportOk: seq<bool>, n: nat)
    requires n <= |before| == |transportOk|
    ensures Refused(before, transportOk, n) <==> exists k :: 0 <= k < n && !before[k].inTransit && !transportOk[k]
  {
    if n > 0 {
      RefusedExactly(before, transportOk, n - 1);
    }
  }

  /** One more accepted packet extends `Stamped` by one position. */
  lemma StampedStep(before: seq<PacketFields>, n: nat, now: int)
    requires n < |before|
    ensures Stamped(before, n + 1, now) == Stamped(before, n, now)[n := Accepted(before[n], now)]
  {
  }

  /** The fields of each packet of a run. */
  ghost function Snapshot(ps: seq<Packet>): (r: seq<PacketFields>)
    reads ps
    ensures |r| == |ps| && forall k :: 0 <= k < |ps| ==> r[k] == FieldsOf(ps[k])
  {
    seq(|ps|, k requires 0 <= k < |ps| reads ps => FieldsOf(ps[k]))
  }

  /** `p` is the packet built from `contents` at queue position `position`:
      its checksum is that of `contents` and its buffer is the matching frame. */
  ghost predicate Carries(p: Packet, contents: seq<SByte>, position: nat)
  {
    && |contents| <= DATA_SIZE
    && p.checksum == ChecksumOf(contents)
    && p.buffer == Frame(p.checksum, WireSequenceAt(position), contents)
  }

  /** `FileInputStream.read(buffer)` returning the chunk `chunk`. */
  method ReadInto(buffer: array<SByte>, chunk: seq<SByte>)
    requires 1 <= |chunk| <= buffer.Length
    modifies buffer
    ensures buffer[..] == AfterRead(old(buffer[..]), chunk)
  {
    forall i | 0 <= i < |chunk| {
      buffer[i] := chunk[i];
    }
  }

  /** The server's registry of client sessions. */
  class Server {
    var threads: seq<GoBackNThread>

    constructor ()
      ensures threads == []
    {
      threads := [];
    }

    /** `createClientThread(address)`: the first session whose address is the
        very same object, or else a new session appended to the registry. */
    method CreateClientThread(address: SocketAddress) returns (thread: GoBackNThread)
      modifies this`threads
      ensures var i := FirstSessionFor(old(threads), address);
        && (i >= 0 ==> thread == old(threads)[i] && threads == old(threads))
        && (i < 0 ==>
              && fresh(thread) && fresh(thread.window) && threads == old(threads) + [thread]
              && thread.outer == this && thread.clientAddress == address
              && thread.Valid() && thread.queue == []
              && thread.isRunning && !thread.hasCompletedTransmission)
    {
      var k := 0;
      while k < |threads|
        invariant 0 <= k <= |threads|
        invariant forall j :: 0 <= j < k ==> threads[j].clientAddress != address
      {
        if threads[k].clientAddress == address {
          thread := threads[k];
          return;
        }
        k := k + 1;
      }
      thread := new GoBackNThread(this, address);
      threads := threads + [thread];
    }
  }

  /** Position of the first session registered for exactly this address
      object, or -1. */
  function FirstSessionFor(threads: seq<GoBackNThread>, address: SocketAddress): (i: int)
    ensures -1 <= i < |threads|
    ensures i >= 0 ==> threads[i].clientAddress == address
    ensures forall j :: 0 <= j < |threads| && (i < 0 || j < i) ==> threads[j].clientAddress != address
  {
    if threads == [] then -1
    else if threads[0].clientAddress == address then 0
    else
      var i := FirstSessionFor(threads[1..], address);
      if i < 0 then -1 else i + 1
  }
}
