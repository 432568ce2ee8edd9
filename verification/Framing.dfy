/** A stream socket: writes and reads move any positive number of bytes, as the peer pleases. */
module Sockets {
  import opened Common

  /** Only a proper prefix of `data` was added to `before`. */
  ghost predicate CutShort(before: Bytes, after: Bytes, data: Bytes) {
    exists k: nat :: k < |data| && after == before + data[..k]
  }

  lemma CutInside(before: Bytes, after: Bytes, head: Bytes, part: Bytes, rest: Bytes)
    requires CutShort(before + head, after, part)
    ensures CutShort(before, after, head + part + rest)
  {
    var k: nat :| k < |part| && after == before + head + part[..k];
    assert (head + part + rest)[..|head| + k] == head + part[..k];
  }

  class Socket {
    var outbox: Bytes   // what the peer has been sent
    var inbox: Bytes    // what can still be read; after it the peer has closed
    var broken: bool    // no further write succeeds

    /** Some positive amount of `data` is taken; 0 when the connection is gone. */
    method Send(data: Bytes) returns (sent: nat)
      requires data != []
      modifies this`outbox, this`broken
      ensures sent <= |data| && outbox == old(outbox) + data[..sent]
      ensures sent == 0 ==> broken
      ensures sent > 0 ==> !broken
    {
      var gone: bool := *;
      if broken || gone {
        broken := true;
        assert data[..0] == [];
        return 0;
      }
      sent := 1;
      while sent < |data|
        invariant 1 <= sent <= |data|
      {
        if * {
          break;
        }
        sent := sent + 1;
      }
      outbox := outbox + data[..sent];
    }

    /** At most `n` bytes, at least one unless the peer has closed and everything was read. */
    method Recv(n: nat) returns (chunk: Bytes)
      requires n > 0
      modifies this`inbox
      ensures chunk + inbox == old(inbox) && |chunk| <= n
      ensures chunk == [] <==> old(inbox) == []
    {
      if inbox == [] {
        return [];
      }
      var k := 1;
      while k < n && k < |inbox|
        invariant 1 <= k <= n && k <= |inbox|
      {
        if * {
          break;
        }
        k := k + 1;
      }
      chunk := inbox[..k];
      inbox := inbox[k..];
    }

    /** `socket.sendall`: all of it, or a prefix of it and an exception. */
    method SendAll(data: Bytes) returns (ok: bool)
      modifies this`outbox, this`broken
      ensures ok ==> outbox == old(outbox) + data
      ensures !ok ==> broken && CutShort(old(outbox), outbox, data)
    {
      var offset := 0;
      while offset < |data|
        invariant offset <= |data| && outbox == old(outbox) + data[..offset]
      {
        var sent := Send(data[offset..]);
        assert data[..offset] + data[offset..][..sent] == data[..offset + sent];
        offset := offset + sent;
        if sent == 0 {
          return false;
        }
      }
      assert data[..|data|] == data;
      return true;
    }
  }
}

/** net/protocol.py and net/io.py: binary messages over a stream socket. */
module Framing {
  import opened Common
  import opened BigEndian
  import opened FrameHeaders
  import opened Sockets

  datatype Message = Message(
    kind: string, name: Bytes, payload: Bytes, sequence: Option<int>, fragmented: bool,
    fragmentIndex: Option<int>, fragmentsTotal: Option<int>, framePayloadLen: Option<int>,
    flags: Option<int>, timestampNs: Option<int>, contentType: Option<int>, headerVersion: int)

  datatype Error = ConnectionClosed | ConnectionError | ProtocolError | BadHeader(failure: Failure)

  function FrameTypeOfKind(kind: string): FrameType {
    if kind == "ack" then AckFrame
    else if kind == "error" then ErrorFrame
    else if kind == "heartbeat" then HeartbeatFrame
    else if kind == "eof" then EofFrame
    else DataFrame
  }

  function KindOf(t: FrameType): string {
    match t
    case AckFrame => "ack"
    case ErrorFrame => "error"
    case HeartbeatFrame => "heartbeat"
    case EofFrame => "eof"
    case _ => "data"
  }

  function OrZero(o: Option<int>): int {
    if o == None then 0 else o.value
  }

  // ---- Writing ----

  /** The fragment block of a message and whether more fragments follow. A total of 0 counts as none. */
  function BuildFragmentInfo(m: Message): (Option<FragmentInfo>, bool) {
    if !m.fragmented && OrZero(m.fragmentsTotal) == 0 then (None, false)
    else
      var total := if OrZero(m.fragmentsTotal) == 0 then 1 else m.fragmentsTotal.value;
      var index := OrZero(m.fragmentIndex);
      var length := if m.framePayloadLen == None then |m.payload| else m.framePayloadLen.value;
      (Some(FragmentInfo(index, total, length)), index < total - 1 || (m.fragmented && m.fragmentsTotal == None))
  }

  function HeaderOf(m: Message): FrameHeader {
    var t := FrameTypeOfKind(m.kind);
    var (fragment, more) := BuildFragmentInfo(m);
    FrameHeader(t, OrZero(m.sequence), |m.name|, |m.payload|, OrZero(m.timestampNs), OrZero(m.contentType),
                ComposeFlags(t, fragment.Some?, more), m.headerVersion, fragment)
  }

  /** The bytes of a message on the wire, if it can be written. */
  function Serialize(m: Message): Result<Bytes, Error> {
    if |m.name| > 0xFFFF then Err(ProtocolError)
    else
      match ToBytes(HeaderOf(m))
      case Err(e) => Err(BadHeader(e))
      case Ok(header) => Ok(header + m.name + m.payload)
  }

  /** Sends in slices of at most `chunkSize` bytes, however little each write takes. */
  method SendChunked(sock: Socket, payload: Bytes, chunkSize: nat) returns (r: Result<(), Error>)
    requires chunkSize > 0
    modifies sock`outbox, sock`broken
    ensures r.Ok? ==> sock.outbox == old(sock.outbox) + payload
    ensures r.Err? ==> r.error == ConnectionClosed && CutShort(old(sock.outbox), sock.outbox, payload)
  {
    var offset := 0;
    while offset < |payload|
      invariant offset <= |payload| && sock.outbox == old(sock.outbox) + payload[..offset]
    {
      var end := Min(offset + chunkSize, |payload|);
      var sent := sock.Send(payload[offset..end]);
      assert payload[..offset] + payload[offset..end][..sent] == payload[..offset + sent];
      if sent <= 0 {
        return Err(ConnectionClosed);
      }
      offset := offset + sent;
    }
    assert payload[..|payload|] == payload;
    return Ok(());
  }

  /** `_send_binary`: exactly the serialised message goes out, or some prefix of it and an error;
      a message that cannot be serialised sends nothing. */
  method SendBinary(sock: Socket, m: Message) returns (r: Result<(), Error>)
    modifies sock`outbox, sock`broken
    ensures Serialize(m).Err? ==> r == Err(Serialize(m).error) && sock.outbox == old(sock.outbox)
    ensures Serialize(m).Ok? && r.Ok? ==> sock.outbox == old(sock.outbox) + Serialize(m).value
    ensures Serialize(m).Ok? && r.Err? ==> CutShort(old(sock.outbox), sock.outbox, Serialize(m).value)
  {
    hide ToBytes, HeaderOf, CutShort;
    if |m.name| > 0xFFFF {
      return Err(ProtocolError);
    }
    var header := ToBytes(HeaderOf(m));
    if header.Err? {
      return Err(BadHeader(header.error));
    }
    ghost var start := sock.outbox;
    assert start + [] == start;
    assert [] + header.value + (m.name + m.payload) == header.value + m.name + m.payload;
    assert header.value + m.name + m.payload + [] == header.value + m.name + m.payload;
    var ok := sock.SendAll(header.value);
    if !ok {
      CutInside(start, sock.outbox, [], header.value, m.name + m.payload);
      return Err(ConnectionError);
    }
    if m.name != [] {
      ok := sock.SendAll(m.name);
      if !ok {
        CutInside(start, sock.outbox, header.value, m.name, m.payload);
        return Err(ConnectionError);
      }
    }
    assert sock.outbox == start + (header.value + m.name);
    if m.payload != [] {
      r := SendChunked(sock, m.payload, 1400);
      if r.Err? {
        CutInside(start, sock.outbox, header.value + m.name, m.payload, []);
      }
      return;
    }
    return Ok(());
  }

  // ---- Reading ----

  datatype Received = End | Got(message: Message) | Failed(error: Error)

  function MessageOf(h: FrameHeader, name: Bytes, payload: Bytes): Message {
    Message(
      KindOf(h.frameType), name, payload, Some(h.sequence),
      IsFragmented(h.flags) || (h.fragment.Some? && h.fragment.value.total > 1) || HasMore(h.flags),
      if h.fragment.Some? then Some(h.fragment.value.index) else None,
      if h.fragment.Some? then Some(h.fragment.value.total) else None,
      if h.fragment.Some? then Some(h.fragment.value.framePayloadLen) else None,
      Some(h.flags), Some(h.timestampNs), Some(h.contentType), h.version)
  }

  /** What reading one message from a stream holding `b` yields, and what is left of the stream. */
  function Parse(b: Bytes, allowLegacy: bool): (Received, Bytes) {
    if b == [] then (End, [])
    else if |b| < HEADER_PREFIX_SIZE then (Failed(ConnectionClosed), [])
    else if HeaderLength(b[..HEADER_PREFIX_SIZE], allowLegacy) == None then
      (Failed(ProtocolError), b[HEADER_PREFIX_SIZE..])
    else
      var n := HeaderLength(b[..HEADER_PREFIX_SIZE], allowLegacy).value;
      if |b| < n then (Failed(ConnectionClosed), [])
      else
        match FromBytes(b[..n], allowLegacy)
        case Err(HeaderError) => (Failed(ProtocolError), b[n..])
        case Err(ValueError) => (Failed(BadHeader(ValueError)), b[n..])
        case Ok(h) => ParseBody(h, b[n..])
  }

  function ParseBody(h: FrameHeader, rest: Bytes): (Received, Bytes) {
    if h.nameLen < 0 || h.payloadLen < 0 || |rest| < h.nameLen + h.payloadLen then (Failed(ConnectionError), [])
    else (Got(MessageOf(h, rest[..h.nameLen], rest[h.nameLen..h.nameLen + h.payloadLen])),
          rest[h.nameLen + h.payloadLen..])
  }

  /** `recv_exact`: all `size` bytes, or the stream is used up and the peer was gone too early. */
  method RecvExact(sock: Socket, size: nat) returns (r: Result<Bytes, Error>)
    modifies sock`inbox
    ensures size <= |old(sock.inbox)| ==> r == Ok(old(sock.inbox)[..size]) && sock.inbox == old(sock.inbox)[size..]
    ensures size > |old(sock.inbox)| ==> r == Err(ConnectionError) && sock.inbox == []
  {
    var buf := [];
    var remaining := size;
    while remaining > 0
      invariant 0 <= remaining <= size && |buf| == size - remaining
      invariant buf + sock.inbox == old(sock.inbox)
    {
      var chunk := sock.Recv(remaining);
      if chunk == [] {
        return Err(ConnectionError);
      }
      buf := buf + chunk;
      remaining := remaining - |chunk|;
    }
    return Ok(buf);
  }

  /** Extends `buf` to `size` bytes from the socket, or reports that the stream ended first. */
  method Fill(sock: Socket, buf: Bytes, size: nat) returns (full: Bytes, ok: bool)
    requires |buf| <= size
    modifies sock`inbox
    ensures ok <==> size <= |buf| + |old(sock.inbox)|
    ensures ok ==> full + sock.inbox == buf + old(sock.inbox) && |full| == size
    ensures !ok ==> sock.inbox == []
  {
    full := buf;
    while |full| < size
      invariant |full| <= size && full + sock.inbox == buf + old(sock.inbox)
      decreases size - |full|
    {
      var chunk := sock.Recv(size - |full|);
      if chunk == [] {
        return full, false;
      }
      full := full + chunk;
    }
    return full, true;
  }

  /** `_recv_binary` gives what `Parse` says about the bytes in the stream, however they are cut into
      partial reads. */
  method RecvBinary(sock: Socket, allowLegacy: bool) returns (r: Received)
    modifies sock`inbox
    ensures (r, sock.inbox) == Parse(old(sock.inbox), allowLegacy)
  {
    ghost var all := sock.inbox;
    var first := sock.Recv(HEADER_PREFIX_SIZE);
    if first == [] {
      return End;
    }
    var prefix, ok := Fill(sock, first, HEADER_PREFIX_SIZE);
    if !ok {
      return Failed(ConnectionClosed);
    }
    assert prefix == all[..HEADER_PREFIX_SIZE] && sock.inbox == all[HEADER_PREFIX_SIZE..];
    var length := HeaderLength(prefix, allowLegacy);
    if length == None {
      return Failed(ProtocolError);
    }
    var headerBytes;
    headerBytes, ok := Fill(sock, prefix, length.value);
    if !ok {
      return Failed(ConnectionClosed);
    }
    assert headerBytes == all[..length.value] && sock.inbox == all[length.value..];
    var header := FromBytes(headerBytes, allowLegacy);
    if header.Err? {
      return Failed(if header.error == HeaderError then ProtocolError else BadHeader(ValueError));
    }
    var h := header.value;
    FieldsAreNatural(headerBytes, allowLegacy);
    r := RecvBody(sock, h);
  }

  method RecvBody(sock: Socket, h: FrameHeader) returns (r: Received)
    requires h.nameLen >= 0 && h.payloadLen >= 0
    modifies sock`inbox
    ensures (r, sock.inbox) == ParseBody(h, old(sock.inbox))
  {
    ghost var all := sock.inbox;
    var name := RecvExact(sock, h.nameLen);
    if name.Err? {
      return Failed(ConnectionError);
    }
    var payload := RecvExact(sock, h.payloadLen);
    if payload.Err? {
      return Failed(ConnectionError);
    }
    assert all[h.nameLen..][h.payloadLen..] == all[h.nameLen + h.payloadLen..];
    assert all[h.nameLen..][..h.payloadLen] == all[h.nameLen..h.nameLen + h.payloadLen];
    return Got(MessageOf(h, name.value, payload.value));
  }

  lemma FieldsAreNatural(raw: Bytes, allowLegacy: bool)
    ensures FromBytes(raw, allowLegacy).Ok? ==>
              FromBytes(raw, allowLegacy).value.nameLen >= 0 && FromBytes(raw, allowLegacy).value.payloadLen >= 0
  {
  }

  // ---- What is written is what is read ----

  /** A message as the reader sees it. */
  function Normal(m: Message): Message {
    MessageOf(AsRead(HeaderOf(m)), m.name, m.payload)
  }

  /** The flags on the wire: the type, 16 with a fragment, and 32 when more fragments follow: the index is
      not the last, or the message calls itself fragmented without giving a total. */
  function SentFlagsOf(m: Message, hasFragment: bool): int {
    var total := if OrZero(m.fragmentsTotal) == 0 then 1 else m.fragmentsTotal.value;
    (if m.kind == "ack" then 1 else if m.kind == "error" then 2 else if m.kind == "heartbeat" then 3
     else if m.kind == "eof" then 4 else 0)
    + (if hasFragment then 16 else 0)
    + (if hasFragment && (OrZero(m.fragmentIndex) < total - 1 || (m.fragmented && m.fragmentsTotal == None)) then 32 else 0)
  }

  /** Spelled out: absent numbers become 0, wide ones are cut to their field, an unknown kind becomes
      data, any fragment total (1 included) makes the message a fragmented one, and version 1 loses
      the timestamp and the content type. */
  lemma NormalForm(m: Message)
    requires Serialize(m).Ok?
    ensures var r := Normal(m);
            var v1 := m.headerVersion == LEGACY_VERSION;
            var hasFragment := m.fragmented || OrZero(m.fragmentsTotal) != 0;
            && r.name == m.name && r.payload == m.payload
            && r.kind == (if m.kind in {"ack", "error", "heartbeat", "eof"} then m.kind else "data")
            && r.sequence == Some(Mask32(OrZero(m.sequence)))
            && r.timestampNs == Some(if v1 then 0 else Mask64(OrZero(m.timestampNs)))
            && r.contentType == Some(if v1 then 0 else OrZero(m.contentType))
            && r.headerVersion == (if v1 then LEGACY_VERSION else VERSION)
            && r.fragmented == hasFragment
            && r.flags == Some(SentFlagsOf(m, hasFragment))
            && r.fragmentIndex == (if hasFragment then Some(OrZero(m.fragmentIndex)) else None)
            && r.fragmentsTotal == (if hasFragment then Some(if OrZero(m.fragmentsTotal) == 0 then 1 else m.fragmentsTotal.value) else None)
            && r.framePayloadLen == (if hasFragment then Some(Mask32(if m.framePayloadLen == None then |m.payload| else m.framePayloadLen.value)) else None)
  {
    var h := HeaderOf(m);
    FlagsRoundTrip(h.frameType, h.fragment.Some?, HasMore(h.flags));
    FlagsRoundTrip(h.frameType, h.fragment.Some?, BuildFragmentInfo(m).1);
    FlagsSpelled(m);
    hide ComposeFlags, IsFragmented, HasMore, Mask32, Mask64, FixedBytes, FragmentBytes, Code;
  }

  lemma FlagsSpelled(m: Message)
    ensures SentFlags(HeaderOf(m)) == SentFlagsOf(m, m.fragmented || OrZero(m.fragmentsTotal) != 0)
  {
    FlagsRoundTrip(HeaderOf(m).frameType, HeaderOf(m).fragment.Some?, BuildFragmentInfo(m).1);
  }

  predicate AcceptedVersion(m: Message, allowLegacy: bool) {
    m.headerVersion == LEGACY_VERSION ==> allowLegacy
  }

  /** The total the message is sent with fits the 16 bits the wire has for it. */
  predicate TotalFits(m: Message) {
    BuildFragmentInfo(m).0.Some? ==> BuildFragmentInfo(m).0.value.total <= 0xFFFF
  }

  lemma BodyIsSplit(h: FrameHeader, name: Bytes, payload: Bytes, tail: Bytes)
    requires h.nameLen == |name| && h.payloadLen == |payload|
    ensures ParseBody(h, name + payload + tail) == (Got(MessageOf(h, name, payload)), tail)
  {
    hide MessageOf;
    var rest := name + payload + tail;
    assert rest[..|name|] == name;
    assert rest[|name|..|name| + |payload|] == payload;
    assert rest[|name| + |payload|..] == tail;
  }

  lemma ParseWithHeader(b: Bytes, n: nat, h: FrameHeader, allowLegacy: bool)
    requires HEADER_PREFIX_SIZE <= n <= |b| && HeaderLength(b[..HEADER_PREFIX_SIZE], allowLegacy) == Some(n)
    requires FromBytes(b[..n], allowLegacy) == Ok(h)
    ensures Parse(b, allowLegacy) == ParseBody(h, b[n..])
  {
    hide HeaderLength, FromBytes, ParseBody;
  }

  lemma HeaderIsReadable(m: Message, allowLegacy: bool)
    requires Serialize(m).Ok? && AcceptedVersion(m, allowLegacy) && TotalFits(m)
    ensures ToBytes(HeaderOf(m)).Ok? && Readable(HeaderOf(m), allowLegacy)
    ensures HeaderOf(m).nameLen == |m.name| && HeaderOf(m).payloadLen == |m.payload|
    ensures Serialize(m).value == ToBytes(HeaderOf(m)).value + m.name + m.payload
  {
    hide ToBytes, ComposeFlags;
  }

  lemma ParseSerialized(m: Message, tail: Bytes, allowLegacy: bool)
    requires Serialize(m).Ok? && AcceptedVersion(m, allowLegacy) && TotalFits(m)
    ensures Parse(Serialize(m).value + tail, allowLegacy) == (Got(Normal(m)), tail)
  {
    hide ToBytes, FromBytes, AsRead, MessageOf, ParseBody, HeaderOf, Parse, HeaderLength, Serialize, TotalFits, Readable;
    HeaderIsReadable(m, allowLegacy);
    var h := HeaderOf(m);
    HeaderRoundTrip(h, allowLegacy);
    AsReadKeepsLengths(h);
    var header := ToBytes(h).value;
    var b := Serialize(m).value + tail;
    var rest := m.name + m.payload + tail;
    BodyIsSplit(AsRead(h), m.name, m.payload, tail);
    LengthOfPrefix(header, rest, allowLegacy);
    assert b == header + rest;
    assert b[..|header|] == header && b[|header|..] == rest;
    ParseWithHeader(b, |header|, AsRead(h), allowLegacy);
  }

  lemma AsReadKeepsLengths(h: FrameHeader)
    ensures AsRead(h).nameLen == h.nameLen && AsRead(h).payloadLen == h.payloadLen
  {
  }

  /** The six bytes that announce the length do not depend on what follows. */
  lemma LengthOfPrefix(header: Bytes, rest: Bytes, allowLegacy: bool)
    requires |header| >= HEADER_PREFIX_SIZE
    ensures HeaderLength((header + rest)[..HEADER_PREFIX_SIZE], allowLegacy) == HeaderLength(header, allowLegacy)
  {
    var p := (header + rest)[..HEADER_PREFIX_SIZE];
    assert p[..4] == header[..4] && p[4] == header[4] && p[5] == header[5];
  }

  /** The wire carries totals in 16 bits: of the messages that can be written and whose version the
      reader accepts, exactly those with a total of at most 65535 are read back as their normal form. */
  lemma ReadsBackIff(m: Message, tail: Bytes, allowLegacy: bool)
    requires Serialize(m).Ok? && AcceptedVersion(m, allowLegacy)
    ensures Parse(Serialize(m).value + tail, allowLegacy).0 == Got(Normal(m)) <==> TotalFits(m)
  {
    if TotalFits(m) {
      ParseSerialized(m, tail, allowLegacy);
    } else {
      ParsedTotalsAreNarrow(Serialize(m).value + tail, allowLegacy);
      hide Parse, ToBytes, ComposeFlags, IsFragmented, HasMore;
    }
  }

  lemma ParsedTotalsAreNarrow(b: Bytes, allowLegacy: bool)
    ensures var r := Parse(b, allowLegacy).0;
            r.Got? && r.message.fragmentsTotal.Some? ==> r.message.fragmentsTotal.value <= 0xFFFF
  {
    if |b| >= HEADER_PREFIX_SIZE && HeaderLength(b[..HEADER_PREFIX_SIZE], allowLegacy).Some? {
      var n := HeaderLength(b[..HEADER_PREFIX_SIZE], allowLegacy).value;
      if n <= |b| {
        FragmentTotalsAreNarrow(b[..n], allowLegacy);
      }
    }
    hide FromBytes, HeaderLength;
  }

  lemma FragmentTotalsAreNarrow(raw: Bytes, allowLegacy: bool)
    ensures var r := FromBytes(raw, allowLegacy);
            r.Ok? && r.value.fragment.Some? ==> r.value.fragment.value.total <= 0xFFFF
  {
    BigEndian.Limits();
  }

  // ---- What is refused ----

  /** Exactly which messages can be written; every kind can, the EOF message included. */
  lemma SerializesIff(m: Message)
    ensures var total := if OrZero(m.fragmentsTotal) == 0 then 1 else m.fragmentsTotal.value;
            Serialize(m).Ok? <==>
            && |m.name| <= 65535 && |m.payload| <= 4294967295
            && OrZero(m.timestampNs) >= 0 && 0 <= OrZero(m.contentType) <= 65535 && m.headerVersion in {0, 1, 2}
            && (m.fragmented || OrZero(m.fragmentsTotal) != 0 ==>
                  && 0 <= OrZero(m.fragmentIndex) < total
                  && (m.framePayloadLen.Some? ==> m.framePayloadLen.value >= 0))
    ensures Serialize(m) == Err(ProtocolError) <==> |m.name| > 65535
  {
    WrittenIff(HeaderOf(m));
    hide ToBytes, ComposeFlags;
  }

  /** Exactly what reading from a stream that holds `b` ends in, told from the bytes: nothing, a connection
      closed within the header, a protocol error for an unknown magic, version or type, a fragment that
      cannot be one, a connection lost behind the header, or a message. */
  lemma ReadOutcome(b: Bytes, allowLegacy: bool)
    ensures Parse(b, allowLegacy).0 == End <==> b == []
    ensures 0 < |b| < 6 ==> Parse(b, allowLegacy).0 == Failed(ConnectionClosed)
    ensures |b| >= 6 && !Accepted(b, allowLegacy) ==> Parse(b, allowLegacy) == (Failed(ProtocolError), b[6..])
    ensures |b| >= 6 && Accepted(b, allowLegacy) ==>
              var n := AnnouncedLength(b);
              && (|b| < n ==> Parse(b, allowLegacy).0 == Failed(ConnectionClosed))
              && (|b| >= n ==>
                    var r, unfit := Parse(b, allowLegacy).0, b[5] / 16 % 2 == 1 && !FragmentReadable(b, n - 8);
                    if !KnownType(b[5]) then r == Failed(ProtocolError)
                    else if unfit then r == Failed(BadHeader(ValueError))
                    else if |b| < n + Decode(b[10..12]) + Decode(b[12..16]) then r == Failed(ConnectionError)
                    else r.Got?)
  {
    hide HeaderLength, FromBytes, Decode, MessageOf, Accepted;
    if |b| >= 6 {
      var prefix := b[..6];
      SamePrefix(b, prefix, allowLegacy);
      AcceptedIff(prefix, allowLegacy);
      if Accepted(b, allowLegacy) && |b| >= AnnouncedLength(b) {
        ReadHeader(b, allowLegacy);
      }
    }
  }

  lemma SamePrefix(a: Bytes, b: Bytes, allowLegacy: bool)
    requires |a| >= 6 && |b| >= 6 && a[..6] == b[..6]
    ensures Accepted(a, allowLegacy) == Accepted(b, allowLegacy) && AnnouncedLength(a) == AnnouncedLength(b)
    ensures a[5] == b[5]
  {
    assert a[..6][..4] == a[..4] && b[..6][..4] == b[..4];
    assert a[..6][4] == a[4] && b[..6][4] == b[4] && a[..6][5] == a[5] && b[..6][5] == b[5];
  }

  lemma SliceOfPrefix(b: Bytes, n: nat, i: nat, j: nat)
    requires i <= j <= n <= |b|
    ensures b[..n][i..j] == b[i..j]
  {
  }

  lemma ReadHeader(b: Bytes, allowLegacy: bool)
    requires |b| >= 6 && Accepted(b, allowLegacy) && |b| >= AnnouncedLength(b)
    ensures var n := AnnouncedLength(b);
            var r := FromBytes(b[..n], allowLegacy);
            && (r == Err(HeaderError) <==> !KnownType(b[5]))
            && (r == Err(ValueError) <==> KnownType(b[5]) && b[5] / 16 % 2 == 1 && !FragmentReadable(b, n - 8))
            && (r.Ok? ==> r.value.nameLen == Decode(b[10..12]) && r.value.payloadLen == Decode(b[12..16]))
  {
    var n := AnnouncedLength(b);
    var raw := b[..n];
    assert raw[..6] == b[..6];
    SamePrefix(b, raw, allowLegacy);
    ReadIff(raw, allowLegacy);
    hide FromBytes, Accepted, Decode;
    SliceOfPrefix(b, n, 10, 12);
    SliceOfPrefix(b, n, 12, 16);
    if b[5] / 16 % 2 == 1 {
      SliceOfPrefix(b, n, n - 8, n - 6);
      SliceOfPrefix(b, n, n - 6, n - 4);
    }
  }

  /** What a message read from a stream holds, told from the bytes. */
  ghost predicate HoldsFields(m: Message, b: Bytes)
    requires |b| >= 6 && |b| >= AnnouncedLength(b) && AnnouncedLength(b) >= 16
  {
    var n := AnnouncedLength(b);
    var names, payloads, code := Decode(b[10..12]), Decode(b[12..16]), b[5] % 16;
    && |b| >= n + names + payloads
    && m.name == b[n..n + names] && m.payload == b[n + names..n + names + payloads]
    && m.kind == (if code == 1 then "ack" else if code == 2 then "error" else if code == 3 then "heartbeat"
                  else if code == 4 then "eof" else "data")
    && m.sequence == Some(Decode(b[6..10])) && m.flags == Some(b[5]) && m.headerVersion == b[4]
    && (b[4] == 1 ==> m.timestampNs == Some(0) && m.contentType == Some(0))
    && (b[4] == 2 ==> n >= 26 && m.timestampNs == Some(Decode(b[16..24])) && m.contentType == Some(Decode(b[24..26])))
    && HoldsFragment(m, b, n)
  }

  ghost predicate HoldsFragment(m: Message, b: Bytes, n: nat)
    requires 16 <= n <= |b|
  {
    if b[5] / 16 % 2 == 1 then
      && m.fragmented
      && m.fragmentIndex == Some(Decode(b[n - 8..n - 6])) && m.fragmentsTotal == Some(Decode(b[n - 6..n - 4]))
      && m.framePayloadLen == Some(Decode(b[n - 4..n]))
    else
      && m.fragmented == (b[5] / 32 % 2 == 1)
      && m.fragmentIndex == None && m.fragmentsTotal == None && m.framePayloadLen == None
  }

  /** A message that is read has its fields from their places, whatever bytes were sent. */
  lemma ReadFields(b: Bytes, allowLegacy: bool)
    requires Parse(b, allowLegacy).0.Got?
    ensures |b| >= 6 && Accepted(b, allowLegacy) && |b| >= AnnouncedLength(b)
    ensures HoldsFields(Parse(b, allowLegacy).0.message, b)
  {
    ReadOutcome(b, allowLegacy);
    ParsedBody(b, allowLegacy);
    HeaderFields(b, allowLegacy);
    hide Parse, FromBytes, Decode, Accepted, HeaderLength, HoldsFields, MessageOf, ParseBody, FrameTypeOf;
    BodyHolds(FromBytes(b[..AnnouncedLength(b)], allowLegacy).value, b);
  }

  lemma ParsedBody(b: Bytes, allowLegacy: bool)
    requires |b| >= 6 && Accepted(b, allowLegacy) && |b| >= AnnouncedLength(b) && Parse(b, allowLegacy).0.Got?
    ensures var n := AnnouncedLength(b);
            && FromBytes(b[..n], allowLegacy).Ok?
            && Parse(b, allowLegacy) == ParseBody(FromBytes(b[..n], allowLegacy).value, b[n..])
  {
    SamePrefix(b, b[..6], allowLegacy);
    AcceptedIff(b[..6], allowLegacy);
    hide FromBytes, Accepted, HeaderLength, ParseBody;
  }

  /** The fields of a header of `n` bytes, told from the bytes. */
  ghost predicate HeaderIs(h: FrameHeader, b: Bytes, n: nat)
    requires 16 <= n <= |b|
  {
    && FrameTypeOf(b[5] % 16) == Some(h.frameType) && h.flags == b[5] && h.version == b[4]
    && h.sequence == Decode(b[6..10]) && h.nameLen == Decode(b[10..12]) && h.payloadLen == Decode(b[12..16])
    && (b[4] == 1 ==> h.timestampNs == 0 && h.contentType == 0)
    && (b[4] == 2 ==> n >= 26 && h.timestampNs == Decode(b[16..24]) && h.contentType == Decode(b[24..26]))
    && (if b[5] / 16 % 2 == 1 then
          h.fragment == Some(FragmentInfo(Decode(b[n - 8..n - 6]), Decode(b[n - 6..n - 4]), Decode(b[n - 4..n])))
        else h.fragment == None)
  }

  lemma BodyHolds(h: FrameHeader, b: Bytes)
    requires |b| >= 6 && |b| >= AnnouncedLength(b)
    requires HeaderIs(h, b, AnnouncedLength(b))
    requires ParseBody(h, b[AnnouncedLength(b)..]).0.Got?
    ensures HoldsFields(ParseBody(h, b[AnnouncedLength(b)..]).0.message, b)
  {
    var n, names, payloads := AnnouncedLength(b), h.nameLen, h.payloadLen;
    assert b[n..][..names] == b[n..n + names];
    assert b[n..][names..names + payloads] == b[n + names..n + names + payloads];
    KindTold(h.frameType, b[5] % 16);
    FragmentTold(h, b, n, b[n..][..names], b[n..][names..names + payloads]);
    hide Decode, AnnouncedLength, HoldsFragment, KindOf, FrameTypeOf;
  }

  lemma KindTold(t: FrameType, code: int)
    requires FrameTypeOf(code) == Some(t)
    ensures KindOf(t) == if code == 1 then "ack" else if code == 2 then "error" else if code == 3 then "heartbeat"
                         else if code == 4 then "eof" else "data"
  {
  }

  lemma FragmentTold(h: FrameHeader, b: Bytes, n: nat, name: Bytes, payload: Bytes)
    requires 16 <= n <= |b| && HeaderIs(h, b, n)
    ensures HoldsFragment(MessageOf(h, name, payload), b, n)
  {
    hide Decode, KindOf, FrameTypeOf;
  }

  lemma HeaderFields(b: Bytes, allowLegacy: bool)
    requires |b| >= 6 && Accepted(b, allowLegacy) && |b| >= AnnouncedLength(b)
    requires FromBytes(b[..AnnouncedLength(b)], allowLegacy).Ok?
    ensures HeaderIs(FromBytes(b[..AnnouncedLength(b)], allowLegacy).value, b, AnnouncedLength(b))
  {
    var n := AnnouncedLength(b);
    SliceOfPrefix(b, n, 6, 10);
    SliceOfPrefix(b, n, 10, 12);
    SliceOfPrefix(b, n, 12, 16);
    if b[4] == 2 {
      SliceOfPrefix(b, n, 16, 24);
      SliceOfPrefix(b, n, 24, 26);
    }
    if b[5] / 16 % 2 == 1 {
      SliceOfPrefix(b, n, n - 8, n - 6);
      SliceOfPrefix(b, n, n - 6, n - 4);
      SliceOfPrefix(b, n, n - 4, n);
    }
    hide Decode, HeaderLength, FrameTypeOf;
  }

  // ---- Whole streams ----

  ghost predicate AllWritable(ms: seq<Message>, allowLegacy: bool) {
    forall i :: 0 <= i < |ms| ==> Serialize(ms[i]).Ok? && AcceptedVersion(ms[i], allowLegacy) && TotalFits(ms[i])
  }

  function SerializeAll(ms: seq<Message>): Bytes
    requires forall i :: 0 <= i < |ms| ==> Serialize(ms[i]).Ok?
  {
    if ms == [] then [] else Serialize(ms[0]).value + SerializeAll(ms[1..])
  }

  lemma ParseConsumes(b: Bytes, allowLegacy: bool)
    ensures Parse(b, allowLegacy).0.Got? ==> |Parse(b, allowLegacy).1| < |b|
  {
  }

  /** Reads messages until the stream ends or fails. */
  function ParseAll(b: Bytes, allowLegacy: bool): (seq<Message>, Received)
    decreases |b|
  {
    ParseConsumes(b, allowLegacy);
    match Parse(b, allowLegacy)
    case (Got(m), rest) =>
      var (ms, end) := ParseAll(rest, allowLegacy);
      ([m] + ms, end)
    case (other, _) => ([], other)
  }

  function NormalAll(ms: seq<Message>): seq<Message> {
    seq(|ms|, i requires 0 <= i < |ms| => Normal(ms[i]))
  }

  lemma ParseAllStep(b: Bytes, allowLegacy: bool)
    requires Parse(b, allowLegacy).0.Got?
    ensures var (r, rest) := Parse(b, allowLegacy);
            |rest| < |b| && ParseAll(b, allowLegacy) == ([r.message] + ParseAll(rest, allowLegacy).0, ParseAll(rest, allowLegacy).1)
  {
    ParseConsumes(b, allowLegacy);
    hide Parse;
  }

  lemma {:induction false} StreamThen(ms: seq<Message>, tail: Bytes, allowLegacy: bool)
    requires AllWritable(ms, allowLegacy)
    ensures ParseAll(SerializeAll(ms) + tail, allowLegacy)
         == (NormalAll(ms) + ParseAll(tail, allowLegacy).0, ParseAll(tail, allowLegacy).1)
  {
    hide Parse, ParseAll, Serialize, Normal, TotalFits, AcceptedVersion;
    var after := ParseAll(tail, allowLegacy).0;
    if ms == [] {
      assert SerializeAll(ms) + tail == tail;
      assert NormalAll(ms) + after == after;
    } else {
      var rest := SerializeAll(ms[1..]) + tail;
      assert SerializeAll(ms) + tail == Serialize(ms[0]).value + rest;
      ParseSerialized(ms[0], rest, allowLegacy);
      ParseAllStep(SerializeAll(ms) + tail, allowLegacy);
      StreamThen(ms[1..], tail, allowLegacy);
      assert NormalAll(ms) == [Normal(ms[0])] + NormalAll(ms[1..]);
      assert [Normal(ms[0])] + (NormalAll(ms[1..]) + after) == NormalAll(ms) + after;
    }
  }

  /** A list of messages written one after the other is read back in order, each in its normal form,
      followed by a clean end. */
  lemma StreamRoundTrip(ms: seq<Message>, allowLegacy: bool)
    requires AllWritable(ms, allowLegacy)
    ensures ParseAll(SerializeAll(ms), allowLegacy) == (NormalAll(ms), End)
  {
    StreamThen(ms, [], allowLegacy);
    assert SerializeAll(ms) + [] == SerializeAll(ms);
    assert NormalAll(ms) + [] == NormalAll(ms);
  }

  /** A proper, non-empty part of a message is never taken for a message. */
  lemma CutMessageFails(m: Message, k: nat, allowLegacy: bool)
    requires Serialize(m).Ok? && AcceptedVersion(m, allowLegacy) && TotalFits(m)
    requires 0 < k < |Serialize(m).value|
    ensures Parse(Serialize(m).value[..k], allowLegacy).0 in {Failed(ConnectionClosed), Failed(ConnectionError)}
  {
    hide ToBytes, FromBytes, AsRead, HeaderOf, HeaderLength, Serialize, TotalFits, Readable, MessageOf;
    HeaderIsReadable(m, allowLegacy);
    var h := HeaderOf(m);
    HeaderRoundTrip(h, allowLegacy);
    AsReadKeepsLengths(h);
    var header := ToBytes(h).value;
    var whole := Serialize(m).value;
    var b := whole[..k];
    assert whole[..|header|] == header by { assert whole == header + (m.name + m.payload); }
    if k >= HEADER_PREFIX_SIZE {
      LengthOfPrefix(header, [], allowLegacy);
      assert b[..HEADER_PREFIX_SIZE] == whole[..HEADER_PREFIX_SIZE] == (header + [])[..HEADER_PREFIX_SIZE];
      if k >= |header| {
        assert b[..|header|] == whole[..|header|];
      }
    }
  }

  /** A stream cut in the middle of a message gives the whole messages before the cut, then an error. */
  lemma CutStream(ms: seq<Message>, m: Message, k: nat, allowLegacy: bool)
    requires AllWritable(ms + [m], allowLegacy)
    requires Serialize(m).Ok? && 0 < k < |Serialize(m).value|
    ensures AllWritable(ms, allowLegacy)
    ensures var (got, end) := ParseAll(SerializeAll(ms) + Serialize(m).value[..k], allowLegacy);
            got == NormalAll(ms) && end in {Failed(ConnectionClosed), Failed(ConnectionError)}
  {
    hide Serialize, Parse, TotalFits, AcceptedVersion, Normal;
    assert (ms + [m])[|ms|] == m;
    assert forall i :: 0 <= i < |ms| ==> (ms + [m])[i] == ms[i];
    CutMessageFails(m, k, allowLegacy);
    StreamThen(ms, Serialize(m).value[..k], allowLegacy);
    assert NormalAll(ms) + [] == NormalAll(ms);
  }

  // ---- Two sockets ----

  lemma SerializeAllThen(ms: seq<Message>, m: Message)
    requires (forall i :: 0 <= i < |ms| ==> Serialize(ms[i]).Ok?) && Serialize(m).Ok?
    ensures forall i :: 0 <= i < |ms + [m]| ==> Serialize((ms + [m])[i]).Ok?
    ensures SerializeAll(ms + [m]) == SerializeAll(ms) + Serialize(m).value
  {
    hide Serialize;
    if ms == [] {
      assert ms + [m] == [m];
      assert Serialize(m).value + [] == Serialize(m).value;
    } else {
      assert (ms + [m])[0] == ms[0] && (ms + [m])[1..] == ms[1..] + [m];
      SerializeAllThen(ms[1..], m);
    }
  }

  /** Writes messages one after the other until one cannot be written; `sent` of them went out whole, of
      the next one a part at most. */
  method SendMessages(sock: Socket, ms: seq<Message>) returns (r: Result<(), Error>, sent: nat)
    requires forall i :: 0 <= i < |ms| ==> Serialize(ms[i]).Ok?
    modifies sock`outbox, sock`broken
    ensures r.Ok? ==> sent == |ms| && sock.outbox == old(sock.outbox) + SerializeAll(ms)
    ensures r.Err? ==>
              sent < |ms|
              && CutShort(old(sock.outbox) + SerializeAll(ms[..sent]), sock.outbox, Serialize(ms[sent]).value)
  {
    hide Serialize, CutShort;
    sent := 0;
    assert old(sock.outbox) + SerializeAll(ms[..0]) == old(sock.outbox);
    while sent < |ms|
      invariant sent <= |ms| && sock.outbox == old(sock.outbox) + SerializeAll(ms[..sent])
    {
      SerializeAllThen(ms[..sent], ms[sent]);
      assert ms[..sent + 1] == ms[..sent] + [ms[sent]];
      r := SendBinary(sock, ms[sent]);
      if r.Err? {
        return;
      }
      sent := sent + 1;
    }
    assert ms[..sent] == ms;
    r := Ok(());
  }

  /** Reads messages until the stream ends or fails. */
  method ReceiveMessages(sock: Socket, allowLegacy: bool) returns (ms: seq<Message>, end: Received)
    modifies sock`inbox
    ensures (ms, end) == ParseAll(old(sock.inbox), allowLegacy)
  {
    hide Parse;
    ghost var all := ParseAll(sock.inbox, allowLegacy);
    ms := [];
    assert [] + all.0 == all.0;
    while true
      invariant ms + ParseAll(sock.inbox, allowLegacy).0 == all.0 && ParseAll(sock.inbox, allowLegacy).1 == all.1
      decreases |sock.inbox|
    {
      ghost var before := sock.inbox;
      ParseConsumes(before, allowLegacy);
      end := RecvBinary(sock, allowLegacy);
      if !end.Got? {
        assert ms + [] == ms;
        return;
      }
      ParseAllStep(before, allowLegacy);
      ghost var rest := ParseAll(sock.inbox, allowLegacy).0;
      assert ms + ([end.message] + rest) == ms + [end.message] + rest;
      ms := ms + [end.message];
    }
  }

  /** Over two connected sockets, whatever amounts either side moves at a time: all messages come out in
      order, each in its normal form, followed by a clean end; and when the writer loses the connection,
      those it had written whole do, followed by a clean end or a connection error. */
  method Exchange(writer: Socket, reader: Socket, ms: seq<Message>, allowLegacy: bool)
    returns (got: seq<Message>, end: Received, sent: nat)
    requires writer != reader && writer.outbox == [] && reader.inbox == [] && AllWritable(ms, allowLegacy)
    modifies writer, reader
    ensures sent <= |ms| && got == NormalAll(ms[..sent])
    ensures sent == |ms| ==> end == End
    ensures end in {End, Failed(ConnectionClosed), Failed(ConnectionError)}
  {
    hide Serialize, ParseAll, NormalAll, SerializeAll;
    var r;
    r, sent := SendMessages(writer, ms);
    reader.inbox := writer.outbox;
    assert [] + SerializeAll(ms[..sent]) == SerializeAll(ms[..sent]);
    if r.Ok? {
      assert ms[..sent] == ms;
      StreamRoundTrip(ms, allowLegacy);
    } else {
      BrokenStream(ms, sent, reader.inbox, allowLegacy);
    }
    got, end := ReceiveMessages(reader, allowLegacy);
  }

  lemma WritablePrefix(ms: seq<Message>, n: nat, allowLegacy: bool)
    requires AllWritable(ms, allowLegacy) && n <= |ms|
    ensures AllWritable(ms[..n], allowLegacy)
  {
    hide Serialize, TotalFits, AcceptedVersion;
  }

  lemma BrokenStream(ms: seq<Message>, sent: nat, b: Bytes, allowLegacy: bool)
    requires AllWritable(ms, allowLegacy) && sent < |ms|
    requires CutShort(SerializeAll(ms[..sent]), b, Serialize(ms[sent]).value)
    ensures ParseAll(b, allowLegacy).0 == NormalAll(ms[..sent])
    ensures ParseAll(b, allowLegacy).1 in {End, Failed(ConnectionClosed), Failed(ConnectionError)}
  {
    hide Serialize, ParseAll, NormalAll, SerializeAll, TotalFits, AcceptedVersion;
    var whole, m := ms[..sent], ms[sent];
    WritablePrefix(ms, sent, allowLegacy);
    WritablePrefix(ms, sent + 1, allowLegacy);
    assert ms[..sent + 1] == whole + [m];
    var k: nat :| k < |Serialize(m).value| && b == SerializeAll(whole) + Serialize(m).value[..k];
    hide AllWritable;
    if k == 0 {
      assert SerializeAll(whole) + Serialize(m).value[..0] == SerializeAll(whole);
      StreamRoundTrip(whole, allowLegacy);
    } else {
      CutStream(whole, m, k, allowLegacy);
    }
  }
}
