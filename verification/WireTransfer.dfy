/** From a frame's payload on the client to the payload the server's decoders get: `iter_fragments`,
    one binary message per fragment, the byte stream, and the fragment buffer, put together. */
module WireTransfer {
  import opened Common
  import opened Fragmentation
  import opened Reassembly
  import opened FragmentTransfer
  import opened Framing
  import opened FrameHeaders

  /** What a message carries besides its fragment. */
  datatype Label = Label(name: Bytes, timestampNs: Option<int>, contentType: Option<int>)

  predicate GoodLabel(l: Label) {
    |l.name| <= 0xFFFF && OrZero(l.timestampNs) >= 0 && 0 <= OrZero(l.contentType) <= 0xFFFF
  }

  /** The message `network_sender` builds for a fragment. */
  function MessageFor(c: FrameFragment, l: Label): Message {
    Message(
      "data", l.name, c.payload, Some(c.sequence), c.total > 1, Some(c.index), Some(c.total), c.framePayloadLen,
      None, l.timestampNs, l.contentType, VERSION)
  }

  /** The fragment `_recv_loop` hands to the buffer, if the message takes that path. */
  function FragmentIn(m: Message): Option<FrameFragment> {
    if !m.fragmented || m.sequence == None then None
    else Some(FrameFragment(
      m.sequence.value, m.payload, OrZero(m.fragmentIndex),
      if OrZero(m.fragmentsTotal) == 0 then 1 else m.fragmentsTotal.value, m.framePayloadLen))
  }

  /** A fragment whose numbers fit their fields on the wire. */
  predicate Fits(c: FrameFragment) {
    && 0 <= c.sequence <= 0xFFFF_FFFF && |c.payload| <= 0xFFFF_FFFF
    && 0 <= c.index < c.total <= 0xFFFF
    && c.framePayloadLen.Some? && 0 <= c.framePayloadLen.value <= 0xFFFF_FFFF
  }

  /** A fragment, the only one of its frame included, can be written, is read back whatever the reader
      accepts besides, and reaches the buffer as it was. */
  lemma FragmentSurvives(c: FrameFragment, l: Label, allowLegacy: bool)
    requires Fits(c) && GoodLabel(l)
    ensures var m := MessageFor(c, l);
            && Serialize(m).Ok? && AcceptedVersion(m, allowLegacy) && TotalFits(m)
            && FragmentIn(Normal(m)) == Some(c)
            && Normal(m).kind == "data" && Normal(m).name == l.name && Normal(m).contentType == Some(OrZero(l.contentType))
            && Normal(m).timestampNs == Some(OrZero(l.timestampNs) % 0x1_0000_0000_0000_0000)
  {
    var m := MessageFor(c, l);
    FragmentIsWritten(c, l);
    NormalForm(m);
    hide Normal, Serialize, TotalFits;
  }

  lemma FragmentIsWritten(c: FrameFragment, l: Label)
    requires Fits(c) && GoodLabel(l)
    ensures Serialize(MessageFor(c, l)).Ok? && TotalFits(MessageFor(c, l))
  {
    hide FixedBytes, FragmentBytes, ComposeFlags, SentFlags;
  }

  // ---- Whole frames ----

  /** Sequences and lengths that fit 32 bits, fragment counts that fit 16. */
  ghost predicate Wireable(f: Frames) {
    Sendable(f) && forall s :: s in f.payloads ==>
      0 <= s <= 0xFFFF_FFFF && |f.payloads[s]| <= 0xFFFF_FFFF && |Fragments(f, s)| <= 0xFFFF
  }

  /** Payloads of at most 65535 * 256 bytes are wireable with any accepted fragment size. */
  lemma SmallFramesAreWireable(f: Frames)
    requires Sendable(f)
    requires forall s :: s in f.payloads ==> 0 <= s <= 0xFFFF_FFFF && |f.payloads[s]| <= 16_776_960
    ensures Wireable(f)
  {
    forall s | s in f.payloads ensures |Fragments(f, s)| <= 0xFFFF {
      TotalsFitTheWire(f.payloads[s], s);
    }
  }

  lemma {:induction false} PartIsShorter(fragments: seq<FrameFragment>, i: nat)
    requires i < |fragments|
    ensures |fragments[i].payload| <= |Join(fragments)|
  {
    var n := |fragments| - 1;
    if i < n {
      PartIsShorter(fragments[..n], i);
    }
  }

  lemma CarriedFits(f: Frames, a: Arrival)
    requires Wireable(f) && Genuine(f, a)
    ensures Fits(Carried(f, a))
  {
    SplitIsAPartition(f.payloads[a.sequence], a.sequence, f.size);
    PartIsShorter(Fragments(f, a.sequence), a.index);
    hide Split;
  }

  ghost function MessagesOf(f: Frames, run: seq<Arrival>, labels: seq<Label>): (ms: seq<Message>)
    requires Sendable(f) && AllGenuine(f, run) && |labels| == |run|
    ensures |ms| == |run|
    ensures forall i :: 0 <= i < |run| ==> Genuine(f, run[i]) && ms[i] == MessageFor(Carried(f, run[i]), labels[i])
  {
    assert forall i :: 0 <= i < |run| ==> run[i] in run && Genuine(f, run[i]);
    seq(|run|, i requires 0 <= i < |run| => MessageFor(Carried(f, run[i]), labels[i]))
  }

  lemma MessagesAreWritable(f: Frames, run: seq<Arrival>, labels: seq<Label>, allowLegacy: bool)
    requires Wireable(f) && AllGenuine(f, run) && |labels| == |run|
    requires forall i :: 0 <= i < |labels| ==> GoodLabel(labels[i])
    ensures AllWritable(MessagesOf(f, run, labels), allowLegacy)
    ensures forall i :: 0 <= i < |run| ==> Genuine(f, run[i])
    ensures forall i :: 0 <= i < |run| ==>
              FragmentIn(Normal(MessagesOf(f, run, labels)[i])) == Some(Carried(f, run[i]))
  {
    var ms := MessagesOf(f, run, labels);
    hide AllGenuine, Wireable, Carried, Serialize, TotalFits, AcceptedVersion, MessageFor, FragmentIn, Normal, GoodLabel, Fits;
    forall i | 0 <= i < |run|
      ensures Serialize(ms[i]).Ok? && AcceptedVersion(ms[i], allowLegacy) && TotalFits(ms[i])
      ensures FragmentIn(Normal(ms[i])) == Some(Carried(f, run[i]))
    {
      CarriedFits(f, run[i]);
      FragmentSurvives(Carried(f, run[i]), labels[i], allowLegacy);
    }
  }

  /** End to end. Write the fragments of any frames to the stream in any interleaved order, with
      duplicates before completion: the reader gets one message per fragment and then a clean end;
      message number `t` brings the buffer the fragment that was sent; and as long as there was room
      before, it completes its frame exactly when it is the last missing one, with the payload the
      client started from and nothing dropped, if and only if there is room for it too. */
  lemma FramesCrossTheWire(
    f: Frames, b: Buffer, run: seq<Arrival>, labels: seq<Label>, allowLegacy: bool, t: nat)
    requires Wireable(f) && AllGenuine(f, run) && NothingAfterCompletion(f, run)
    requires |labels| == |run| && forall i :: 0 <= i < |labels| ==> GoodLabel(labels[i])
    requires WF(b) && b.states == map[] && b.counter == 0
    requires t < |run| && forall u :: 0 <= u < t ==> RoomAt(f, run, b.maxBytes, u)
    ensures var ms := MessagesOf(f, run, labels);
            && AllWritable(ms, allowLegacy)
            && ParseAll(SerializeAll(ms), allowLegacy) == (NormalAll(ms), End)
    ensures AllGenuine(f, run[..t]) && Genuine(f, run[t])
    ensures FragmentIn(NormalAll(MessagesOf(f, run, labels))[t]) == Some(Carried(f, run[t]))
    ensures Receive(f, After(f, b, run[..t]), run[t]).1 == ExpectedOutcome(f, run[..t + 1], run[t].sequence)
       <==> RoomAt(f, run, b.maxBytes, t)
  {
    MessagesAreWritable(f, run, labels, allowLegacy);
    StreamRoundTrip(MessagesOf(f, run, labels), allowLegacy);
    TransferIsTheIdentity(f, b, run, t);
  }
}
