/** utils/stream_protocol.py: splitting a frame payload into fragments. */
module Fragmentation {
  import opened Common

  const MIN_FRAGMENT_SIZE := 256
  const MAX_FRAGMENT_SIZE := 1400

  datatype FrameFragment = FrameFragment(
    sequence: int, payload: Bytes, index: int, total: int, framePayloadLen: Option<int>)

  datatype SizeError = SizeOutOfRange(value: int)

  function ValidateFragmentSize(value: int): (r: Result<int, SizeError>)
    ensures r.Ok? <==> value == 0 || MIN_FRAGMENT_SIZE <= value <= MAX_FRAGMENT_SIZE
    ensures r.Ok? ==> r.value == value
  {
    if value == 0 then Ok(0)
    else if value < MIN_FRAGMENT_SIZE || value > MAX_FRAGMENT_SIZE then Err(SizeOutOfRange(value))
    else Ok(value)
  }

  function Offset(i: nat, size: nat, length: nat): (r: nat)
    ensures r <= length
  {
    Min(i * size, length)
  }

  function FragmentCount(length: nat, size: int): (n: nat)
    requires size > 0
  {
    (length + size - 1) / size
  }

  /** Exactly `count` pieces of `size` cover `length`, and the last one is not empty. */
  lemma CountCovers(length: nat, size: int)
    requires size > 0 && length > 0
    ensures FragmentCount(length, size) >= 1
    ensures (FragmentCount(length, size) - 1) * size < length <= FragmentCount(length, size) * size
  {
    var n := FragmentCount(length, size);
    var q := length + size - 1;
    assert q == size * n + q % size;
    assert n * size == size * n;
    assert (n - 1) * size == n * size - size;
  }

  lemma MultipleMonotone(i: int, j: int, size: nat)
    requires i <= j
    ensures i * size <= j * size
  {
    assert (j - i) * size >= 0;
    assert j * size - i * size == (j - i) * size;
  }

  /** What `iter_fragments` yields, fragment by fragment. */
  function Split(payload: Bytes, sequence: int, size: int): (r: Result<seq<FrameFragment>, SizeError>)
  {
    var length := |payload|;
    if size <= 0 || length <= size then
      Ok([FrameFragment(sequence, payload, 0, 1, Some(length))])
    else if ValidateFragmentSize(size).Err? then
      Err(ValidateFragmentSize(size).error)
    else
      var n := FragmentCount(length, size);
      Ok(seq(n, i requires 0 <= i < n => Piece(payload, sequence, size, i)))
  }

  function Piece(payload: Bytes, sequence: int, size: int, i: nat): FrameFragment
    requires size > 0
  {
    var length := |payload|;
    var start := Offset(i, size, length);
    var end := Offset(i + 1, size, length);
    MultipleMonotone(i, i + 1, size);
    FrameFragment(sequence, payload[start..end], i, FragmentCount(length, size), Some(length))
  }

  /** A split is refused exactly when the payload is longer than a positive size outside 256..1400. */
  lemma SplitRefusedIff(payload: Bytes, sequence: int, size: int)
    ensures Split(payload, sequence, size).Err? <==> 0 < size < |payload| && !(256 <= size <= 1400)
    ensures Split(payload, sequence, size).Err? ==> Split(payload, sequence, size).error == SizeOutOfRange(size)
  {
  }

  method IterFragments(payload: Bytes, sequence: int, fragmentSize: int)
    returns (r: Result<seq<FrameFragment>, SizeError>)
    ensures r == Split(payload, sequence, fragmentSize)
  {
    var totalLen := |payload|;
    if fragmentSize <= 0 || totalLen <= fragmentSize {
      return Ok([FrameFragment(sequence, payload, 0, 1, Some(totalLen))]);
    }
    var size := ValidateFragmentSize(fragmentSize);
    if size.Err? {
      return Err(size.error);
    }
    var totalFragments := Max(1, (totalLen + fragmentSize - 1) / fragmentSize);
    CountCovers(totalLen, fragmentSize);
    var offset := 0;
    var index: nat := 0;
    var fragments := [];
    while offset < totalLen
      invariant offset == Offset(index, fragmentSize, totalLen)
      invariant index <= totalFragments
      invariant fragments == seq(index, i requires 0 <= i < index => Piece(payload, sequence, fragmentSize, i))
      decreases totalLen - offset
    {
      var end := Min(offset + fragmentSize, totalLen);
      assert (index + 1) * fragmentSize == index * fragmentSize + fragmentSize;
      fragments := fragments
      + [FrameFragment(sequence, payload[offset..end], index, totalFragments, Some(totalLen))];
      offset := end;
      index := index + 1;
    }
    if index < totalFragments {
      MultipleMonotone(index, totalFragments - 1, fragmentSize);
      assert false;
    }
    return Ok(fragments);
  }

  // ---- What a split promises ----

  function Join(fragments: seq<FrameFragment>): Bytes {
    if fragments == [] then []
    else Join(fragments[..|fragments| - 1]) + fragments[|fragments| - 1].payload
  }

  lemma {:induction false} JoinOfPieces(payload: Bytes, sequence: int, size: int, n: nat, fragments: seq<FrameFragment>)
    requires size > 0 && |fragments| == n
    requires forall i :: 0 <= i < n ==> fragments[i] == Piece(payload, sequence, size, i)
    ensures Join(fragments) == payload[..Offset(n, size, |payload|)]
  {
    if n > 0 {
      JoinOfPieces(payload, sequence, size, n - 1, fragments[..n - 1]);
      MultipleMonotone(n - 1, n, size);
    }
  }

  /** All pieces but the last are full; the last is not empty and not longer. */
  lemma PieceSize(payload: Bytes, sequence: int, size: int, i: nat)
    requires size > 0 && payload != [] && i < FragmentCount(|payload|, size)
    ensures i + 1 < FragmentCount(|payload|, size) ==> |Piece(payload, sequence, size, i).payload| == size
    ensures 0 < |Piece(payload, sequence, size, i).payload| <= size
  {
    var n := FragmentCount(|payload|, size);
    CountCovers(|payload|, size);
    hide FragmentCount;
    MultipleMonotone(i, n - 1, size);
    assert (i + 1) * size == i * size + size;
    if i + 1 < n {
      MultipleMonotone(i + 1, n - 1, size);
    }
  }

  lemma PiecesJoin(payload: Bytes, sequence: int, size: int, fragments: seq<FrameFragment>)
    requires size > 0 && payload != [] && |fragments| == FragmentCount(|payload|, size)
    requires forall i :: 0 <= i < |fragments| ==> fragments[i] == Piece(payload, sequence, size, i)
    ensures fragments != [] && Join(fragments) == payload
  {
    CountCovers(|payload|, size);
    hide FragmentCount, Piece, Join;
    JoinOfPieces(payload, sequence, size, |fragments|, fragments);
  }

  /** A split loses nothing, and every fragment carries its place and the right total. */
  lemma SplitIsAPartition(payload: Bytes, sequence: int, size: int)
    requires Split(payload, sequence, size).Ok?
    ensures var fragments := Split(payload, sequence, size).value;
            && fragments != []
            && Join(fragments) == payload
            && (forall i :: 0 <= i < |fragments| ==>
                  && fragments[i].sequence == sequence
                  && fragments[i].index == i
                  && fragments[i].total == |fragments|
                  && fragments[i].framePayloadLen == Some(|payload|))
            && (size > 0 ==> forall i :: 0 <= i < |fragments| - 1 ==> |fragments[i].payload| == size)
            && (size > 0 ==> |fragments[|fragments| - 1].payload| <= size)
            && (payload != [] ==> fragments[|fragments| - 1].payload != [])
  {
    var fragments := Split(payload, sequence, size).value;
    if size <= 0 || |payload| <= size {
      assert Join(fragments[..0]) == [];
    } else {
      hide Join, FragmentCount, Offset, ValidateFragmentSize;
      PiecesJoin(payload, sequence, size, fragments);
      forall i | 0 <= i < |fragments|
        ensures i + 1 < |fragments| ==> |fragments[i].payload| == size
        ensures 0 < |fragments[i].payload| <= size
      {
        PieceSize(payload, sequence, size, i);
      }
    }
  }

  /** The wire carries fragment totals in 16 bits: every accepted fragment size stays within them
      exactly when the payload is at most 65535 * 256 bytes long. */
  lemma TotalsFitTheWire(payload: Bytes, sequence: int)
    ensures (forall size :: Split(payload, sequence, size).Ok? ==> |Split(payload, sequence, size).value| <= 0xFFFF)
       <==> |payload| <= 16_776_960
  {
    if |payload| <= 16_776_960 {
      forall size | Split(payload, sequence, size).Ok?
        ensures |Split(payload, sequence, size).value| <= 0xFFFF
      {
        if !(size <= 0 || |payload| <= size) {
          CountCovers(|payload|, size);
          var n := FragmentCount(|payload|, size);
          if n > 0xFFFF {
            MultipleMonotone(0xFFFF, n - 1, size);
            assert false;
          }
        }
      }
    } else {
      assert Split(payload, sequence, 256).Ok?;
      assert |Split(payload, sequence, 256).value| > 0xFFFF;
    }
  }
}
