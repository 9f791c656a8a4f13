/** The device's resource list entries and the chunked transfer of a firmware
    or resource image: a header chunk with the image size, data chunks packed
    with the byte codec, and a trailer chunk with the image's CRC-32. */
module Resources {
  import opened Midi
  import opened Sysex

  /** `Resource`: one entry of the device's patch or resource list. The
      source's `Resource::new` is this datatype's constructor. */
  datatype Resource = Resource(id: byte, name: string, size: u32, checksum: u32)

  datatype ResourceState = New | InProgress | Complete | Success | Failed | InvalidChecksum

  /** The size of the transfer's decode buffer. */
  const DecodeBufferSize: nat := 256

  /** The value of a `ResourceData`: every field except the decode buffer,
      whose contents only pass through. `offset` is a natural number; the
      source's `u32` only matters after 4 GiB of data. */
  datatype Transfer = Transfer(
    state: ResourceState,
    data: seq<byte>,
    crc: u32,
    currentIdx: u32,
    offset: nat,
    size: u32,
    checksum: u32)

  /** `ResourceData::new()`. */
  function Initial(): Transfer
  {
    Transfer(New, [], 0, 0, 0, 0, 0)
  }

  /** What the transfer demands of its state before the checksum chunk: the
      image to check lies within the received data (otherwise the source's
      slice `data[..size]` panics). */
  predicate ChecksumInRange(t: Transfer)
  {
    t.state == Complete ==> t.size as int <= |t.data|
  }

  /** `process_data` on a value: what one chunk does to the transfer. */
  function Step(t: Transfer, chunk: seq<U7>, crc32: seq<byte> -> u32): Transfer
    requires ChecksumInRange(t)
  {
    match t.state
    case New =>
      if |chunk| == 5 then
        match DecodeU32(chunk)
        case Ok((v, _)) => t.(state := InProgress, size := v, offset := 0, crc := 0)
        case Err(_) => t.(state := Failed)
      else t
    case InProgress =>
      if DecodeCapacity(|chunk|) <= DecodeBufferSize then
        var decoded := Decoded(chunk);
        var offset := t.offset + |decoded|;
        t.(offset := offset, data := t.data + decoded,
           state := if offset >= t.size as int then Complete else InProgress)
      else t.(state := Failed)
    case Complete =>
      if |chunk| == 5 then
        match DecodeU32(chunk)
        case Ok((v, _)) =>
          t.(checksum := v, state := if crc32(t.data[..t.size as int]) != v then InvalidChecksum else Success)
        case Err(_) => t.(state := Failed)
      else t.(state := Failed)
    case _ => t
  }

  /** `ResourceData`: the transfer in progress, updated in place chunk by
      chunk. */
  class ResourceData {
    var state: ResourceState
    var data: seq<byte>
    var crc: u32
    var currentIdx: u32
    var offset: nat
    var size: u32
    var checksum: u32
    const decodeBuffer: array<byte>

    ghost predicate Valid()
      reads this
    {
      decodeBuffer.Length == DecodeBufferSize
    }

    function Model(): Transfer
      reads this
    {
      Transfer(state, data, crc, currentIdx, offset, size, checksum)
    }

    /** `ResourceData::new()`: a fresh transfer and a zeroed decode buffer. */
    constructor ()
      ensures Valid() && Model() == Initial()
      ensures fresh(decodeBuffer)
      ensures forall i :: 0 <= i < decodeBuffer.Length ==> decodeBuffer[i] == 0
    {
      state, data, crc, currentIdx, offset, size, checksum := New, [], 0, 0, 0, 0, 0;
      decodeBuffer := new byte[DecodeBufferSize](_ => 0);
    }

    /** `reset`: overwrite the whole transfer with `new()`. */
    method Reset()
      requires Valid()
      modifies this, decodeBuffer
      ensures Valid() && Model() == Initial()
      ensures forall i :: 0 <= i < decodeBuffer.Length ==> decodeBuffer[i] == 0
    {
      state, data, crc, currentIdx, offset, size, checksum := New, [], 0, 0, 0, 0, 0;
      forall i | 0 <= i < decodeBuffer.Length {
        decodeBuffer[i] := 0;
      }
    }

    /** `process_data`: feed one chunk to the transfer. It always reports
        success, so the method returns nothing. */
    method ProcessData(chunk: seq<U7>, crc32: seq<byte> -> u32)
      requires Valid() && ChecksumInRange(Model())
      modifies this, decodeBuffer
      ensures Valid() && Model() == Step(old(Model()), chunk, crc32)
    {
      match state {
        case New =>
          if |chunk| == 5 {
            var r := DecodeU32(chunk);
            if r.Ok? {
              size := r.value.0;
              offset := 0;
              crc := 0;
            }
            state := if r.Ok? then InProgress else Failed;
          }
        case InProgress =>
          var r := DecodeBytes(decodeBuffer, chunk);
          if r.Ok? {
            offset := offset + r.value.bytesWritten;
            data := data + decodeBuffer[..r.value.bytesWritten];
            if offset >= size as int {
              state := Complete;
            }
          } else {
            state := Failed;
          }
        case Complete =>
          if |chunk| == 5 {
            var r := DecodeU32(chunk);
            if r.Ok? {
              checksum := r.value.0;
            }
            var sum := crc32(data[..size as int]);
            state := if r.Err? then Failed else if sum != checksum then InvalidChecksum else Success;
          } else {
            state := Failed;
          }
        case _ =>
      }
    }
  }

  // ---------------------------------------------------------------------
  // Properties of the transfer

  /** The transfer's invariant: the offset counts the received bytes, a new
      transfer has received nothing, and a complete one has received at least
      the announced size. */
  predicate Consistent(t: Transfer)
  {
    && |t.data| == t.offset
    && (t.state == New ==> t.offset == 0)
    && (t.state == Complete ==> t.offset >= t.size as int)
  }

  lemma InitialConsistent()
    ensures Consistent(Initial()) && Initial().state == New && Initial().data == []
  {
  }

  /** Every chunk keeps the transfer consistent; in particular a consistent
      transfer always meets `Step`'s requirement. */
  lemma StepConsistent(t: Transfer, chunk: seq<U7>, crc32: seq<byte> -> u32)
    requires Consistent(t)
    ensures ChecksumInRange(t)
    ensures Consistent(Step(t, chunk, crc32))
  {
    match t.state
    case New => NewStep(t, chunk, crc32);
    case InProgress => InProgressStep(t, chunk, crc32);
    case Complete => CompleteStep(t, chunk, crc32);
    case _ => FinalStatesAbsorb(t, chunk, crc32);
  }

  /** In `New`, only a five-word chunk does anything: it starts the transfer
      with the decoded size. */
  lemma NewStep(t: Transfer, chunk: seq<U7>, crc32: seq<byte> -> u32)
    requires t.state == New
    ensures |chunk| != 5 ==> Step(t, chunk, crc32) == t
    ensures |chunk| == 5 ==>
      && DecodeU32(chunk).Ok?
      && Step(t, chunk, crc32) == t.(state := InProgress, size := DecodeU32(chunk).value.0, offset := 0, crc := 0)
  {
  }

  /** In `InProgress`, a chunk that fits the decode buffer appends exactly its
      decoded bytes, and the transfer is complete once the offset reaches the
      size; a chunk that does not fit fails the transfer and keeps the data. */
  lemma InProgressStep(t: Transfer, chunk: seq<U7>, crc32: seq<byte> -> u32)
    requires t.state == InProgress
    ensures var r := Step(t, chunk, crc32);
      if DecodeCapacity(|chunk|) <= DecodeBufferSize then
        && r.data == t.data + Decoded(chunk)
        && r.offset == t.offset + DecodedLength(|chunk|)
        && (r.state == Complete <==> r.offset >= t.size as int)
        && (r.state != Complete ==> r.state == InProgress)
        && r.size == t.size && r.checksum == t.checksum
      else
        r == t.(state := Failed)
  {
  }

  /** In `Complete`, the trailer decides: a five-word chunk carrying the CRC-32
      of the image gives `Success`, any other five-word chunk
      `InvalidChecksum`, and a chunk of another length `Failed`. */
  lemma CompleteStep(t: Transfer, chunk: seq<U7>, crc32: seq<byte> -> u32)
    requires t.state == Complete && ChecksumInRange(t)
    ensures var r := Step(t, chunk, crc32);
      && (|chunk| != 5 ==> r == t.(state := Failed))
      && (|chunk| == 5 ==>
            && DecodeU32(chunk).Ok?
            && r.checksum == DecodeU32(chunk).value.0
            && r.data == t.data
            && (r.state == Success <==> crc32(t.data[..t.size as int]) == r.checksum)
            && (r.state != Success ==> r.state == InvalidChecksum))
  {
  }

  /** A header chunk made by the u32 encoder starts the transfer with exactly
      the encoded size. */
  lemma EncodedHeaderStarts(t: Transfer, size: u32, crc32: seq<byte> -> u32)
    requires t.state == New
    ensures EncodeU32(size, 5).Ok?
    ensures Step(t, EncodeU32(size, 5).value.0, crc32) == t.(state := InProgress, size := size, offset := 0, crc := 0)
  {
    NewStep(t, EncodeU32(size, 5).value.0, crc32);
  }

  /** A trailer chunk made by the u32 encoder from the CRC-32 of the received
      image makes the transfer succeed; one made from any other value makes
      it fail the checksum. */
  lemma EncodedTrailerDecides(t: Transfer, checksum: u32, crc32: seq<byte> -> u32)
    requires t.state == Complete && ChecksumInRange(t)
    ensures EncodeU32(checksum, 5).Ok?
    ensures var r := Step(t, EncodeU32(checksum, 5).value.0, crc32);
      && r.checksum == checksum
      && (r.state == Success <==> checksum == crc32(t.data[..t.size as int]))
      && (r.state != Success ==> r.state == InvalidChecksum)
  {
    CompleteStep(t, EncodeU32(checksum, 5).value.0, crc32);
  }

  /** `Success`, `Failed` and `InvalidChecksum` ignore every chunk. */
  lemma FinalStatesAbsorb(t: Transfer, chunk: seq<U7>, crc32: seq<byte> -> u32)
    requires t.state == Success || t.state == Failed || t.state == InvalidChecksum
    ensures Step(t, chunk, crc32) == t
  {
  }

  /** A run of chunks fed one after the other. */
  function Run(t: Transfer, chunks: seq<seq<U7>>, crc32: seq<byte> -> u32): Transfer
    requires Consistent(t)
    decreases |chunks|
  {
    StepConsistent(t, if chunks == [] then [] else chunks[0], crc32);
    if chunks == [] then t else Run(Step(t, chunks[0], crc32), chunks[1..], crc32)
  }

  /** From `new()`, any run of chunks leaves the transfer consistent, so the
      received data always has the counted length and a complete transfer's
      checksum slice is in range. */
  lemma {:induction false} RunConsistent(t: Transfer, chunks: seq<seq<U7>>, crc32: seq<byte> -> u32)
    requires Consistent(t)
    ensures Consistent(Run(t, chunks, crc32))
    ensures ChecksumInRange(Run(t, chunks, crc32))
    decreases |chunks|
  {
    if chunks != [] {
      StepConsistent(t, chunks[0], crc32);
      RunConsistent(Step(t, chunks[0], crc32), chunks[1..], crc32);
    }
  }

  /** Once finished, a transfer stays finished whatever follows. */
  lemma {:induction false} RunFromFinal(t: Transfer, chunks: seq<seq<U7>>, crc32: seq<byte> -> u32)
    requires Consistent(t)
    requires t.state == Success || t.state == Failed || t.state == InvalidChecksum
    ensures Run(t, chunks, crc32) == t
    decreases |chunks|
  {
    if chunks != [] {
      FinalStatesAbsorb(t, chunks[0], crc32);
      RunFromFinal(t, chunks[1..], crc32);
    }
  }

  /** A run of at least one chunk is its first step followed by the rest. */
  lemma RunFirst(t: Transfer, chunks: seq<seq<U7>>, crc32: seq<byte> -> u32)
    requires Consistent(t) && chunks != []
    ensures Consistent(Step(t, chunks[0], crc32))
    ensures Run(t, chunks, crc32) == Run(Step(t, chunks[0], crc32), chunks[1..], crc32)
  {
    StepConsistent(t, chunks[0], crc32);
  }

  /** Runs fed one after the other act as their concatenation. */
  lemma {:induction false} RunAppend(t: Transfer, a: seq<seq<U7>>, b: seq<seq<U7>>, crc32: seq<byte> -> u32)
    requires Consistent(t)
    ensures Consistent(Run(t, a, crc32))
    ensures Run(t, a + b, crc32) == Run(Run(t, a, crc32), b, crc32)
    decreases |a|
  {
    RunConsistent(t, a, crc32);
    if a == [] {
      assert a + b == b;
    } else {
      assert (a + b)[0] == a[0] && (a + b)[1..] == a[1..] + b;
      RunFirst(t, a, crc32);
      RunFirst(t, a + b, crc32);
      RunAppend(Step(t, a[0], crc32), a[1..], b, crc32);
    }
  }

  // ---------------------------------------------------------------------
  // A whole transfer: header, packed data, trailer

  /** The bytes of an image cut into runs, put back together. */
  function Concat(parts: seq<seq<byte>>): seq<byte>
  {
    if parts == [] then [] else parts[0] + Concat(parts[1..])
  }

  /** Runs small enough for one data chunk each: none is longer than
      fourteen bytes, the longest run the decoder round-trips, and a run is
      empty only when it is the only one (the empty image's data chunk). An
      empty run after the last byte would meet a complete transfer, which
      fails on any chunk that is not five words. */
  predicate SmallParts(parts: seq<seq<byte>>)
  {
    forall i :: 0 <= i < |parts| ==> |parts[i]| <= 14 && (parts[i] == [] ==> |parts| == 1)
  }

  /** The data chunks of a transfer: each run packed by the byte encoder. */
  function DataChunks(parts: seq<seq<byte>>): (chunks: seq<seq<U7>>)
    ensures |chunks| == |parts|
    ensures forall i :: 0 <= i < |parts| ==> chunks[i] == Encoded(parts[i])
  {
    seq(|parts|, i requires 0 <= i < |parts| => Encoded(parts[i]))
  }

  /** What a sender puts on the wire: the image size as a u32 header, the
      packed runs, and the checksum as a u32 trailer. */
  function TransferChunks(size: u32, parts: seq<seq<byte>>, checksum: u32): (chunks: seq<seq<U7>>)
    ensures |chunks| == |parts| + 2
  {
    [EncodeU32(size, 5).value.0] + DataChunks(parts) + [EncodeU32(checksum, 5).value.0]
  }

  /** A packed run of at most fourteen bytes fits the decode buffer. */
  lemma SmallChunkFits(part: seq<byte>)
    requires |part| <= 14
    ensures DecodeCapacity(|Encoded(part)|) <= DecodeBufferSize
  {
    var len := |Encoded(part)|;
    assert len <= 16;
    assert len * 7 <= 112;
  }

  /** One packed run of at most fourteen bytes, fed to a transfer in
      progress, appends exactly that run. */
  lemma DataChunkStep(t: Transfer, part: seq<byte>, crc32: seq<byte> -> u32)
    requires Consistent(t) && t.state == InProgress && |part| <= 14
    ensures var r := Step(t, Encoded(part), crc32);
      && Consistent(r)
      && r.data == t.data + part
      && r.offset == t.offset + |part|
      && r.size == t.size
      && (r.state == Complete <==> r.offset >= t.size as int)
      && (r.state != Complete ==> r.state == InProgress)
  {
    SmallChunkFits(part);
    RoundTripUpTo14(part);
    InProgressStep(t, Encoded(part), crc32);
    StepConsistent(t, Encoded(part), crc32);
  }

  /** A run of packed runs starts with the first run's step. */
  lemma DataChunksFirst(t: Transfer, parts: seq<seq<byte>>, crc32: seq<byte> -> u32)
    requires Consistent(t) && t.state == InProgress
    requires parts != [] && SmallParts(parts)
    ensures Consistent(Step(t, Encoded(parts[0]), crc32))
    ensures Run(t, DataChunks(parts), crc32) == Run(Step(t, Encoded(parts[0]), crc32), DataChunks(parts[1..]), crc32)
  {
    var chunks := DataChunks(parts);
    RunFirst(t, chunks, crc32);
    assert chunks[1..] == DataChunks(parts[1..]);
  }

  /** After the first of several packed runs, the transfer is still in
      progress and the remaining runs account for the rest of the image. */
  lemma DataChunksRest(t: Transfer, parts: seq<seq<byte>>, crc32: seq<byte> -> u32)
    requires Consistent(t) && t.state == InProgress
    requires |parts| >= 2 && SmallParts(parts)
    requires t.offset + |Concat(parts)| == t.size as int
    ensures var t' := Step(t, Encoded(parts[0]), crc32);
      && Consistent(t') && t'.state == InProgress && t'.size == t.size
      && SmallParts(parts[1..])
      && t'.offset + |Concat(parts[1..])| == t.size as int
      && t'.data + Concat(parts[1..]) == t.data + Concat(parts)
  {
    SmallPartsRest(parts);
    DataChunkStep(t, parts[0], crc32);
  }

  /** Several small runs: the ones after the first are small runs too, and
      they hold at least one byte. */
  lemma SmallPartsRest(parts: seq<seq<byte>>)
    requires |parts| >= 2 && SmallParts(parts)
    ensures SmallParts(parts[1..])
    ensures Concat(parts) == parts[0] + Concat(parts[1..])
    ensures |Concat(parts[1..])| >= 1
  {
    var rest := parts[1..];
    forall i | 0 <= i < |rest| ensures 1 <= |rest[i]| <= 14 {
      assert rest[i] == parts[i + 1];
    }
    assert |Concat(rest)| >= |rest[0]| >= 1;
  }

  /** Packed runs fed to a transfer in progress append exactly the runs; the
      transfer stays in progress until the announced size is reached with
      the last run, and is then complete. */
  lemma {:induction false} DataChunksAppend(t: Transfer, parts: seq<seq<byte>>, crc32: seq<byte> -> u32)
    requires Consistent(t) && t.state == InProgress
    requires parts != [] && SmallParts(parts)
    requires t.offset + |Concat(parts)| == t.size as int
    ensures var r := Run(t, DataChunks(parts), crc32);
      && r.state == Complete
      && r.data == t.data + Concat(parts)
      && r.size == t.size
    decreases |parts|
  {
    DataChunksFirst(t, parts, crc32);
    if |parts| == 1 {
      DataChunkStep(t, parts[0], crc32);
      assert DataChunks(parts[1..]) == [];
    } else {
      DataChunksRest(t, parts, crc32);
      DataChunksAppend(Step(t, Encoded(parts[0]), crc32), parts[1..], crc32);
    }
  }

  /** A header with an image size moves a transfer from `new()` to an empty
      transfer in progress awaiting that size. */
  lemma HeaderReceived(size: u32, crc32: seq<byte> -> u32)
    ensures EncodeU32(size, 5).Ok?
    ensures var t := Step(Initial(), EncodeU32(size, 5).value.0, crc32);
      && Consistent(t) && t.state == InProgress
      && t.data == [] && t.offset == 0 && t.size == size
  {
    EncodedHeaderStarts(Initial(), size, crc32);
  }

  /** A header with the image's size, then the image packed in runs, leave
      a transfer from `new()` complete with exactly the image. */
  lemma DataReceived(image: seq<byte>, size: u32, parts: seq<seq<byte>>, crc32: seq<byte> -> u32)
    requires size as int == |image|
    requires parts != [] && SmallParts(parts) && Concat(parts) == image
    ensures var r := Run(Initial(), [EncodeU32(size, 5).value.0] + DataChunks(parts), crc32);
      && Consistent(r)
      && r.state == Complete
      && r.data == image
      && r.size == size
  {
    var header := EncodeU32(size, 5).value.0;
    var chunks := [header] + DataChunks(parts);
    HeaderReceived(size, crc32);
    assert chunks[0] == header && chunks[1..] == DataChunks(parts);
    RunFirst(Initial(), chunks, crc32);
    var t1 := Step(Initial(), header, crc32);
    DataChunksAppend(t1, parts, crc32);
    RunConsistent(t1, DataChunks(parts), crc32);
  }

  /** A transfer from `new()` delivers the image: a header with the image's
      size, the image's bytes packed in runs of at most fourteen, then a
      trailer with a checksum leave exactly the image in the transfer, which
      succeeds iff the checksum is the image's CRC-32 and otherwise fails the
      checksum. */
  lemma TransferDelivers(image: seq<byte>, size: u32, parts: seq<seq<byte>>, checksum: u32, crc32: seq<byte> -> u32)
    requires size as int == |image|
    requires parts != [] && SmallParts(parts) && Concat(parts) == image
    ensures var r := Run(Initial(), TransferChunks(size, parts, checksum), crc32);
      && r.data == image
      && r.size == size
      && r.checksum == checksum
      && (r.state == Success <==> checksum == crc32(image))
      && (r.state != Success ==> r.state == InvalidChecksum)
  {
    var prefix := [EncodeU32(size, 5).value.0] + DataChunks(parts);
    TransferChunksSplit(size, parts, checksum);
    DataReceived(image, size, parts, crc32);
    CompletedThenTrailer(Initial(), prefix, image, checksum, crc32);
  }

  /** The chunks of a transfer are the header and data chunks, then the
      trailer. */
  lemma TransferChunksSplit(size: u32, parts: seq<seq<byte>>, checksum: u32)
    ensures TransferChunks(size, parts, checksum)
         == ([EncodeU32(size, 5).value.0] + DataChunks(parts)) + [EncodeU32(checksum, 5).value.0]
  {
  }

  /** Chunks that leave a transfer complete with an image, followed by the
      trailer: the trailer's step decides the transfer over the image. */
  lemma CompletedThenTrailer(t: Transfer, prefix: seq<seq<U7>>, image: seq<byte>, checksum: u32,
                             crc32: seq<byte> -> u32)
    requires Consistent(t)
    requires var c := Run(t, prefix, crc32);
      Consistent(c) && c.state == Complete && c.data == image && c.size as int == |image|
    ensures var r := Run(t, prefix + [EncodeU32(checksum, 5).value.0], crc32);
      && r.data == image && r.size == Run(t, prefix, crc32).size
      && r.checksum == checksum
      && (r.state == Success <==> checksum == crc32(image))
      && (r.state != Success ==> r.state == InvalidChecksum)
  {
    var c := Run(t, prefix, crc32);
    RunAppend(t, prefix, [EncodeU32(checksum, 5).value.0], crc32);
    TrailerDecides(c, checksum, crc32);
    assert c.data[..c.size as int] == image;
  }

  /** The trailer ends a complete transfer: a run of just the trailer is the
      trailer's step. */
  lemma TrailerDecides(t: Transfer, checksum: u32, crc32: seq<byte> -> u32)
    requires Consistent(t) && t.state == Complete
    ensures var r := Run(t, [EncodeU32(checksum, 5).value.0], crc32);
      && r.data == t.data && r.size == t.size
      && r.checksum == checksum
      && (r.state == Success <==> checksum == crc32(t.data[..t.size as int]))
      && (r.state != Success ==> r.state == InvalidChecksum)
  {
    var trailer := EncodeU32(checksum, 5).value.0;
    RunFirst(t, [trailer], crc32);
    EncodedTrailerDecides(t, checksum, crc32);
    CompleteStep(t, trailer, crc32);
  }

  /** The empty image: a header with size zero, one empty data chunk and a
      trailer leave no data, and the transfer succeeds iff the checksum is
      the CRC-32 of no bytes. */
  lemma EmptyImageDelivers(checksum: u32, crc32: seq<byte> -> u32)
    ensures var r := Run(Initial(), TransferChunks(0, [[]], checksum), crc32);
      && r.data == []
      && (r.state == Success <==> checksum == crc32([]))
      && (r.state != Success ==> r.state == InvalidChecksum)
  {
    assert SmallParts([[]]) && Concat([[]]) == [];
    TransferDelivers([], 0, [[]], checksum, crc32);
  }

  /** Without a data chunk, the trailer of an empty image is taken as data:
      its five words decode to four bytes, and the transfer is complete and
      waits for a trailer. */
  lemma TrailerTakenAsData(checksum: u32, crc32: seq<byte> -> u32)
    ensures var r := Run(Initial(), [EncodeU32(0, 5).value.0, EncodeU32(checksum, 5).value.0], crc32);
      && r.state == Complete
      && |r.data| == 4
  {
    var header := EncodeU32(0, 5).value.0;
    var trailer := EncodeU32(checksum, 5).value.0;
    var chunks := [header, trailer];
    HeaderReceived(0, crc32);
    RunFirst(Initial(), chunks, crc32);
    var t1 := Step(Initial(), header, crc32);
    assert chunks[1..] == [trailer];
    RunFirst(t1, [trailer], crc32);
    InProgressStep(t1, trailer, crc32);
  }
}
