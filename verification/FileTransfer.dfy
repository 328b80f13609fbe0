/** Sender and receiver of a file transfer: framing, resume, and the whole-file integrity check. */
module FileTransfer {
  import opened Arith
  import opened Chunking
  import opened Wire
  import FileName

  const MAX_FILE_CHUNK := 0x10_0000
  const CHUNK_HEADER_LEN := 21

  datatype FramingError = Truncated | ChunkTooLarge(len: nat) | ReservedBitsSet

  datatype FileError =
    | CapabilityDenied
    | NameRejected(reason: FileName.NameError)
    | ResumeBeyondSize(resume: nat, total: nat)
    | TooLarge(size: nat, cap: nat)
    | UnknownTransfer(gotId: nat, expectedId: nat)
    | OffsetMismatch(expectedOffset: nat, gotOffset: nat)
    | ChunkBeyondSize(offset: nat, len: nat, fileSize: nat)
    | LenMismatch(declared: nat, actual: nat)
    | LastChunkNotAtEnd(end: nat, endOfFile: nat)
    | InvalidChunkSize(chunkSize: nat)
    | IntegrityFailed
    | Framing(framing: FramingError)

  datatype Result<+T> = Ok(value: T) | Err(error: FileError)

  // ---- Chunk headers ----

  datatype ChunkHeader = ChunkHeader(transferId: u64, offset: u64, len: u32, last: bool)

  predicate ValidChunkSize(n: nat) { 0 < n <= MAX_FILE_CHUNK }

  function EncodeHeader(h: ChunkHeader): (bytes: seq<byte>)
    requires ValidChunkSize(h.len)
    ensures |bytes| == CHUNK_HEADER_LEN
  {
    ToBigEndian(h.transferId, 8) + ToBigEndian(h.offset, 8) + ToBigEndian(h.len, 4) + [Flag(h.last)]
  }

  function DecodeHeader(data: seq<byte>): (r: Result<ChunkHeader>)
    ensures r.Ok? ==> |data| >= CHUNK_HEADER_LEN && ValidChunkSize(r.value.len)
  {
    if |data| < CHUNK_HEADER_LEN then Err(Framing(Truncated))
    else
      var id, offset, len := FromBigEndian(data[..8]), FromBigEndian(data[8..16]), FromBigEndian(data[16..20]);
      assert Pow256(8) == 0x1_0000_0000_0000_0000 && Pow256(4) == TIMESTAMPS;
      if !ValidChunkSize(len) then Err(Framing(ChunkTooLarge(len)))
      else if data[20] > 1 then Err(Framing(ReservedBitsSet))
      else Ok(ChunkHeader(id, offset, len, data[20] == 1))
  }

  lemma HeaderRoundTrip(h: ChunkHeader, payload: seq<byte>)
    requires ValidChunkSize(h.len)
    ensures DecodeHeader(EncodeHeader(h) + payload) == Ok(h)
    ensures (EncodeHeader(h) + payload)[CHUNK_HEADER_LEN..] == payload
  {
    hide ToBigEndian, FromBigEndian;
    var data := EncodeHeader(h) + payload;
    assert data[..8] == ToBigEndian(h.transferId, 8);
    assert data[8..16] == ToBigEndian(h.offset, 8);
    assert data[16..20] == ToBigEndian(h.len, 4);
    BigEndianRoundTrip(h.transferId, 8);
    BigEndianRoundTrip(h.offset, 8);
    BigEndianRoundTrip(h.len, 4);
    assert Pow256(8) == 0x1_0000_0000_0000_0000 && Pow256(4) == TIMESTAMPS;
  }

  // ---- The sender ----

  type File = f: seq<byte> | |f| < 0x1_0000_0000_0000_0000 witness []

  /** Where the chunk that starts at `cursor` ends. */
  function ChunkEnd(file: File, chunkSize: nat, cursor: nat): nat {
    Min(cursor + chunkSize, |file|)
  }

  /** The frame a sender emits with its cursor at `cursor`. */
  function FrameAt(file: File, id: u64, chunkSize: nat, cursor: nat): seq<byte>
    requires cursor < |file| && ValidChunkSize(chunkSize)
  {
    var end := ChunkEnd(file, chunkSize, cursor);
    EncodeHeader(ChunkHeader(id, cursor, end - cursor, end == |file|)) + file[cursor..end]
  }

  class FileSender {
    const transferId: u64
    const data: File
    const chunkSize: nat
    var cursor: nat

    ghost predicate Valid()
      reads this
    {
      ValidChunkSize(chunkSize) && cursor <= |data|
    }

    constructor (transferId: u64, data: File, chunkSize: nat)
      requires ValidChunkSize(chunkSize)
      ensures Valid() && cursor == 0
      ensures this.transferId == transferId && this.data == data && this.chunkSize == chunkSize
    {
      this.transferId, this.data, this.chunkSize := transferId, data, chunkSize;
      cursor := 0;
    }

    method OnAccept(acceptId: u64, resumeOffset: u64) returns (r: Result<()>)
      requires Valid()
      modifies this
      ensures Valid()
      ensures r == (if acceptId != transferId then Err(UnknownTransfer(acceptId, transferId))
                    else if resumeOffset > |data| then Err(ResumeBeyondSize(resumeOffset, |data|))
                    else Ok(()))
      ensures cursor == if r.Ok? then resumeOffset else old(cursor)
    {
      if acceptId != transferId {
        return Err(UnknownTransfer(acceptId, transferId));
      }
      if resumeOffset > |data| {
        return Err(ResumeBeyondSize(resumeOffset, |data|));
      }
      cursor := resumeOffset;
      return Ok(());
    }

    method NextChunk() returns (frame: Option<seq<byte>>)
      requires Valid()
      modifies this
      ensures Valid()
      ensures old(cursor) == |data| ==> frame == None && cursor == old(cursor)
      ensures old(cursor) < |data| ==>
                && frame == Some(FrameAt(data, transferId, chunkSize, old(cursor)))
                && cursor == ChunkEnd(data, chunkSize, old(cursor))
    {
      var total := |data|;
      if cursor >= total {
        return None;
      }
      var start := cursor;
      var remaining := total - start;
      var take := Min(remaining, chunkSize);
      var end := start + take;
      var payload := data[start..end];
      var last := end >= total;
      var header := EncodeHeader(ChunkHeader(transferId, start, take, last));
      cursor := end;
      return Some(header + payload);
    }
  }

  method NewSender(transferId: u64, name: seq<byte>, data: File, chunkSize: nat)
    returns (r: Result<FileSender>)
    ensures r.Err? ==>
              r.error == match FileName.Refused(name)
                         case Some(reason) => NameRejected(reason)
                         case None => InvalidChunkSize(chunkSize)
    ensures r.Ok? <==> FileName.Refused(name).None? && 1 <= chunkSize <= 1048576
    ensures r.Ok? ==>
              var s := r.value;
              && fresh(s) && s.Valid() && s.cursor == 0
              && s.transferId == transferId && s.data == data && s.chunkSize == chunkSize
  {
    var refused := FileName.Refused(name);
    if refused.Some? {
      return Err(NameRejected(refused.value));
    }
    if chunkSize == 0 || chunkSize > MAX_FILE_CHUNK {
      return Err(InvalidChunkSize(chunkSize));
    }
    var sender := new FileSender(transferId, data, chunkSize);
    return Ok(sender);
  }

  // ---- The receiver ----

  /** `hashed` is what the running hash has absorbed; `received` starts with any retained prefix. */
  datatype Receiver = Receiver(
    transferId: u64, totalSize: nat, hashed: seq<byte>, received: seq<byte>, cap: nat)

  /** Why a frame is refused, None if it is accepted. */
  function Refusal(r: Receiver, frame: seq<byte>): Option<FileError> {
    var header := DecodeHeader(frame);
    if header.Err? then Some(header.error)
    else
      var h, payload := header.value, frame[CHUNK_HEADER_LEN..];
      var end := h.offset + h.len;
      if h.transferId != r.transferId then Some(UnknownTransfer(h.transferId, r.transferId))
      else if h.len != |payload| then Some(LenMismatch(h.len, |payload|))
      else if h.offset != |r.received| then Some(OffsetMismatch(|r.received|, h.offset))
      else if end > r.totalSize then Some(ChunkBeyondSize(h.offset, h.len, r.totalSize))
      else if end > r.cap then Some(TooLarge(end, r.cap))
      else if h.last && end != r.totalSize then Some(LastChunkNotAtEnd(end, r.totalSize))
      else None
  }

  /** The receiver after one frame; a refused frame changes nothing. */
  function Ingest(r: Receiver, frame: seq<byte>): Receiver {
    if Refusal(r, frame).Some? then r
    else
      var payload := frame[CHUNK_HEADER_LEN..];
      r.(hashed := r.hashed + payload, received := r.received + payload)
  }

  /** Never more than the offered size, never more than the cap, and the hash covers exactly the bytes held. */
  ghost predicate Bounded(r: Receiver) {
    |r.received| <= r.totalSize <= r.cap && r.hashed == r.received
  }

  /** What finishing gives: the bytes held, if they are complete and hash to the offered digest. */
  function Finished<Digest(==)>(r: Receiver, sha: seq<byte> -> Digest, expectedSha: Digest): Result<seq<byte>> {
    if sha(r.hashed) == expectedSha && |r.received| == r.totalSize then Ok(r.received) else Err(IntegrityFailed)
  }

  class FileReceiver {
    const transferId: u64
    const totalSize: nat
    const cap: nat
    var hashed: seq<byte>
    var received: seq<byte>

    ghost function State(): Receiver
      reads this
    {
      Receiver(transferId, totalSize, hashed, received, cap)
    }

    constructor (r: Receiver)
      ensures State() == r
    {
      transferId, totalSize, cap := r.transferId, r.totalSize, r.cap;
      hashed, received := r.hashed, r.received;
    }

    method OnChunk(frame: seq<byte>) returns (result: Result<bool>)
      requires Bounded(State())
      modifies this
      ensures State() == Ingest(old(State()), frame) && Bounded(State())
      ensures match Refusal(old(State()), frame)
              case Some(e) => result == Err(e)
              case None => result == Ok(|received| == totalSize)
    {
      IngestKeepsBounds(State(), frame);
      var header := DecodeHeader(frame);
      if header.Err? {
        return Err(header.error);
      }
      var h, payload := header.value, frame[CHUNK_HEADER_LEN..];
      if h.transferId != transferId {
        return Err(UnknownTransfer(h.transferId, transferId));
      }
      if h.len != |payload| {
        return Err(LenMismatch(h.len, |payload|));
      }
      var expected := |received|;
      if h.offset != expected {
        return Err(OffsetMismatch(expected, h.offset));
      }
      var end := h.offset + h.len;
      if end > totalSize {
        return Err(ChunkBeyondSize(h.offset, h.len, totalSize));
      }
      if end > cap {
        return Err(TooLarge(end, cap));
      }
      if h.last && end != totalSize {
        return Err(LastChunkNotAtEnd(end, totalSize));
      }
      hashed := hashed + payload;
      received := received + payload;
      return Ok(|received| >= totalSize);
    }

    /** `sha` stands for SHA-256, `expectedSha` for the digest of the offer. */
    method Finish<Digest(==)>(sha: seq<byte> -> Digest, expectedSha: Digest) returns (result: Result<seq<byte>>)
      ensures result == Finished(State(), sha, expectedSha)
      ensures Bounded(State()) ==> (result.Ok? <==> sha(received) == expectedSha && |received| == totalSize)
    {
      var digest := sha(hashed);
      if digest == expectedSha && |received| == totalSize {
        return Ok(received);
      }
      return Err(IntegrityFailed);
    }
  }

  /** The capability bit for file transfer. */
  const CAPABILITY_FILE: bv32 := 8

  predicate MayTransfer(capabilities: bv32) { capabilities & CAPABILITY_FILE == CAPABILITY_FILE }

  method AcceptOffer(capabilities: bv32, name: seq<byte>, id: u64, totalSize: u64, alreadyHave: seq<byte>, cap: u64)
    returns (result: Result<(Receiver, nat)>)
    ensures result ==
            if !MayTransfer(capabilities) then Err(CapabilityDenied)
            else if FileName.Refused(name).Some? then Err(NameRejected(FileName.Refused(name).value))
            else if totalSize > cap then Err(TooLarge(totalSize, cap))
            else if |alreadyHave| > totalSize then Err(ResumeBeyondSize(|alreadyHave|, totalSize))
            else Ok((Receiver(id, totalSize, alreadyHave, alreadyHave, cap), |alreadyHave|))
    ensures result == Err(CapabilityDenied) <==> capabilities & 0x8 == 0
    ensures result.Ok? ==> Bounded(result.value.0)
  {
    if !MayTransfer(capabilities) {
      return Err(CapabilityDenied);
    }
    var refused := FileName.Refused(name);
    if refused.Some? {
      return Err(NameRejected(refused.value));
    }
    if totalSize > cap {
      return Err(TooLarge(totalSize, cap));
    }
    var resume := |alreadyHave|;
    if resume > totalSize {
      return Err(ResumeBeyondSize(resume, totalSize));
    }
    return Ok((Receiver(id, totalSize, alreadyHave, alreadyHave, cap), resume));
  }

  /** For arbitrary, even hostile, frames. */
  lemma IngestKeepsBounds(r: Receiver, frame: seq<byte>)
    requires Bounded(r)
    ensures Bounded(Ingest(r, frame)) && r.received <= Ingest(r, frame).received
  {
    hide DecodeHeader;
  }

  function IngestAll(r: Receiver, frames: seq<seq<byte>>): Receiver
    decreases |frames|
  {
    if frames == [] then r else IngestAll(Ingest(r, frames[0]), frames[1..])
  }

  method Feed(receiver: FileReceiver, frames: seq<seq<byte>>)
    requires Bounded(receiver.State())
    modifies receiver
    ensures receiver.State() == IngestAll(old(receiver.State()), frames) && Bounded(receiver.State())
  {
    hide Ingest, Refusal, Bounded;
    for i := 0 to |frames|
      invariant Bounded(receiver.State())
      invariant IngestAll(receiver.State(), frames[i..]) == IngestAll(old(receiver.State()), frames)
    {
      var _ := receiver.OnChunk(frames[i]);
    }
  }

  lemma {:induction false} IngestAllKeepsBounds(r: Receiver, frames: seq<seq<byte>>)
    requires Bounded(r)
    ensures Bounded(IngestAll(r, frames)) && r.received <= IngestAll(r, frames).received
    ensures IngestAll(r, frames).totalSize == r.totalSize
    decreases |frames|
  {
    if frames != [] {
      IngestKeepsBounds(r, frames[0]);
      IngestAllKeepsBounds(Ingest(r, frames[0]), frames[1..]);
    }
  }

  /**
   * Integrity: whatever was retained, whatever frames come, from whomever, a transfer finishes exactly if the
   * bytes held are the offered file, and then returns it. It takes a hash that tells the file from other bytes.
   */
  lemma FinishIsIntegrity<Digest>(
      r: Receiver, frames: seq<seq<byte>>, sha: seq<byte> -> Digest, file: seq<byte>)
    requires Bounded(r)
    requires forall bytes :: |bytes| == r.totalSize && sha(bytes) == sha(file) ==> bytes == file
    ensures var r' := IngestAll(r, frames);
            && (Finished(r', sha, sha(file)).Ok? <==> r'.received == file && r.totalSize == |file|)
            && (Finished(r', sha, sha(file)).Ok? ==> Finished(r', sha, sha(file)) == Ok(file))
  {
    hide Ingest;
    IngestAllKeepsBounds(r, frames);
  }

  // ---- What a frame has to say to change anything ----

  /**
   * Bytes 0 to 7 name this transfer, 8 to 15 the place the receiver stands at, 16 to 19 the length of what follows
   * the 21 header bytes, and byte 20 is 1 at most, and only if this ends the file.
   */
  ghost predicate Continues(r: Receiver, frame: seq<byte>) {
    && |frame| > 21
    && var len := |frame| - 21;
       var end := |r.received| + len;
       && Number8(frame[0..8]) == r.transferId
       && Number8(frame[8..16]) == |r.received|
       && Number4(frame[16..20]) == len <= 0x10_0000
       && end <= r.totalSize && end <= r.cap
       && frame[20] <= 1 && (frame[20] == 1 ==> end == r.totalSize)
  }

  /** Any bytes at all, as a frame: they are appended exactly if they continue the transfer, or nothing changes. */
  lemma OnlyItsContinuation(r: Receiver, frame: seq<byte>)
    ensures Ingest(r, frame) ==
            if Continues(r, frame)
            then r.(hashed := r.hashed + frame[21..], received := r.received + frame[21..])
            else r
  {
    hide FromBigEndian, Number8, Number4;
    if |frame| >= 21 {
      ByPlaces8(frame[..8]);
      ByPlaces8(frame[8..16]);
      ByPlaces4(frame[16..20]);
      assert frame[0..8] == frame[..8];
    }
  }

  /** A frame of another transfer is refused as such, and one of this transfer at the wrong place as that. */
  lemma WhyRefused(r: Receiver, file: File, id: u64, chunkSize: nat, cursor: nat)
    requires cursor < |file| && ValidChunkSize(chunkSize)
    ensures var frame := FrameAt(file, id, chunkSize, cursor);
            && (id != r.transferId ==> Refusal(r, frame) == Some(UnknownTransfer(id, r.transferId)))
            && (id == r.transferId && cursor != |r.received| ==>
                  Refusal(r, frame) == Some(OffsetMismatch(|r.received|, cursor)))
  {
    hide DecodeHeader, FrameAt;
    FrameFields(file, id, chunkSize, cursor);
  }

  /** Why any bytes at all are refused, by their places, the first reason in this order. */
  lemma RefusalByPlaces(r: Receiver, frame: seq<byte>)
    ensures |frame| < 21 ==> Refusal(r, frame) == Some(Framing(Truncated))
    ensures |frame| >= 21 ==>
              var id, offset, len := Number8(frame[0..8]), Number8(frame[8..16]), Number4(frame[16..20]);
              var end := offset + len;
              Refusal(r, frame) ==
              if !(1 <= len <= 1048576) then Some(Framing(ChunkTooLarge(len)))
              else if frame[20] > 1 then Some(Framing(ReservedBitsSet))
              else if id != r.transferId then Some(UnknownTransfer(id, r.transferId))
              else if len != |frame| - 21 then Some(LenMismatch(len, |frame| - 21))
              else if offset != |r.received| then Some(OffsetMismatch(|r.received|, offset))
              else if end > r.totalSize then Some(ChunkBeyondSize(offset, len, r.totalSize))
              else if end > r.cap then Some(TooLarge(end, r.cap))
              else if frame[20] == 1 && end != r.totalSize then Some(LastChunkNotAtEnd(end, r.totalSize))
              else None
  {
    hide FromBigEndian, Number8, Number4;
    if |frame| >= 21 {
      ByPlaces8(frame[..8]);
      ByPlaces8(frame[8..16]);
      ByPlaces4(frame[16..20]);
      assert frame[0..8] == frame[..8];
    }
  }

  // ---- Replay ----

  /** Some sender of `file`, at some cursor and some chunk size, emits `frame`. */
  ghost predicate Emittable(file: File, id: u64, frame: seq<byte>) {
    exists chunkSize: nat, cursor: nat {:trigger FrameAt(file, id, chunkSize, cursor)} ::
      cursor < |file| && ValidChunkSize(chunkSize) && frame == FrameAt(file, id, chunkSize, cursor)
  }

  ghost predicate ReceivesFor(r: Receiver, file: File, id: u64) {
    Bounded(r) && r.transferId == id && r.totalSize == |file| && r.received <= file
  }

  lemma FrameFields(file: File, id: u64, chunkSize: nat, cursor: nat)
    requires cursor < |file| && ValidChunkSize(chunkSize)
    ensures var frame, end := FrameAt(file, id, chunkSize, cursor), ChunkEnd(file, chunkSize, cursor);
            && DecodeHeader(frame) == Ok(ChunkHeader(id, cursor, end - cursor, end == |file|))
            && frame[CHUNK_HEADER_LEN..] == file[cursor..end]
  {
    hide DecodeHeader, EncodeHeader;
    var end := ChunkEnd(file, chunkSize, cursor);
    HeaderRoundTrip(ChunkHeader(id, cursor, end - cursor, end == |file|), file[cursor..end]);
  }

  /** A genuine frame is accepted exactly when it continues where the receiver stands. */
  lemma GenuineFrame(r: Receiver, file: File, id: u64, chunkSize: nat, cursor: nat)
    requires ReceivesFor(r, file, id) && cursor < |file| && ValidChunkSize(chunkSize)
    ensures var frame := FrameAt(file, id, chunkSize, cursor);
            && (Refusal(r, frame).None? <==> cursor == |r.received|)
            && (cursor == |r.received| ==> Ingest(r, frame).received == file[..ChunkEnd(file, chunkSize, cursor)])
            && ReceivesFor(Ingest(r, frame), file, id)
  {
    hide DecodeHeader, FrameAt, Refusal, Ingest;
    FrameFields(file, id, chunkSize, cursor);
    Placement(r, file, FrameAt(file, id, chunkSize, cursor), cursor, ChunkEnd(file, chunkSize, cursor));
  }

  lemma Placement(r: Receiver, file: File, frame: seq<byte>, cursor: u64, end: nat)
    requires Bounded(r) && r.totalSize == |file| && r.received <= file
    requires cursor < end <= |file| && end - cursor <= MAX_FILE_CHUNK
    requires DecodeHeader(frame) == Ok(ChunkHeader(r.transferId, cursor, end - cursor, end == |file|))
    requires frame[CHUNK_HEADER_LEN..] == file[cursor..end]
    ensures Refusal(r, frame).None? <==> cursor == |r.received|
    ensures cursor == |r.received| ==> Ingest(r, frame).received == file[..end]
    ensures ReceivesFor(Ingest(r, frame), file, r.transferId)
  {
    hide DecodeHeader;
    if cursor == |r.received| {
      assert r.received == file[..cursor];
      assert file[..cursor] + file[cursor..end] == file[..end];
    }
  }

  /** Frames lost, repeated, reordered or left over from another attempt never corrupt the prefix held. */
  lemma {:induction false} ReplaySafety(r: Receiver, file: File, id: u64, frames: seq<seq<byte>>)
    requires ReceivesFor(r, file, id)
    requires forall i :: 0 <= i < |frames| ==> Emittable(file, id, frames[i])
    ensures ReceivesFor(IngestAll(r, frames), file, id)
    ensures r.received <= IngestAll(r, frames).received
    decreases |frames|
  {
    if frames != [] {
      assert Emittable(file, id, frames[0]);
      var chunkSize: nat, cursor: nat :|
        cursor < |file| && ValidChunkSize(chunkSize) && frames[0] == FrameAt(file, id, chunkSize, cursor);
      GenuineFrame(r, file, id, chunkSize, cursor);
      IngestKeepsBounds(r, frames[0]);
      ReplaySafety(Ingest(r, frames[0]), file, id, frames[1..]);
    }
  }

  /** The frames of any number of transfers, mixed: each was emitted by the sender of some file. */
  ghost predicate Mixed(files: map<u64, File>, frames: seq<seq<byte>>) {
    forall i :: 0 <= i < |frames| ==> exists id: u64 :: id in files && Emittable(files[id], id, frames[i])
  }

  /** Of mixed frames, those that name one transfer. */
  function Own(frames: seq<seq<byte>>, id: u64): seq<seq<byte>>
    decreases |frames|
  {
    if frames == [] then []
    else (if |frames[0]| >= 21 && Number8(frames[0][0..8]) == id then [frames[0]] else []) + Own(frames[1..], id)
  }

  /** What a receiver makes of any frames is what it makes of those that name its transfer. */
  lemma {:induction false} Isolation(r: Receiver, frames: seq<seq<byte>>)
    ensures IngestAll(r, frames) == IngestAll(r, Own(frames, r.transferId))
    decreases |frames|
  {
    hide Ingest, Number8;
    if frames != [] {
      OnlyItsContinuation(r, frames[0]);
      Isolation(Ingest(r, frames[0]), frames[1..]);
      var own := Own(frames[1..], r.transferId);
      if |frames[0]| >= 21 && Number8(frames[0][0..8]) == r.transferId {
        assert ([frames[0]] + own)[1..] == own;
      } else {
        assert [] + own == own;
      }
    }
  }

  /** So frames of any number of transfers, mixed, lost and repeated, leave each receiver a prefix of its own file. */
  lemma {:induction false} MixedReplaySafety(r: Receiver, files: map<u64, File>, frames: seq<seq<byte>>)
    requires r.transferId in files && ReceivesFor(r, files[r.transferId], r.transferId) && Mixed(files, frames)
    ensures ReceivesFor(IngestAll(r, frames), files[r.transferId], r.transferId)
    ensures r.received <= IngestAll(r, frames).received
    decreases |frames|
  {
    hide Ingest, FrameAt;
    if frames != [] {
      var id: u64 :| id in files && Emittable(files[id], id, frames[0]);
      var chunkSize: nat, cursor: nat :|
        cursor < |files[id]| && ValidChunkSize(chunkSize) && frames[0] == FrameAt(files[id], id, chunkSize, cursor);
      if id == r.transferId {
        GenuineFrame(r, files[id], id, chunkSize, cursor);
      } else {
        ForeignFrame(r, files[id], id, chunkSize, cursor);
      }
      IngestKeepsBounds(r, frames[0]);
      MixedReplaySafety(Ingest(r, frames[0]), files, frames[1..]);
    }
  }

  lemma ForeignFrame(r: Receiver, file: File, id: u64, chunkSize: nat, cursor: nat)
    requires cursor < |file| && ValidChunkSize(chunkSize) && id != r.transferId
    ensures Ingest(r, FrameAt(file, id, chunkSize, cursor)) == r
  {
    hide FrameAt, Refusal;
    WhyRefused(r, file, id, chunkSize, cursor);
  }

  // ---- One attempt ----

  /** Everything a sender emits from `cursor` to the end of the file. */
  function Frames(file: File, id: u64, chunkSize: nat, cursor: nat): seq<seq<byte>>
    requires cursor <= |file| && ValidChunkSize(chunkSize)
    decreases |file| - cursor
  {
    if cursor == |file| then []
    else [FrameAt(file, id, chunkSize, cursor)]
         + Frames(file, id, chunkSize, ChunkEnd(file, chunkSize, cursor))
  }

  method SendAll(sender: FileSender) returns (frames: seq<seq<byte>>)
    requires sender.Valid()
    modifies sender
    ensures sender.cursor == |sender.data|
    ensures frames == Frames(sender.data, sender.transferId, sender.chunkSize, old(sender.cursor))
  {
    hide FrameAt, Frames, ChunkEnd;
    frames := [];
    assert frames + Frames(sender.data, sender.transferId, sender.chunkSize, sender.cursor)
           == Frames(sender.data, sender.transferId, sender.chunkSize, sender.cursor);
    while true
      invariant sender.Valid()
      invariant frames + Frames(sender.data, sender.transferId, sender.chunkSize, sender.cursor)
                == Frames(sender.data, sender.transferId, sender.chunkSize, old(sender.cursor))
      decreases |sender.data| - sender.cursor
    {
      FramesStep(sender.data, sender.transferId, sender.chunkSize, sender.cursor, frames);
      var frame := sender.NextChunk();
      if frame.None? {
        break;
      }
      frames := frames + [frame.value];
    }
  }

  /** The frames still to send are the one at the cursor, then those from the end of its chunk. */
  lemma FramesStep(file: File, id: u64, chunkSize: nat, cursor: nat, done: seq<seq<byte>>)
    requires cursor <= |file| && ValidChunkSize(chunkSize)
    ensures var frames := Frames(file, id, chunkSize, cursor);
            if cursor == |file| then done + frames == done
            else
              var end := ChunkEnd(file, chunkSize, cursor);
              && cursor < end <= |file|
              && done + frames == done + [FrameAt(file, id, chunkSize, cursor)] + Frames(file, id, chunkSize, end)
  {
    hide FrameAt;
  }

  /** An attempt is `ceil(remaining / chunkSize)` frames, and LAST is set on the final one only. */
  lemma {:induction false} AttemptShape(file: File, id: u64, chunkSize: nat, cursor: nat)
    requires cursor <= |file| && ValidChunkSize(chunkSize)
    ensures var frames := Frames(file, id, chunkSize, cursor);
            && |frames| == DivCeil(|file| - cursor, chunkSize)
            && forall i :: 0 <= i < |frames| ==>
                 DecodeHeader(frames[i]).Ok? && (DecodeHeader(frames[i]).value.last <==> i == |frames| - 1)
    decreases |file| - cursor
  {
    hide DecodeHeader, FrameAt;
    if cursor < |file| {
      var end := ChunkEnd(file, chunkSize, cursor);
      AttemptShape(file, id, chunkSize, end);
      FrameFields(file, id, chunkSize, cursor);
      if end < |file| {
        DivCeilStep(|file| - cursor, chunkSize);
        DivCeilPositive(|file| - end, chunkSize);
      } else {
        QuotientUnique(chunkSize, 1, |file| - cursor - 1);
        QuotientUnique(chunkSize, 0, chunkSize - 1);
      }
    } else {
      QuotientUnique(chunkSize, 0, chunkSize - 1);
    }
  }

  /** The first `n` frames of an attempt, delivered in order, are all accepted. */
  lemma {:induction false} AttemptProgress(r: Receiver, file: File, id: u64, chunkSize: nat, n: nat)
    requires ReceivesFor(r, file, id) && ValidChunkSize(chunkSize)
    requires n <= |Frames(file, id, chunkSize, |r.received|)|
    ensures var r' := IngestAll(r, Frames(file, id, chunkSize, |r.received|)[..n]);
            && ReceivesFor(r', file, id)
            && |r'.received| == Min(|r.received| + n * chunkSize, |file|)
            && (n == |Frames(file, id, chunkSize, |r.received|)| ==> r'.received == file)
    decreases n
  {
    hide FrameAt;
    var frames := Frames(file, id, chunkSize, |r.received|);
    if n > 0 {
      GenuineFrame(r, file, id, chunkSize, |r.received|);
      var r' := Ingest(r, frames[0]);
      assert frames[..n][1..] == frames[1..][..n - 1];
      AttemptProgress(r', file, id, chunkSize, n - 1);
      assert n * chunkSize == chunkSize + (n - 1) * chunkSize;
    }
  }

  // ---- Resuming over several attempts ----

  /** The bytes held after a series of attempts, each resuming from what the one before it left. */
  function Resumed(file: File, id: u64, cap: nat, held: seq<byte>, attempts: seq<seq<seq<byte>>>): seq<byte>
    decreases |attempts|
  {
    if attempts == [] then held
    else
      var r := IngestAll(Receiver(id, |file|, held, held, cap), attempts[0]);
      Resumed(file, id, cap, r.received, attempts[1..])
  }

  /** Bytes accepted, attempt by attempt. */
  function Accepted(file: File, id: u64, cap: nat, held: seq<byte>, attempts: seq<seq<seq<byte>>>): seq<seq<byte>>
    decreases |attempts|
  {
    if attempts == [] then []
    else
      var r := IngestAll(Receiver(id, |file|, held, held, cap), attempts[0]);
      [r.received[Min(|held|, |r.received|)..]] + Accepted(file, id, cap, r.received, attempts[1..])
  }

  /**
   * However attempts are interrupted, replayed or mixed up, the bytes they accept are consecutive
   * pieces of the file: put together they continue the prefix held at the start, no byte twice.
   */
  lemma {:induction false} ResumeChain(file: File, id: u64, cap: nat, held: seq<byte>, attempts: seq<seq<seq<byte>>>)
    requires held <= file && |file| <= cap
    requires forall a, i :: 0 <= a < |attempts| && 0 <= i < |attempts[a]| ==> Emittable(file, id, attempts[a][i])
    ensures Resumed(file, id, cap, held, attempts) <= file
    ensures held + Flatten(Accepted(file, id, cap, held, attempts)) == Resumed(file, id, cap, held, attempts)
    decreases |attempts|
  {
    if attempts != [] {
      hide Emittable, IngestAll;
      var r := Receiver(id, |file|, held, held, cap);
      assert forall i :: 0 <= i < |attempts[0]| ==> Emittable(file, id, attempts[0][i]);
      ReplaySafety(r, file, id, attempts[0]);
      var received := IngestAll(r, attempts[0]).received;
      var later := attempts[1..];
      assert forall a :: 0 <= a < |later| ==> later[a] == attempts[a + 1];
      ResumeChain(file, id, cap, received, later);
      var rest := Accepted(file, id, cap, received, later);
      ConcatStep(held, received, rest);
    }
  }

  lemma ConcatStep(held: seq<byte>, received: seq<byte>, rest: seq<seq<byte>>)
    requires held <= received
    ensures held + Flatten([received[|held|..]] + rest) == received + Flatten(rest)
  {
    var piece := received[|held|..];
    assert ([piece] + rest)[1..] == rest;
    assert held + (piece + Flatten(rest)) == (held + piece) + Flatten(rest);
    assert held + piece == received;
  }

  /** One uninterrupted attempt after any chain completes the file, and finishing returns it. */
  lemma ChainThenFinish<Digest>(sha: seq<byte> -> Digest, file: File, id: u64, cap: nat,
                                attempts: seq<seq<seq<byte>>>, chunkSize: nat)
    requires |file| <= cap && ValidChunkSize(chunkSize)
    requires forall a, i :: 0 <= a < |attempts| && 0 <= i < |attempts[a]| ==> Emittable(file, id, attempts[a][i])
    ensures var held := Resumed(file, id, cap, [], attempts);
            && held <= file
            && var r := IngestAll(Receiver(id, |file|, held, held, cap), Frames(file, id, chunkSize, |held|));
               Finished(r, sha, sha(file)) == Ok(file)
  {
    hide Emittable;
    ResumeChain(file, id, cap, [], attempts);
    var held := Resumed(file, id, cap, [], attempts);
    var frames := Frames(file, id, chunkSize, |held|);
    AttemptProgress(Receiver(id, |file|, held, held, cap), file, id, chunkSize, |frames|);
    assert frames[..|frames|] == frames;
  }

  lemma {:induction false} ResumedSplit(
      file: File, id: u64, cap: nat, held: seq<byte>, attempts: seq<seq<seq<byte>>>, n: nat)
    requires n < |attempts|
    ensures var before := Resumed(file, id, cap, held, attempts[..n]);
            Resumed(file, id, cap, held, attempts[..n + 1])
            == IngestAll(Receiver(id, |file|, before, before, cap), attempts[n]).received
    decreases n
  {
    hide IngestAll;
    var one := attempts[..n + 1];
    if n > 0 {
      var held' := IngestAll(Receiver(id, |file|, held, held, cap), attempts[0]).received;
      ResumedSplit(file, id, cap, held', attempts[1..], n - 1);
      assert attempts[..n][1..] == attempts[1..][..n - 1] && one[1..] == attempts[1..][..n];
    } else {
      assert attempts[..n] == [] && one[1..] == [];
    }
  }

  /**
   * Sender and receiver at work: any number of attempts, each offered what the last one left and fed any frames
   * the sender ever emitted, then one attempt that is not disturbed. Finishing returns the file.
   */
  method TransferWithResume<Digest(==)>(
      capabilities: bv32, name: seq<byte>, file: File, id: u64, chunkSize: nat, cap: u64,
      attempts: seq<seq<seq<byte>>>, sha: seq<byte> -> Digest)
    returns (result: Result<seq<byte>>)
    requires MayTransfer(capabilities) && FileName.Refused(name).None?
    requires |file| <= cap && ValidChunkSize(chunkSize)
    requires forall a, i :: 0 <= a < |attempts| && 0 <= i < |attempts[a]| ==> Emittable(file, id, attempts[a][i])
    ensures result == Ok(file)
  {
    hide Emittable, IngestAll, Frames, Ingest, Resumed, FileName.Refused, MayTransfer;
    ChainThenFinish(sha, file, id, cap, attempts, chunkSize);
    var held := [];
    NoAttempts(file, id, cap, attempts);
    for n := 0 to |attempts|
      invariant held == Resumed(file, id, cap, [], attempts[..n]) && held <= file
    {
      ResumedSplit(file, id, cap, [], attempts, n);
      PrefixResumes(file, id, cap, attempts, n + 1);
      var offer := AcceptOffer(capabilities, name, id, |file|, held, cap);
      var receiver := new FileReceiver(offer.value.0);
      Feed(receiver, attempts[n]);
      held := receiver.received;
    }
    assert attempts[..|attempts|] == attempts;
    var offer := AcceptOffer(capabilities, name, id, |file|, held, cap);
    var receiver := new FileReceiver(offer.value.0);
    var sender := NewSender(id, name, file, chunkSize);
    var accepted := sender.value.OnAccept(id, offer.value.1);
    var frames := SendAll(sender.value);
    Feed(receiver, frames);
    result := receiver.Finish(sha, sha(file));
  }

  lemma NoAttempts(file: File, id: u64, cap: nat, attempts: seq<seq<seq<byte>>>)
    ensures Resumed(file, id, cap, [], attempts[..0]) == []
  {
  }

  lemma PrefixResumes(file: File, id: u64, cap: nat, attempts: seq<seq<seq<byte>>>, n: nat)
    requires |file| <= cap && n <= |attempts|
    requires forall a, i :: 0 <= a < |attempts| && 0 <= i < |attempts[a]| ==> Emittable(file, id, attempts[a][i])
    ensures Resumed(file, id, cap, [], attempts[..n]) <= file
  {
    hide Emittable;
    ResumeChain(file, id, cap, [], attempts[..n]);
  }
}
