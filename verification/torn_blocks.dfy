/**
 * A crash while a block is appended to a segment file (src/storage/segment_writer.c:132-167). The part of the block
 * that was written stays in the file.
 */
module TornBlocks {
  import opened Wire
  import opened Config
  import opened Codec
  import opened Segments
  import opened WalFormat
  import opened State
  import opened Quota
  import opened Engine
  import opened Invariants
  import opened Query
  import opened SeriesIndex

  // ---------------------------------------------------------------- one file

  /** Whole blocks and behind them the first `cut` bytes of another one. */
  function TornSegment(bs: seq<Block>, b: Block, cut: nat): seq<byte>
    requires cut <= BlockSize(b)
  {
    SegmentBytes(bs) + BlockBytes(b)[..cut]
  }

  lemma HeaderInPrefix(file: seq<byte>, longer: seq<byte>, offset: nat)
    requires file <= longer && offset + HEADER_SIZE <= |file|
    ensures ReadHeaderAt(longer, offset) == ReadHeaderAt(file, offset)
  {
    hide ParseHeader;
    assert longer[offset..offset + HEADER_SIZE] == file[offset..offset + HEADER_SIZE];
  }

  /** A scan of a file that starts with whole blocks finds them and goes on behind them. */
  lemma {:induction false} ScanBehind(id: nat, bs: seq<Block>, file: seq<byte>, k: nat)
    requires k <= |bs| && SegmentBytes(bs) <= file
    ensures ScanFrom(file, id, SegmentSize(bs[..k]))
            == Prepend(IndexOf(id, bs)[k..], ScanFrom(file, id, SegmentSize(bs)))
    decreases |bs| - k
  {
    hide BlockSize, SegmentBytes, SegmentSize, IndexOf, ReadHeaderAt, ScanFrom, HeaderOf, PayloadSize, EntryFor,
         EntryOfHeader;
    var rest := ScanFrom(file, id, SegmentSize(bs));
    if k == |bs| {
      assert bs[..k] == bs && IndexOf(id, bs)[k..] == [];
      NothingPrepended(rest);
    } else {
      ScanStep(file, id, SegmentSize(bs[..k]));
      BlockHeaderReads(bs, k);
      BlockAt(bs, k);
      IndexAt(id, bs, k);
      BlockStep(bs[k], id, SegmentSize(bs[..k]));
      HeaderInPrefix(SegmentBytes(bs), file, SegmentSize(bs[..k]));
      ScanBehind(id, bs, file, k + 1);
      PrependTwice([IndexOf(id, bs)[k]], IndexOf(id, bs)[k + 1..], rest);
      FirstOfTail(IndexOf(id, bs), k);
    }
  }

  lemma NothingPrepended<T>(rest: Option<seq<T>>)
    ensures Prepend([], rest) == rest
  {
    if rest.Some? {
      assert [] + rest.value == rest.value;
    }
  }

  lemma ScanBehindAll(id: nat, bs: seq<Block>, file: seq<byte>)
    requires SegmentBytes(bs) <= file
    ensures ScanFrom(file, id, 0) == Prepend(IndexOf(id, bs), ScanFrom(file, id, SegmentSize(bs)))
  {
    hide SegmentBytes, ScanFrom, IndexOf;
    assert bs[..0] == [] && IndexOf(id, bs)[0..] == IndexOf(id, bs);
    ScanBehind(id, bs, file, 0);
  }

  lemma IndexOfOneMore(id: nat, bs: seq<Block>, b: Block)
    ensures IndexOf(id, bs + [b]) == IndexOf(id, bs) + [EntryFor(id, SegmentSize(bs), b)]
    ensures SegmentSize(bs + [b]) == SegmentSize(bs) + BlockSize(b)
    ensures SegmentBytes(bs + [b]) == SegmentBytes(bs) + BlockBytes(b)
  {
    hide EntryFor, BlockSize, BlockBytes;
    assert (bs + [b])[..|bs|] == bs && (bs + [b])[|bs|] == b;
  }

  /** The header of the torn block is read like that of a whole one as soon as all of it is there. */
  lemma TornHeader(bs: seq<Block>, b: Block, cut: nat, more: seq<byte>)
    requires 0 < cut < BlockSize(b) && (cut < HEADER_SIZE ==> more == [])
    ensures ReadHeaderAt(TornSegment(bs, b, cut) + more, SegmentSize(bs))
            == if cut < HEADER_SIZE then Corrupt else Read(HeaderOf(b))
  {
    hide SegmentBytes, SegmentSize, BlockBytes, BlockSize, HeaderOf, ReadHeaderAt;
    var file, whole := TornSegment(bs, b, cut) + more, SegmentBytes(bs + [b]);
    if cut < HEADER_SIZE {
      ShortHeader(file, SegmentSize(bs));
    } else {
      IndexOfOneMore(0, bs, b);
      assert (bs + [b])[..|bs|] == bs && (bs + [b])[|bs|] == b;
      BlockHeaderReads(bs + [b], |bs|);
      var torn := TornSegment(bs, b, cut);
      assert torn <= whole && torn <= file;
      HeaderInPrefix(torn, whole, SegmentSize(bs));
      HeaderInPrefix(torn, file, SegmentSize(bs));
    }
  }

  lemma ShortHeader(file: seq<byte>, offset: nat)
    requires offset < |file| < offset + HEADER_SIZE
    ensures ReadHeaderAt(file, offset) == Corrupt
  {}

  lemma TornPayload(b: Block, file: seq<byte>, offset: nat)
    requires ReadHeaderAt(file, offset) == Read(HeaderOf(b)) && |file| < offset + BlockSize(b)
    ensures DecodeBlockAt(file, offset) == None
  {
    hide BlockSize, ReadHeaderAt, HeaderOf, DecodePayload, TimestampBytes, ValueBytes;
    BlockStep(b, 0, offset);
  }

  /**
   * A torn block. With less than its header in the file, a scan reports the file as corrupt. With the whole header and
   * a cut payload, the scan seeks past the end of the file and lists the block as if it were there, but it cannot be
   * read.
   */
  lemma TornBlock(id: nat, bs: seq<Block>, b: Block, cut: nat)
    requires 0 < cut < BlockSize(b)
    ensures var file := TornSegment(bs, b, cut);
            && ScanFrom(file, id, 0) == (if cut < HEADER_SIZE then None else Some(IndexOf(id, bs + [b])))
            && DecodeBlockAt(file, SegmentSize(bs)) == None
  {
    hide SegmentBytes, SegmentSize, BlockBytes, BlockSize, HeaderOf, ReadHeaderAt, ScanFrom, IndexOf, EntryFor,
         EntryOfHeader, DecodePayload;
    var file, at := TornSegment(bs, b, cut), SegmentSize(bs);
    assert file + [] == file;
    TornHeader(bs, b, cut, []);
    ScanBehindAll(id, bs, file);
    ScanStep(file, id, at);
    BlockStep(b, id, at);
    IndexOfOneMore(id, bs, b);
    if cut < HEADER_SIZE {
      CorruptIsUnread(file, at);
    } else {
      TornPayload(b, file, at);
      EndOfScan(file, id, at + BlockSize(b));
      assert [EntryFor(id, at, b)] + [] == [EntryFor(id, at, b)];
    }
  }

  lemma CorruptIsUnread(file: seq<byte>, offset: nat)
    requires ReadHeaderAt(file, offset) == Corrupt
    ensures DecodeBlockAt(file, offset) == None
  {
    hide ReadHeaderAt;
  }

  lemma EndOfScan(file: seq<byte>, id: nat, offset: nat)
    requires offset >= |file|
    ensures ScanFrom(file, id, offset) == Some([])
  {}

  /**
   * Blocks appended behind a torn payload. The next scan still skips what the torn header announces, so it does not see
   * a block that ends inside that range.
   */
  lemma AppendedBehindTornBlock(id: nat, bs: seq<Block>, b: Block, cut: nat, next: Block)
    requires HEADER_SIZE <= cut < BlockSize(b)
    ensures var file := TornSegment(bs, b, cut) + BlockBytes(next);
            && (exists rest :: ScanFrom(file, id, 0) == Prepend(IndexOf(id, bs + [b]), rest))
            && (cut + BlockSize(next) <= BlockSize(b) ==> ScanFrom(file, id, 0) == Some(IndexOf(id, bs + [b])))
  {
    hide SegmentBytes, SegmentSize, BlockBytes, BlockSize, HeaderOf, ReadHeaderAt, ScanFrom, IndexOf, EntryFor,
         EntryOfHeader;
    var file, at := TornSegment(bs, b, cut) + BlockBytes(next), SegmentSize(bs);
    TornHeader(bs, b, cut, BlockBytes(next));
    assert SegmentBytes(bs) <= TornSegment(bs, b, cut) <= file;
    ScanBehindAll(id, bs, file);
    ScanStep(file, id, at);
    BlockStep(b, id, at);
    IndexOfOneMore(id, bs, b);
    var rest := ScanFrom(file, id, at + BlockSize(b));
    PrependTwice(IndexOf(id, bs), [EntryFor(id, at, b)], rest);
    assert ScanFrom(file, id, 0) == Prepend(IndexOf(id, bs + [b]), rest);
    if cut + BlockSize(next) <= BlockSize(b) {
      EndOfScan(file, id, at + BlockSize(b));
      assert IndexOf(id, bs + [b]) + [] == IndexOf(id, bs + [b]);
    }
  }

  // ---------------------------------------------------------------- a series directory

  /** The files of a directory with the first `cut` bytes of block `b` behind the blocks of file `id`. */
  ghost predicate HoldTorn(files: Files, dir: Directory, id: nat, b: Block, cut: nat)
    requires cut <= BlockSize(b)
  {
    && files.Keys == dir.Keys + {id} && files[id] == TornSegment(Blocks(dir, id), b, cut)
    && forall i :: i in dir && i != id ==> files[i] == SegmentBytes(dir[i])
  }

  lemma {:induction false} ScanTorn(files: Files, dir: Directory, ids: seq<nat>, id: nat, b: Block, cut: nat)
    requires 0 < cut < BlockSize(b) && HoldTorn(files, dir, id, b, cut) && forall i :: i in ids ==> i in files
    ensures ScanAll(files, ids) ==
            if id in ids && cut < HEADER_SIZE then None
            else Some(IndexOfIds(dir[id := Blocks(dir, id) + [b]], ids))
  {
    hide IndexOf, ScanFrom, SegmentBytes, BlockSize, TornSegment;
    if ids != [] {
      var init, last := ids[..|ids| - 1], ids[|ids| - 1];
      assert last in ids && ids == init + [last];
      ScanTorn(files, dir, init, id, b, cut);
      if last == id {
        TornBlock(id, Blocks(dir, id), b, cut);
      } else {
        ScanIsIndex(last, dir[last]);
      }
    }
  }

  /**
   * A crash while a flush appends its block, after `cut` bytes of it. The next scan of the series' directory fails, and
   * with it the open of the whole database, if and only if less than the header was written; wal.log does not matter.
   * Otherwise the series is indexed exactly as if the block were there, and no reader can decode that block.
   */
  lemma CrashInBlockWrite(s: Series, dir: Directory, files: Files, cut: nat)
    requires SeriesOk(s, dir) && ValidBlock(s.buffer) && 0 < cut < BlockSize(s.buffer)
    requires RotatedId(dir, s.activeId, BlockSize(s.buffer)) <= MAX_SEGMENT_ID
    requires HoldTorn(files, dir, RotatedId(dir, s.activeId, BlockSize(s.buffer)), s.buffer, cut)
    ensures ScanAll(files, ListedIds(files)).None? <==> cut < HEADER_SIZE
    ensures cut >= HEADER_SIZE ==>
              var flushed := FlushedSeries(s, dir);
              && Scanned(s, files) == flushed.(buffer := s.buffer)
              && flushed.index != [] && var e := flushed.index[|flushed.index| - 1];
                 e.segmentId in files && DecodeBlockAt(files[e.segmentId], e.offset) == None
  {
    hide BlockSize, SegmentBytes, SegmentSize, IndexOfIds, ScanAll, DecodeBlockAt, TornSegment, PayloadSize, SeriesOk,
         RotatedId, SortedIds, FlushedSeries, FlushedDirectory, ListedIds;
    var id, b := RotatedId(dir, s.activeId, BlockSize(s.buffer)), s.buffer;
    FlushedParts(s, dir);
    TornListing(s, dir, files, id);
    ScanTorn(files, dir, ListedIds(files), id, b, cut);
    TornBlock(id, Blocks(dir, id), b, cut);
  }

  /** The record and the directory after a flush, and what the new index says. */
  lemma FlushedParts(s: Series, dir: Directory)
    requires SeriesOk(s, dir) && ValidBlock(s.buffer)
    requires RotatedId(dir, s.activeId, BlockSize(s.buffer)) <= MAX_SEGMENT_ID
    ensures var id, f := RotatedId(dir, s.activeId, BlockSize(s.buffer)), FlushedSeries(s, dir);
            && FlushedDirectory(s, dir) == dir[id := Blocks(dir, id) + [s.buffer]]
            && f == s.(activeId := f.activeId, segmentIds := f.segmentIds, index := f.index, buffer := [])
            && f.index == s.index + [EntryFor(id, SegmentSize(Blocks(dir, id)), s.buffer)]
            && f.index == IndexOfIds(FlushedDirectory(s, dir), f.segmentIds)
            && f.segmentIds == SortedIds(FlushedDirectory(s, dir).Keys) && f.activeId == ActiveId(f.segmentIds)
            && FilesOk(FlushedDirectory(s, dir))
  {
    hide BlockSize, SegmentSize, IndexOfIds, EntryFor, RotatedId, SortedIds, FilesOk;
    FlushedOk(s, dir);
  }

  lemma TornListing(s: Series, dir: Directory, files: Files, id: nat)
    requires SeriesOk(s, dir) && ValidBlock(s.buffer) && files.Keys == dir.Keys + {id}
    requires id == RotatedId(dir, s.activeId, BlockSize(s.buffer)) <= MAX_SEGMENT_ID
    ensures ListedIds(files) == FlushedSeries(s, dir).segmentIds
    ensures id in ListedIds(files) && forall i :: i in ListedIds(files) ==> i in files
  {
    hide BlockSize, SegmentSize, IndexOfIds, EntryFor, SeriesOk, RotatedId, FilesOk, FlushedSeries, FlushedDirectory;
    FlushedParts(s, dir);
    var dir' := FlushedDirectory(s, dir);
    assert dir'.Keys == files.Keys;
    FilesOkIds(dir');
    assert (set i | i in files && 1 <= i <= MAX_SEGMENT_ID) == dir'.Keys;
  }

  lemma FilesOkIds(dir: Directory)
    requires FilesOk(dir)
    ensures forall i :: i in dir ==> 1 <= i <= MAX_SEGMENT_ID
  {
    hide SegmentSize;
  }
}
