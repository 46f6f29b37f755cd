/** The write-ahead log (storage/wal.rs): append, read, checkpoint and recovery. */
module Wal {
  import opened Bytes
  import opened Checksum
  import opened MemoryFile
  import opened WalFormat

  // ---- What a log says about pages ----------------------------------------------------------

  /** The last frame of each page, by index; page number 0 is no page. */
  function Index(frames: seq<Frame>): (m: map<u32, nat>)
    ensures forall p | p in m :: m[p] < |frames| && frames[m[p]].pgno == p && p > 0
  {
    if frames == [] then map[]
    else
      var n := |frames| - 1;
      var m := Index(frames[..n]);
      if frames[n].pgno > 0 then m[frames[n].pgno := n] else m
  }

  lemma EmptyIndex()
    ensures Index([]) == map[]
  {
  }

  lemma IndexStep(frames: seq<Frame>, f: Frame)
    ensures Index(frames + [f]) == if f.pgno > 0 then Index(frames)[f.pgno := |frames|] else Index(frames)
  {
    assert (frames + [f])[..|frames|] == frames;
  }

  /** `Index` is what it says: no later frame is of the same page, and no page with a frame is missing. */
  lemma {:induction false} IndexIsLast(frames: seq<Frame>, p: u32)
    requires p > 0
    ensures p in Index(frames) <==> exists i | 0 <= i < |frames| :: frames[i].pgno == p
    ensures p in Index(frames) ==> forall i | Index(frames)[p] < i < |frames| :: frames[i].pgno != p
  {
    if frames != [] {
      var n := |frames| - 1;
      IndexIsLast(frames[..n], p);
      assert forall i | 0 <= i < n :: frames[..n][i] == frames[i];
      if frames[n].pgno == p {
        assert p in Index(frames);
      } else {
        assert p in Index(frames) <==> p in Index(frames[..n]);
      }
    }
  }

  function Lookup(frames: seq<Frame>, p: u32): Option<seq<byte>> {
    if p in Index(frames) then Some(frames[Index(frames)[p]].data) else None
  }

  lemma Logged(frames: seq<Frame>)
    ensures forall p: u32 :: Lookup(frames, p).Some? <==> p in Index(frames)
  {
  }

  /** What a page reads as when database and log are opened after a crash. */
  function ReadBack(wal: seq<byte>, db: seq<byte>, size: nat, p: u32): Option<seq<byte>> {
    match Reopened(wal)
    case Ok(r) => if Lookup(r.1, p).Some? then Lookup(r.1, p) else FilePage(db, size, p)
    case Err(_) => None
  }

  /** A disk on which every page readable on `before` still reads the same. */
  ghost predicate Safe(wal: seq<byte>, db: seq<byte>, wal': seq<byte>, db': seq<byte>, size: nat) {
    forall p: u32 | p > 0 && ReadBack(wal, db, size, p).Some? :: ReadBack(wal', db', size, p) == ReadBack(wal, db, size, p)
  }

  // ---- The log ----------------------------------------------------------------------------------

  class Wal {
    const file: File
    const pageSize: nat
    const isLe: bool
    var header: Header
    var frameCount: nat
    var pageIndex: map<u32, nat>
    /** The frames in the log, the first salt of this file, and the checkpoints since. */
    ghost var frames: seq<Frame>
    ghost var base: u32
    ghost var bumps: nat

    ghost predicate Valid()
      reads this, file
    {
      && pageSize == header.pageSize && isLe == (header.magic == WAL_MAGIC_LE)
      && SoundLog(file.data, header, frames, base, bumps)
      && frameCount == |frames| && pageIndex == Index(frames)
    }

    /** `Wal::create` on an empty file. */
    constructor Create(file: File, pageSize: u32)
      requires file.data == []
      modifies file
      ensures Valid() && frames == [] && this.file == file && this.pageSize == pageSize && bumps == 0
      ensures Reopened(file.data) == Ok((header, []))
    {
      hide HeaderBytes, HeaderOk, NewHeader, SoundLog, Reopened;
      var hd := NewHeader(pageSize, 0x12345678, 0x9abcdef0);
      this.file, this.pageSize, isLe := file, pageSize, false;
      header, frameCount, pageIndex, frames, base, bumps := hd, 0, map[], [], hd.salt1, 0;
      new;
      WriteExactAt(file, 0, HeaderBytes(hd));
      FreshLog(file.data, pageSize);
      SoundReopens(file.data, hd, [], base, 0);
    }

    /** An open log before its frames have been read. */
    constructor Opening(file: File, hd: Header)
      ensures this.file == file && header == hd && pageSize == hd.pageSize && isLe == (hd.magic == WAL_MAGIC_LE)
      ensures frameCount == 0 && pageIndex == map[] && fresh(this)
    {
      this.file, pageSize, isLe, header := file, hd.pageSize, hd.magic == WAL_MAGIC_LE, hd;
      frameCount, pageIndex := 0, map[];
    }

    /** `rebuild_index`: accepts frames until one is incomplete or does not check. */
    method RebuildIndex()
      requires pageSize == header.pageSize && isLe == (header.magic == WAL_MAGIC_LE)
      modifies this`frameCount, this`pageIndex, this`frames
      ensures frames == RecoverFrom(file.data, header, pageSize, 0)
      ensures frameCount == |frames| && pageIndex == Index(frames)
    {
      hide FrameSums, FrameOffset, Index, SlotCount;
      EmptyIndex();
      frameCount, pageIndex, frames := 0, map[], [];
      OffsetStep(pageSize, 0);
      if |file.data| <= WAL_HEADER_SIZE {
        assert !Complete(file.data, pageSize, 0);
        return;
      }
      var nFrames := SlotCount(|file.data|, pageSize);
      for i := 0 to nFrames
        invariant frameCount == |frames| == i && pageIndex == Index(frames)
        invariant RecoverFrom(file.data, header, pageSize, 0) == frames + RecoverFrom(file.data, header, pageSize, i)
      {
        hide RecoverFrom, ReadSlot;
        SlotInFile(|file.data|, pageSize, i);
        RecoverStep(file.data, header, pageSize, i);
        var frame := LoadFrame(i, true);
        if frame == None {
          return;
        }
        if frame.value.pgno > 0 {
          pageIndex := pageIndex[frame.value.pgno := i];
        }
        frameCount := i + 1;
        IndexStep(frames, frame.value);
        TakeFrame(frames, frame.value, RecoverFrom(file.data, header, pageSize, i + 1));
        frames := frames + [frame.value];
      }
      NoSlotLeft(|file.data|, pageSize);
    }

    /** Reads and checks the frame in a slot that is there as a whole; only recovery looks at the salts. */
    method LoadFrame(i: nat, recovering: bool) returns (r: Option<Frame>)
      requires pageSize == header.pageSize && isLe == (header.magic == WAL_MAGIC_LE) && Complete(file.data, pageSize, i)
      ensures recovering || ReadSlot(file.data, header, pageSize, i).Some? ==> r == ReadSlot(file.data, header, pageSize, i)
    {
      hide FrameOffset, FrameSums, U32;
      OffsetStep(pageSize, i);
      var offset := FrameOffset(pageSize, i);
      var hdrBuf := ReadExactAt(file, offset, FRAME_HEADER_SIZE);
      var hdr := hdrBuf.Extract();
      FrameWords(file.data, offset);
      var salts := (U32(hdr, 8), U32(hdr, 12));
      if recovering && salts != Salts(header) {
        return None;
      }
      var pageBuf := ReadExactAt(file, offset + FRAME_HEADER_SIZE, pageSize);
      var page := pageBuf.Extract();
      assert page == file.data[offset + FRAME_HEADER_SIZE..offset + FRAME_HEADER_SIZE + pageSize];
      if FrameSums(salts, U32(hdr, 0), U32(hdr, 4), page, isLe) != (U32(hdr, 16), U32(hdr, 20)) {
        return None;
      }
      return Some(Frame(U32(hdr, 0), U32(hdr, 4), page));
    }

    /** `append_frame`. */
    method AppendFrame(pgno: u32, pageData: seq<byte>, dbSize: u32) returns (r: Result<()>)
      requires Valid() && pgno > 0
      modifies this`frameCount, this`pageIndex, this`frames, file
      ensures Valid()
      ensures |pageData| != pageSize ==> r == Err(Corrupt) && frames == old(frames) && file.data == old(file.data)
      ensures |pageData| == pageSize ==> r == Ok(()) && frames == old(frames) + [Frame(pgno, dbSize, pageData)]
    {
      hide FrameOffset, FrameBytes, WordBytes, FrameFields, SoundLog, At, Index;
      if |pageData| != pageSize {
        return Err(Corrupt);
      }
      var f := Frame(pgno, dbSize, pageData);
      ghost var d := file.data;
      var bytes := WordBytes(FrameFields(header, f));
      FrameParts(header, f);
      WriteFrame(bytes, pageData);
      AppendSound(d, header, frames, base, bumps, f, file.data);
      pageIndex := pageIndex[pgno := frameCount];
      frameCount := frameCount + 1;
      IndexStep(frames, f);
      frames := frames + [f];
      return Ok(());
    }

    /** The two writes of `append_frame`. */
    method WriteFrame(head: seq<byte>, pageData: seq<byte>)
      requires Valid() && |head| == FRAME_HEADER_SIZE && |pageData| == pageSize
      modifies file
      ensures |file.data| >= |old(file.data)| && At(file.data, FrameOffset(pageSize, |frames|), head + pageData)
      ensures forall i | 0 <= i < |old(file.data)| && !(FrameOffset(pageSize, |frames|) <= i < FrameOffset(pageSize, |frames| + 1)) ::
                file.data[i] == old(file.data)[i]
      ensures |file.data| == |old(file.data)| || |file.data| == FrameOffset(pageSize, |frames| + 1)
    {
      hide FrameOffset, SoundLog, Index, At, Written;
      OffsetStep(pageSize, frameCount);
      var offset := FrameOffset(pageSize, frameCount);
      PutTwice(file.data, offset, head, pageData);
      WriteExactAt(file, offset, head);
      WriteExactAt(file, offset + FRAME_HEADER_SIZE, pageData);
    }

    /** `read_page`: the last frame of the page, if there is one. */
    method ReadPage(pgno: u32) returns (r: Result<Option<seq<byte>>>)
      requires Valid()
      ensures r == Ok(Lookup(frames, pgno))
    {
      hide FrameSums, HeaderOk, HeaderBytes;
      if pgno !in pageIndex {
        return Ok(None);
      }
      var idx := pageIndex[pgno];
      SlotRoundTrip(file.data, header, pageSize, idx, frames[idx]);
      var frame := LoadFrame(idx, false);
      if frame == None {
        return Err(Corrupt);
      }
      return Ok(Some(frame.value.data));
    }

    /** `checkpoint`: copies the last frame of every page to the database file in any order,
        rewrites the header with new salts, and cuts the log. `trace` lists log and database file
        after every single write: at none of these points would a crash lose a page. */
    method Checkpoint(db: File) returns (ghost trace: seq<(seq<byte>, seq<byte>)>)
      requires Valid() && bumps + 1 < TWO32 && pageSize > 0 && db != file
      modifies this`header, this`frameCount, this`pageIndex, this`frames, this`base, this`bumps, file, db
      ensures Valid() && frames == [] && header == Bumped(old(header)) && bumps == 0
      ensures file.data == HeaderBytes(header)
      ensures forall p: u32 | p > 0 && old(Lookup(frames, p)).Some? :: FilePage(db.data, pageSize, p) == old(Lookup(frames, p))
      ensures forall p: u32 | p > 0 && old(Lookup(frames, p)).None? && old(FilePage(db.data, pageSize, p)).Some? ::
                FilePage(db.data, pageSize, p) == old(FilePage(db.data, pageSize, p))
      ensures |trace| == old(|pageIndex|) + 3 && trace[0] == (old(file.data), old(db.data)) && trace[|trace| - 1] == (file.data, db.data)
      ensures forall k | 0 <= k < |trace| :: Safe(old(file.data), old(db.data), trace[k].0, trace[k].1, pageSize)
    {
      hide Safe, SoundLog, HeaderBytes, Bumped, Lookup, Index, FilePage, Reopened;
      ghost var wal, pages, log := file.data, db.data, frames;
      SoundReopens(wal, header, log, base, bumps);
      Logged(frames);
      trace := CopyPages(db, pageIndex.Keys);
      ghost var bumped := ResetLog();
      CopiedSafe(wal, pages, bumped, db.data, pageSize, log);
      CopiedSafe(wal, pages, file.data, db.data, pageSize, log);
      trace := trace + [(bumped, db.data), (file.data, db.data)];
    }

    /** The first write of `ResetLog`: the header with new salts turns every frame stale. */
    method RenewHeader()
      requires Valid() && bumps + 1 < TWO32
      modifies this`header, this`frameCount, this`pageIndex, this`frames, this`bumps, file
      ensures Valid() && frames == [] && header == Bumped(old(header)) && bumps == old(bumps) + 1 && base == old(base)
      ensures file.data == Splice(old(file.data), 0, HeaderBytes(header))
      ensures Reopened(file.data) == Ok((header, []))
    {
      hide SoundLog, HeaderBytes, Bumped, Index, Reopened;
      BumpSound(file.data, header, frames, base, bumps);
      header := Bumped(header);
      WriteExactAt(file, 0, HeaderBytes(header));
      SoundReopens(file.data, header, [], base, bumps + 1);
      EmptyIndex();
      frameCount, pageIndex, frames, bumps := 0, map[], [], bumps + 1;
    }

    /** The end of a checkpoint: the header with new salts, then the cut. `bumped` is the file in between. */
    method ResetLog() returns (ghost bumped: seq<byte>)
      requires Valid() && bumps + 1 < TWO32
      modifies this`header, this`frameCount, this`pageIndex, this`frames, this`base, this`bumps, file
      ensures Valid() && frames == [] && header == Bumped(old(header)) && bumps == 0
      ensures file.data == HeaderBytes(header)
      ensures bumped == Splice(old(file.data), 0, HeaderBytes(header))
      ensures Reopened(bumped) == Ok((header, [])) && Reopened(file.data) == Ok((header, []))
    {
      hide HeaderBytes, Bumped, Index, Reopened;
      RenewHeader();
      bumped := file.data;
      file.Truncate(WAL_HEADER_SIZE);
      assert file.data == HeaderBytes(header);
      base, bumps := header.salt1, 0;
      BareLog(file.data, header);
      SoundReopens(file.data, header, [], base, bumps);
    }

    /** The page copies of a checkpoint, one write per page of `todo`. */
    method CopyPages(db: File, todo: set<u32>) returns (ghost trace: seq<(seq<byte>, seq<byte>)>)
      requires Valid() && pageSize > 0 && db != file && todo <= pageIndex.Keys
      modifies db
      ensures forall p: u32 | p in todo :: FilePage(db.data, pageSize, p) == Lookup(frames, p)
      ensures forall p: u32 | p > 0 && Lookup(frames, p).None? && old(FilePage(db.data, pageSize, p)).Some? ::
                FilePage(db.data, pageSize, p) == old(FilePage(db.data, pageSize, p))
      ensures |trace| == |todo| + 1 && trace[0] == (file.data, old(db.data)) && trace[|trace| - 1] == (file.data, db.data)
      ensures forall k | 0 <= k < |trace| :: Safe(file.data, old(db.data), trace[k].0, trace[k].1, pageSize)
    {
      hide FilePage, PageOffset, SoundLog, Safe;
      ghost var pages := db.data;
      var rest := todo;
      SoundReopens(file.data, header, frames, base, bumps);
      CopySafe(file.data, pages, db.data, pageSize, frames);
      trace := [(file.data, db.data)];
      while rest != {}
        invariant rest <= todo && |trace| + |rest| == |todo| + 1
        invariant trace != [] && trace[0] == (file.data, pages) && trace[|trace| - 1] == (file.data, db.data)
        invariant forall p: u32 | p in todo && p !in rest :: FilePage(db.data, pageSize, p) == Some(frames[pageIndex[p]].data)
        invariant forall p: u32 | p > 0 && p !in pageIndex && FilePage(pages, pageSize, p).Some? ::
                    FilePage(db.data, pageSize, p) == FilePage(pages, pageSize, p)
        invariant forall k | 0 <= k < |trace| :: Safe(file.data, pages, trace[k].0, trace[k].1, pageSize)
      {
        var p :| p in rest;
        CopyPage(db, p);
        rest := rest - {p};
        CopySafe(file.data, pages, db.data, pageSize, frames);
        trace := trace + [(file.data, db.data)];
      }
    }

    /** One page copy: the frame's data goes to the page's place in the database file. */
    method CopyPage(db: File, p: u32)
      requires Valid() && pageSize > 0 && db != file && p in pageIndex
      modifies db
      ensures FilePage(db.data, pageSize, p) == Some(frames[pageIndex[p]].data)
      ensures forall q: u32 | q > 0 && q != p && old(FilePage(db.data, pageSize, q)).Some? ::
                FilePage(db.data, pageSize, q) == old(FilePage(db.data, pageSize, q))
    {
      hide SoundLog, FilePage, PageOffset, FrameOffset, Index;
      var idx := pageIndex[p];
      FrameData(file.data, header, frames, base, bumps, idx);
      var pageBuf := ReadExactAt(file, FrameOffset(pageSize, idx) + FRAME_HEADER_SIZE, pageSize);
      WritePageAt(db, pageSize, p, pageBuf.Extract());
    }
  }

  /** Two adjacent writes put one block in place. */
  lemma PutTwice(d: seq<byte>, p: nat, a: seq<byte>, b: seq<byte>)
    requires |a| > 0
    ensures var d1 := Written(d, p, a); var d2 := if b == [] then d1 else Written(d1, p + |a|, b);
            && At(d2, p, a + b) && |d2| >= |d| && (|d2| == |d| || |d2| == p + |a| + |b|)
            && forall i | 0 <= i < |d| && !(p <= i < p + |a| + |b|) :: d2[i] == d[i]
  {
    var d1 := Written(d, p, a);
    var d2 := if b == [] then d1 else Written(d1, p + |a|, b);
    hide Written;
    AtPointwise(d2, p, a + b);
  }

  lemma FrameWords(d: seq<byte>, p: nat)
    requires p + FRAME_HEADER_SIZE <= |d|
    ensures var h := d[p..p + FRAME_HEADER_SIZE];
            && U32(h, 0) == U32(d, p) && U32(h, 4) == U32(d, p + 4) && U32(h, 8) == U32(d, p + 8)
            && U32(h, 12) == U32(d, p + 12) && U32(h, 16) == U32(d, p + 16) && U32(h, 20) == U32(d, p + 20)
  {
    hide U32;
    U32Slice(d, p, FRAME_HEADER_SIZE, 0);
    U32Slice(d, p, FRAME_HEADER_SIZE, 4);
    U32Slice(d, p, FRAME_HEADER_SIZE, 8);
    U32Slice(d, p, FRAME_HEADER_SIZE, 12);
    U32Slice(d, p, FRAME_HEADER_SIZE, 16);
    U32Slice(d, p, FRAME_HEADER_SIZE, 20);
  }

  lemma FrameData(d: seq<byte>, hd: Header, frames: seq<Frame>, base: u32, bumps: nat, k: nat)
    requires SoundLog(d, hd, frames, base, bumps) && k < |frames|
    ensures var p := FrameOffset(hd.pageSize, k) + FRAME_HEADER_SIZE;
            |frames[k].data| == hd.pageSize && p + hd.pageSize <= |d| && d[p..p + hd.pageSize] == frames[k].data
  {
    hide FrameOffset, HeaderBytes, HeaderOk, FrameSums;
    var p := FrameOffset(hd.pageSize, k);
    AtParts(d, p, WordBytes(FrameFields(hd, frames[k])), frames[k].data);
    AtIsSlice(d, p + FRAME_HEADER_SIZE, frames[k].data);
  }

  /** While the log is intact, copies of logged pages change nothing that is read. */
  lemma CopySafe(wal: seq<byte>, db: seq<byte>, db': seq<byte>, size: nat, frames: seq<Frame>)
    requires Reopened(wal).Ok? && Reopened(wal).value.1 == frames
    requires forall p: u32 | p > 0 && Lookup(frames, p).None? && FilePage(db, size, p).Some? :: FilePage(db', size, p) == FilePage(db, size, p)
    ensures Safe(wal, db, wal, db', size)
  {
    hide Reopened, FilePage, Lookup;
  }

  /** Once every logged page has been copied, the log may be given up. */
  lemma CopiedSafe(wal: seq<byte>, db: seq<byte>, wal': seq<byte>, db': seq<byte>, size: nat, frames: seq<Frame>)
    requires Reopened(wal).Ok? && Reopened(wal).value.1 == frames && Reopened(wal').Ok? && Reopened(wal').value.1 == []
    requires forall p: u32 | p > 0 && Lookup(frames, p).Some? :: FilePage(db', size, p) == Lookup(frames, p)
    requires forall p: u32 | p > 0 && Lookup(frames, p).None? && FilePage(db, size, p).Some? :: FilePage(db', size, p) == FilePage(db, size, p)
    ensures Safe(wal, db, wal', db', size)
  {
    hide Reopened, FilePage;
    forall p: u32 ensures Lookup([], p) == None { assert Index([]) == map[]; }
  }

  lemma FreshLog(d: seq<byte>, size: u32)
    requires |d| == WAL_HEADER_SIZE
    requires var hd := NewHeader(size, 0x12345678, 0x9abcdef0); forall i | 0 <= i < WAL_HEADER_SIZE :: d[i] == HeaderBytes(hd)[i]
    ensures var hd := NewHeader(size, 0x12345678, 0x9abcdef0);
            SoundLog(d, hd, [], hd.salt1, 0) && hd.pageSize == size && hd.magic != WAL_MAGIC_LE
  {
    var hd := NewHeader(size, 0x12345678, 0x9abcdef0);
    assert HeaderOk(hd) by { hide HeaderBytes, Digest; }
    hide HeaderBytes, Digest;
    assert d == HeaderBytes(hd);
    BareLog(d, hd);
  }

  /** A log that is nothing but its header. */
  lemma BareLog(d: seq<byte>, hd: Header)
    requires HeaderOk(hd) && d == HeaderBytes(hd)
    ensures SoundLog(d, hd, [], hd.salt1, 0)
  {
    hide HeaderBytes, FrameOffset, HeaderOk;
    AtPointwise(d, 0, HeaderBytes(hd));
    forall i: nat ensures !Complete(d, hd.pageSize, i) { OffsetStep(hd.pageSize, i); }
  }

  lemma RecoverStep(d: seq<byte>, hd: Header, size: nat, i: nat)
    requires Complete(d, size, i)
    ensures RecoverFrom(d, hd, size, i) ==
              match ReadSlot(d, hd, size, i) { case None => [] case Some(f) => [f] + RecoverFrom(d, hd, size, i + 1) }
  {
  }

  lemma TakeFrame(frames: seq<Frame>, f: Frame, rest: seq<Frame>)
    ensures frames + ([f] + rest) == frames + [f] + rest
  {
  }

  // ---- Arithmetic of slots -------------------------------------------------------------------------

  /** The whole slots in a file of `len` bytes, as `rebuild_index` counts them. */
  function SlotCount(len: nat, size: nat): nat
    requires len >= WAL_HEADER_SIZE
  { (len - WAL_HEADER_SIZE) / (FRAME_HEADER_SIZE + size) }

  lemma SlotInFile(len: nat, size: nat, i: nat)
    requires len >= WAL_HEADER_SIZE && i < SlotCount(len, size)
    ensures FrameOffset(size, i + 1) <= len
  {
    var f, n := FRAME_HEADER_SIZE + size, SlotCount(len, size);
    DivBound(len - WAL_HEADER_SIZE, f);
    if i + 1 < n { OffsetGrows(size, i, n); }
    assert n * f <= len - WAL_HEADER_SIZE;
  }

  lemma NoSlotLeft(len: nat, size: nat)
    requires len >= WAL_HEADER_SIZE
    ensures FrameOffset(size, SlotCount(len, size) + 1) > len
  {
    DivBound(len - WAL_HEADER_SIZE, FRAME_HEADER_SIZE + size);
    Distribute(SlotCount(len, size), 1, FRAME_HEADER_SIZE + size);
  }

  lemma DivBound(a: nat, b: nat)
    requires b > 0
    ensures a / b * b <= a < a / b * b + b
  {
    assert a == b * (a / b) + a % b;
  }

  lemma U32Slice(d: seq<byte>, p: nat, n: nat, k: nat)
    requires p + n <= |d| && k + 4 <= n
    ensures U32(d[p..p + n], k) == U32(d, p + k)
  {
  }
}
