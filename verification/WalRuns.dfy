/** Whole runs of the write-ahead log: appends, checkpoints, and crashes followed by reopening. */
module WalRuns {
  import opened Bytes
  import opened MemoryFile
  import opened WalFormat
  import opened Wal

  // ---- Reopening ----------------------------------------------------------------------------

  /** The log object that opening a file with log `log` has to give. */
  ghost predicate Opens(r: Result<Wal>, file: File, pageSize: u32, log: Result<(Header, seq<Frame>)>, base: u32, bumps: nat)
    reads if r.Ok? then {file, r.value} else {file}
  {
    match log
    case Err(e) => r == Err(e)
    case Ok((hd, frames)) =>
      if hd.pageSize != pageSize then r == Err(Corrupt)
      else
        && r.Ok? && r.value.file == file && r.value.pageSize == pageSize
        && r.value.header == hd && r.value.frames == frames && r.value.base == base && r.value.bumps == bumps
        && (SoundLog(file.data, hd, frames, base, bumps) ==> r.value.Valid())
  }

  /** `Wal::open`. The ghost arguments say since when the file is known to hold a sound log. */
  method Open(file: File, pageSize: u32, ghost base: u32, ghost bumps: nat) returns (r: Result<Wal>)
    modifies file
    ensures old(file.data) == [] ==> r.Ok? && r.value.Valid() && r.value.frames == [] && r.value.bumps == 0
    ensures old(file.data) != [] ==> file.data == old(file.data)
    ensures 0 < |old(file.data)| < WAL_HEADER_SIZE ==> r == Err(IoErr)
    ensures |old(file.data)| >= WAL_HEADER_SIZE ==> Opens(r, file, pageSize, Reopened(file.data), base, bumps)
    ensures r.Ok? ==> fresh(r.value) && r.value.file == file && r.value.pageSize == pageSize
  {
    hide Opens, SoundLog, Index;
    if |file.data| == 0 {
      var w := new Wal.Create(file, pageSize);
      return Ok(w);
    }
    var hdrBuf := ReadExactAt(file, 0, WAL_HEADER_SIZE);
    if hdrBuf.Err? {
      return Err(IoErr);
    }
    assert hdrBuf.value == file.data[..WAL_HEADER_SIZE];
    r := OpenWith(file, pageSize, DecodeHeader(hdrBuf.value), base, bumps);
  }

  /** The second half of `Wal::open`, from the decoded header on. */
  method OpenWith(file: File, pageSize: u32, header: Result<Header>, ghost base: u32, ghost bumps: nat) returns (r: Result<Wal>)
    requires |file.data| >= WAL_HEADER_SIZE && header == DecodeHeader(file.data[..WAL_HEADER_SIZE])
    ensures Opens(r, file, pageSize, Reopened(file.data), base, bumps)
    ensures r.Ok? ==> fresh(r.value) && r.value.file == file && r.value.pageSize == pageSize
  {
    hide DecodeHeader, RecoverFrom, SoundLog, Index;
    if header.Err? {
      return Err(header.error);
    }
    if header.value.pageSize != pageSize {
      return Err(Corrupt);
    }
    var w := new Wal.Opening(file, header.value);
    w.RebuildIndex();
    w.base, w.bumps := base, bumps;
    return Ok(w);
  }

  lemma SoundLength(d: seq<byte>, hd: Header, frames: seq<Frame>, base: u32, bumps: nat)
    requires SoundLog(d, hd, frames, base, bumps)
    ensures |d| >= WAL_HEADER_SIZE
  {
    AtInside(d, 0, HeaderBytes(hd));
  }

  lemma NothingCut(d: seq<byte>, hd: Header, frames: seq<Frame>, base: u32, bumps: nat, len: nat)
    requires SoundLog(d, hd, frames, base, bumps) && |d| <= len
    ensures Kept(hd.pageSize, |frames|, len) == |frames|
    ensures frames[..|frames|] == frames
  {
    var n := |frames|;
    if n > 0 {
      hide FrameBytes, HeaderBytes, HeaderOk;
      AtInside(d, FrameOffset(hd.pageSize, n - 1), FrameBytes(hd, frames[n - 1]));
      OffsetStep(hd.pageSize, n - 1);
    }
  }

  method Reopen(w: Wal) returns (w': Wal)
    requires w.Valid()
    modifies w.file
    ensures fresh(w') && w'.Valid() && w'.file == w.file && w'.pageSize == w.pageSize && w'.frames == w.frames && w'.bumps == w.bumps
    ensures w.file.data == old(w.file.data)
  {
    hide SoundLog, Reopened, Index;
    SoundReopens(w.file.data, w.header, w.frames, w.base, w.bumps);
    SoundLength(w.file.data, w.header, w.frames, w.base, w.bumps);
    var r := Open(w.file, w.header.pageSize, w.base, w.bumps);
    w' := r.Extract();
  }

  /** A crash that loses the end of the file, then reopening. */
  method Cut(w: Wal, len: nat) returns (w': Wal)
    requires w.Valid() && len >= WAL_HEADER_SIZE
    modifies w, w.file
    ensures fresh(w') && w'.Valid() && w'.file == w.file && w'.pageSize == w.pageSize && w'.bumps == old(w.bumps)
    ensures w'.frames == old(w.frames)[..Kept(w.pageSize, |old(w.frames)|, len)]
  {
    hide SoundLog, Reopened, Index;
    ghost var k := Kept(w.pageSize, |w.frames|, len);
    if len < |w.file.data| {
      CutSound(w.file.data, w.header, w.frames, w.base, w.bumps, len);
    } else {
      NothingCut(w.file.data, w.header, w.frames, w.base, w.bumps, len);
    }
    ghost var kept := w.frames[..k];
    w.file.Truncate(len);
    SoundReopens(w.file.data, w.header, kept, w.base, w.bumps);
    SoundLength(w.file.data, w.header, kept, w.base, w.bumps);
    var r := Open(w.file, w.header.pageSize, w.base, w.bumps);
    w' := r.Extract();
  }

  // ---- Runs -------------------------------------------------------------------------------------

  /** What can happen to the log: the last four are a power cut or a crash, then reopening. */
  datatype Event =
    | Append(pgno: u32, dbSize: u32, data: seq<byte>)
    | Checkpoint
    | CutTo(len: nat)
    | CrashInCopies(copied: set<u32>)
    | CrashBeforeCut

  predicate Admissible(e: Event) {
    (e.Append? ==> e.pgno > 0) && (e.CutTo? ==> e.len >= WAL_HEADER_SIZE)
  }

  /** What a run is expected to leave: frames in the log, and pages safe in the database file. */
  datatype State = State(log: seq<Frame>, pages: map<u32, seq<byte>>)

  function LastData(log: seq<Frame>): map<u32, seq<byte>> {
    map p | p in Index(log) :: log[Index(log)[p]].data
  }

  function Step(size: nat, s: State, e: Event): State {
    match e
    case Append(pgno, dbSize, data) => if |data| == size then s.(log := s.log + [Frame(pgno, dbSize, data)]) else s
    case Checkpoint => State([], s.pages + LastData(s.log))
    case CutTo(len) => s.(log := s.log[..Kept(size, |s.log|, len)])
    case CrashInCopies(_) => s.(pages := s.pages - LastData(s.log).Keys)
    case CrashBeforeCut => State([], s.pages + LastData(s.log))
  }

  function After(size: nat, s: State, events: seq<Event>): State {
    if events == [] then s else Step(size, After(size, s, events[..|events| - 1]), events[|events| - 1])
  }

  /** Reading a page: the log first, then the database file. */
  function ReadIn(s: State, p: u32): Option<seq<byte>> {
    if Lookup(s.log, p).Some? then Lookup(s.log, p) else if p in s.pages then Some(s.pages[p]) else None
  }

  ghost predicate Agrees(db: seq<byte>, size: nat, pages: map<u32, seq<byte>>) {
    forall p | p in pages :: p > 0 && FilePage(db, size, p) == Some(pages[p])
  }

  /** Log and database file stand for the state `s`. */
  ghost predicate Stands(w: Wal, db: File, s: State)
    reads w, w.file, db
  {
    w.Valid() && w.frames == s.log && w.pageSize > 0 && db != w.file && Agrees(db.data, w.pageSize, s.pages)
  }

  /** The files of such a state, opened afresh, give every page the state has. */
  lemma StandsReads(w: Wal, db: File, s: State, p: u32)
    requires Stands(w, db, s)
    ensures ReadIn(s, p).Some? ==> ReadBack(w.file.data, db.data, w.pageSize, p) == ReadIn(s, p)
  {
    hide SoundLog, FilePage;
    SoundReopens(w.file.data, w.header, w.frames, w.base, w.bumps);
  }

  /** Copying pages of the log leaves the other pages of the state in place. */
  lemma CopiedAgrees(db: seq<byte>, db': seq<byte>, size: nat, s: State)
    requires Agrees(db, size, s.pages)
    requires forall p: u32 | p > 0 && Lookup(s.log, p).None? && FilePage(db, size, p).Some? :: FilePage(db', size, p) == FilePage(db, size, p)
    ensures Agrees(db', size, s.pages - LastData(s.log).Keys)
    ensures (forall p: u32 | p > 0 && Lookup(s.log, p).Some? :: FilePage(db', size, p) == Lookup(s.log, p)) ==>
              Agrees(db', size, s.pages + LastData(s.log))
  {
    hide FilePage;
  }

  /** A checkpoint that gets no further than some of the page copies, then reopening. */
  method StopInCopies(w: Wal, db: File, copied: set<u32>, ghost s: State) returns (w': Wal)
    requires Stands(w, db, s)
    modifies w.file, db
    ensures fresh(w') && w'.file == w.file && w'.pageSize == w.pageSize && w'.bumps == w.bumps
    ensures Stands(w', db, Step(w.pageSize, s, CrashInCopies(copied)))
  {
    hide SoundLog, FilePage, Lookup, LastData, Agrees, Index, Reopened, Safe;
    ghost var pages := db.data;
    ghost var _ := w.CopyPages(db, copied * w.pageIndex.Keys);
    CopiedAgrees(pages, db.data, w.pageSize, s);
    w' := Reopen(w);
  }

  /** A checkpoint that stops between the new header and the cut, then reopening. */
  method StopBeforeCut(w: Wal, db: File, ghost s: State) returns (w': Wal)
    requires Stands(w, db, s) && w.bumps + 1 < TWO32
    modifies w, w.file, db
    ensures fresh(w') && w'.file == w.file && w'.pageSize == w.pageSize && w'.bumps == old(w.bumps) + 1
    ensures Stands(w', db, Step(w.pageSize, s, CrashBeforeCut))
  {
    hide SoundLog, FilePage, Lookup, LastData, Agrees, Index, Reopened, Safe;
    ghost var pages := db.data;
    Logged(w.frames);
    ghost var _ := w.CopyPages(db, w.pageIndex.Keys);
    CopiedAgrees(pages, db.data, w.pageSize, s);
    w.RenewHeader();
    w' := Reopen(w);
  }

  /** One event, carried out on the files. */
  method Perform(w: Wal, db: File, e: Event, ghost s: State) returns (w': Wal)
    requires Stands(w, db, s) && Admissible(e) && w.bumps + 1 < TWO32
    modifies w, w.file, db
    ensures w'.file == w.file && w'.pageSize == w.pageSize && (w' == w || fresh(w'))
    ensures Stands(w', db, Step(w.pageSize, s, e)) && w'.bumps <= old(w.bumps) + (if e.CrashBeforeCut? then 1 else 0)
  {
    hide SoundLog, FilePage, Lookup, LastData, Agrees, Index, Reopened, Safe;
    ghost var size, pages := w.pageSize, db.data;
    w' := w;
    match e {
      case Append(pgno, dbSize, data) =>
        var _ := w.AppendFrame(pgno, data, dbSize);
      case Checkpoint =>
        ghost var _ := w.Checkpoint(db);
        CopiedAgrees(pages, db.data, size, s);
      case CutTo(len) =>
        w' := Cut(w, len);
      case CrashInCopies(copied) =>
        w' := StopInCopies(w, db, copied, s);
      case CrashBeforeCut =>
        w' := StopBeforeCut(w, db, s);
    }
  }

  /** The salts come round again only after 2^32 checkpoints that all stop before the cut. */
  function Stops(events: seq<Event>): nat {
    if events == [] then 0
    else Stops(events[..|events| - 1]) + (if events[|events| - 1].CrashBeforeCut? then 1 else 0)
  }

  lemma StopsSoFar(events: seq<Event>, i: nat)
    requires i <= |events|
    ensures Stops(events[..i]) <= Stops(events)
  {
    if i < |events| {
      assert events[..|events| - 1][..i] == events[..i];
      StopsSoFar(events[..|events| - 1], i);
    } else {
      assert events[..i] == events;
    }
  }

  /** A run from a fresh log file refines the run of its states: at the end `read_page` finds the
      frames of the last state, and a crash at that point would lose none of its pages. */
  method Run(file: File, db: File, size: u32, events: seq<Event>, ghost pages: map<u32, seq<byte>>) returns (w: Wal)
    requires file.data == [] && file != db && size > 0 && Agrees(db.data, size, pages)
    requires (forall e | e in events :: Admissible(e)) && Stops(events) + 1 < TWO32
    modifies file, db
    ensures Stands(w, db, After(size, State([], pages), events))
    ensures w.pageSize == size && w.file == file
    ensures forall p: u32 | ReadIn(After(size, State([], pages), events), p).Some? ::
              ReadBack(file.data, db.data, size, p) == ReadIn(After(size, State([], pages), events), p)
  {
    hide Agrees, ReadIn;
    w := new Wal.Create(file, size);
    for i := 0 to |events|
      invariant w.file == file && w.pageSize == size && fresh(w) && w.bumps <= Stops(events[..i])
      invariant Stands(w, db, After(size, State([], pages), events[..i]))
    {
      hide Stands, Step;
      assert events[..i + 1][..i] == events[..i];
      StopsSoFar(events, i);
      w := Perform(w, db, events[i], After(size, State([], pages), events[..i]));
    }
    assert events[..|events|] == events;
    forall p: u32 ensures ReadIn(After(size, State([], pages), events), p).Some? ==>
                            ReadBack(file.data, db.data, size, p) == ReadIn(After(size, State([], pages), events), p)
    {
      StandsReads(w, db, After(size, State([], pages), events), p);
    }
  }
}
