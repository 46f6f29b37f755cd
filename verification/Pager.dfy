/** The page cache over one database file in delete-journal mode (storage/pager.rs). */
module Pager {
  import opened Bytes
  import opened MemoryFile
  import opened DbHeader

  const ROOT_PAGE := 1

  datatype Page = Page(pgno: nat, data: seq<byte>, dirty: bool)

  /** The first page of a new database: the header and an empty table leaf behind it. */
  function FreshRoot(hd: Header): (page: seq<byte>)
    requires PageSizeOk(hd.pageSize)
    ensures |page| == hd.pageSize
  {
    var start := if hd.pageSize == 65536 then 0 else hd.pageSize;
    Splice(Splice(Put(hd, Zeros(hd.pageSize)), 100, [0x0d]), 105, U16Bytes(start))
  }

  lemma FreshRootHolds(hd: Header)
    requires PageSizeOk(hd.pageSize)
    ensures var root := FreshRoot(hd);
            && Parse(root) == Ok(hd)
            && root[100] == 0x0d && U16(root, 103) == 0 && U16(root, 105) == if hd.pageSize == 65536 then 0 else hd.pageSize
  {
    hide Parse, U16, Put, FreshRoot;
    FreshRootParts(hd);
    HeaderRoundTrip(hd, Zeros(hd.pageSize), FreshRoot(hd));
  }

  lemma FreshRootParts(hd: Header)
    requires PageSizeOk(hd.pageSize)
    ensures var root := FreshRoot(hd);
            && root[..HEADER_SIZE] == Put(hd, Zeros(hd.pageSize))[..HEADER_SIZE]
            && root[100] == 0x0d && U16(root, 103) == 0 && U16(root, 105) == if hd.pageSize == 65536 then 0 else hd.pageSize
  {
    hide Put;
    var put, root := Put(hd, Zeros(hd.pageSize)), FreshRoot(hd);
    assert forall i | 0 <= i < HEADER_SIZE :: root[i] == put[i];
    assert put[103] == 0 && put[104] == 0;
  }

  class Pager {
    const file: File
    const pageSize: nat
    const readOnly: bool
    var header: Header
    var cache: map<nat, Page>
    var inTransaction: bool
    var pageCount: nat
    /** The pages as of the last commit. */
    ghost var committed: map<nat, seq<byte>>
    /** What every page number reads as, `None` where `get_page` fails. */
    ghost var view: map<nat, seq<byte>>

    /** The cache goes first; otherwise the file, up to the page count. */
    ghost function Look(p: nat): Option<seq<byte>>
      reads this, file
    {
      if p in cache then Some(cache[p].data)
      else if p <= pageCount then FilePage(file.data, pageSize, p)
      else None
    }

    ghost predicate Shaped()
      reads this
    {
      && PageSizeOk(pageSize) && header.pageSize == pageSize && pageCount > 0
      && (forall p | p in cache :: 0 < p <= pageCount && cache[p].pgno == p && |cache[p].data| == pageSize)
    }

    /** Clean pages equal the file, the file keeps every committed page, and `view` is what reads see. */
    ghost predicate Valid()
      reads this, file
    {
      && Shaped()
      && (forall p | p in cache && !cache[p].dirty :: FilePage(file.data, pageSize, p) == Some(cache[p].data))
      && (forall p | p in committed :: 0 < p <= pageCount && FilePage(file.data, pageSize, p) == Some(committed[p]))
      && ROOT_PAGE in committed
      && (forall p: nat :: Look(p) == Get(view, p))
    }

    /** `Pager::open` on an empty file. */
    constructor Create(file: File, size: u32)
      requires file.data == [] && PageSizeOk(size)
      modifies file
      ensures Valid() && this.file == file && pageSize == size && pageCount == 1 && !inTransaction && !readOnly
      ensures header == New(size)
      ensures committed == view && view.Keys == {ROOT_PAGE} && view[ROOT_PAGE] == FreshRoot(header)
    {
      hide PageOffset, FilePage, FreshRoot, New, PageSizeOk;
      this.file, pageSize, readOnly, header := file, size, false, New(size);
      cache, inTransaction, pageCount, committed, view := map[], false, 1, map[], map[];
      new;
      InitializeNewDatabase();
    }

    /** `initialize_new_database`: the first page goes straight to the file. */
    method InitializeNewDatabase()
      requires Shaped() && cache == map[] && pageCount == 1 && file.data == []
      modifies file, this`view, this`committed
      ensures Valid() && committed == view && view.Keys == {ROOT_PAGE} && view[ROOT_PAGE] == FreshRoot(header)
    {
      hide PageOffset, FilePage, FreshRoot, PageSizeOk;
      LargeEnough(pageSize);
      var page := FreshRoot(header);
      WritePageAt(file, pageSize, ROOT_PAGE, page);
      Settle();
    }

    /** `Pager::open` on an existing file, once its header has been parsed. */
    constructor Existing(file: File, hd: Header, count: nat)
      requires PageSizeOk(hd.pageSize) && count > 0
      ensures FilePage(file.data, hd.pageSize, ROOT_PAGE).Some? ==> Valid()
      ensures this.file == file && header == hd && pageSize == hd.pageSize && pageCount == count && fresh(this)
      ensures cache == map[] && committed == view && !inTransaction && !readOnly
    {
      this.file, pageSize, readOnly, header := file, hd.pageSize, false, hd;
      cache, inTransaction, pageCount := map[], false, count;
      var stored := map p: nat | 0 < p <= count && FilePage(file.data, hd.pageSize, p).Some? :: FilePage(file.data, hd.pageSize, p).value;
      committed, view := stored, stored;
    }

    /** `get_page`: a private copy of the page; errors leave everything as it is. */
    method GetPage(pgno: nat) returns (r: Result<Page>)
      requires Valid()
      modifies this`cache
      ensures Valid()
      ensures pgno in view ==> r.Ok? && r.value.pgno == pgno && r.value.data == view[pgno]
      ensures pgno !in view ==> r == Err(if 0 < pgno <= pageCount then IoErr else Corrupt)
    {
      hide PageOffset, PageSizeOk;
      LargeEnough(pageSize);
      assert Look(pgno) == Get(view, pgno);
      if pgno in cache {
        return Ok(cache[pgno]);
      }
      if pgno == 0 || pgno > pageCount {
        return Err(Corrupt);
      }
      var data :- ReadExactAt(file, PageOffset(pageSize, pgno), pageSize);
      assert FilePage(file.data, pageSize, pgno) == Some(data);
      var page := Page(pgno, data, false);
      cache := cache[pgno := page];
      return Ok(page);
    }

    /** `write_page`: the page goes to the cache only. */
    method WritePage(page: Page) returns (r: Result<()>)
      requires Valid() && 0 < page.pgno <= pageCount && |page.data| == pageSize
      modifies this`cache, this`view
      ensures Valid()
      ensures r == if readOnly then Err(ReadOnly) else Ok(())
      ensures view == if readOnly then old(view) else old(view)[page.pgno := page.data]
      ensures !readOnly ==> page.pgno in cache && cache[page.pgno].data == page.data
    {
      if readOnly {
        return Err(ReadOnly);
      }
      cache := cache[page.pgno := page.(dirty := true)];
      view := view[page.pgno := page.data];
      forall p: nat ensures Look(p) == Get(view, p) {
        assert old(Look(p)) == Get(old(view), p);
      }
      return Ok(());
    }

    /** `write_page_direct`, for a page just written to the cache and not committed before. The
        file may grow over page numbers lost to a rollback; those read as zeros from then on. */
    method WritePageDirect(pgno: nat, data: seq<byte>)
      requires Valid() && pgno in cache && cache[pgno].data == data && pgno !in committed
      modifies file, this`view
      ensures Valid()
      ensures forall p | p in old(view) :: p in view && view[p] == old(view)[p]
    {
      hide FilePage, PageSizeOk;
      LargeEnough(pageSize);
      WritePageAt(file, pageSize, pgno, data);
      ghost var was := view;
      view := map p: nat | 0 <= p <= pageCount && Look(p).Some? :: Look(p).value;
      forall p | p in was ensures p in view && view[p] == was[p] {
        assert old(Look(p)) == Get(was, p);
      }
    }

    /** `allocate_page`: a fresh zeroed page, known to the cache only. */
    method AllocatePage() returns (pgno: nat)
      requires Valid()
      modifies this`cache, this`pageCount, this`view
      ensures Valid() && pgno == pageCount == old(pageCount) + 1 && pgno !in committed
      ensures pgno !in old(view) && view == old(view)[pgno := Zeros(pageSize)]
    {
      hide FilePage, PageSizeOk;
      pageCount := pageCount + 1;
      pgno := pageCount;
      assert old(Look(pgno)) == Get(view, pgno);
      cache := cache[pgno := Page(pgno, Zeros(pageSize), true)];
      view := view[pgno := Zeros(pageSize)];
      forall p: nat ensures Look(p) == Get(view, p) {
        assert old(Look(p)) == Get(old(view), p);
      }
    }

    method Begin()
      modifies this`inTransaction
      ensures inTransaction
    {
      if !inTransaction {
        inTransaction := true;
      }
    }

    /** The dirty pages go to the file in any order. */
    method WriteDirty(dirty: set<nat>)
      requires Shaped() && dirty <= cache.Keys
      modifies file
      ensures forall p | p in dirty :: FilePage(file.data, pageSize, p) == Some(cache[p].data)
      ensures forall p | p > 0 && p !in dirty && old(FilePage(file.data, pageSize, p)).Some? ::
                FilePage(file.data, pageSize, p) == old(FilePage(file.data, pageSize, p))
    {
      hide FilePage, PageOffset, PageSizeOk;
      LargeEnough(pageSize);
      var rest := dirty;
      while rest != {}
        invariant rest <= dirty
        invariant forall p | p in dirty - rest :: FilePage(file.data, pageSize, p) == Some(cache[p].data)
        invariant forall p | p > 0 && p !in dirty - rest && old(FilePage(file.data, pageSize, p)).Some? ::
                    FilePage(file.data, pageSize, p) == old(FilePage(file.data, pageSize, p))
      {
        var p :| p in rest;
        WritePageAt(file, pageSize, p, cache[p].data);
        rest := rest - {p};
      }
    }

    /** Every cached page is in the file as it is in the cache. */
    ghost predicate Synced()
      reads this, file
    {
      forall p | p in cache :: FilePage(file.data, pageSize, p) == Some(cache[p].data)
    }

    /** The first half of `commit`: afterwards the file holds every page as it reads. */
    method Flush()
      requires Valid()
      modifies file
      ensures Synced() && forall p | p in view :: FilePage(file.data, pageSize, p) == Some(view[p]) && 0 < p <= pageCount
    {
      hide FilePage, PageSizeOk;
      var dirty := set p | p in cache && cache[p].dirty;
      WriteDirty(dirty);
      forall p | p in view ensures FilePage(file.data, pageSize, p) == Some(view[p]) && 0 < p <= pageCount {
        assert old(Look(p)) == Get(view, p);
      }
    }

    /** The second half of `commit`: page 1 with the new header goes to file and cache, and every
        page is marked clean. */
    method WriteHeader()
      requires Shaped() && Synced() && FilePage(file.data, pageSize, ROOT_PAGE).Some?
      modifies this`cache, file
      ensures Shaped() && Synced() && ROOT_PAGE in cache && cache.Keys == old(cache).Keys + {ROOT_PAGE}
      ensures forall p | p in cache :: !cache[p].dirty
      ensures FilePage(file.data, pageSize, ROOT_PAGE) == Some(Put(header, old(FilePage(file.data, pageSize, ROOT_PAGE)).value))
      ensures forall p | p > 0 && p != ROOT_PAGE && old(FilePage(file.data, pageSize, p)).Some? ::
                FilePage(file.data, pageSize, p) == old(FilePage(file.data, pageSize, p))
    {
      hide FilePage, PageOffset, PageSizeOk, Put;
      LargeEnough(pageSize);
      var page1 := RootData();
      var headerPage := Put(header, page1);
      WritePageAt(file, pageSize, ROOT_PAGE, headerPage);
      cache := cache[ROOT_PAGE := Page(ROOT_PAGE, headerPage, false)];
      cache := map p | p in cache :: cache[p].(dirty := false);
    }

    /** Page 1 from the cache, or else from the file. */
    method RootData() returns (d: seq<byte>)
      requires Shaped() && Synced() && FilePage(file.data, pageSize, ROOT_PAGE).Some?
      ensures FilePage(file.data, pageSize, ROOT_PAGE) == Some(d)
    {
      if ROOT_PAGE in cache {
        return cache[ROOT_PAGE].data;
      }
      var read := ReadExactAt(file, 0, pageSize);
      return read.Extract();
    }

    /** `commit` inside a transaction. The file alone holds the whole view afterwards, and every
        page reads as before, except that page 1 carries the new header. */
    method CommitDirty()
      requires Valid() && pageCount < TWO32
      modifies this`cache, this`header, this`view, this`committed, file
      ensures Valid()
      ensures header == Committed(old(header), pageCount)
      ensures committed == view && forall p | 0 < p <= pageCount :: FilePage(file.data, pageSize, p) == Get(view, p)
      ensures forall p | p in old(view) && p != ROOT_PAGE :: p in view && view[p] == old(view)[p]
      ensures ROOT_PAGE in old(view) && ROOT_PAGE in view && |old(view)[ROOT_PAGE]| >= HEADER_SIZE
      ensures view[ROOT_PAGE] == Put(header, old(view)[ROOT_PAGE])
    {
      hide FilePage, PageOffset, PageSizeOk, Put, Committed;
      LargeEnough(pageSize);
      ghost var was := view;
      assert Look(ROOT_PAGE) == Get(view, ROOT_PAGE);
      var dbSize := pageCount;
      Flush();
      header := Committed(header, dbSize);
      WriteHeader();
      Settle();
    }

    /** Ghost bookkeeping once file and cache agree: what the file holds is the view, and committed. */
    ghost method Settle()
      requires Shaped() && Synced() && FilePage(file.data, pageSize, ROOT_PAGE).Some?
      modifies this`view, this`committed
      ensures Valid() && committed == view && forall p | p in view :: 0 < p <= pageCount
      ensures forall p | 0 < p <= pageCount :: FilePage(file.data, pageSize, p) == Get(view, p)
    {
      hide FilePage, PageSizeOk;
      view := map p: nat | 0 < p <= pageCount && FilePage(file.data, pageSize, p).Some? :: FilePage(file.data, pageSize, p).value;
      committed := view;
      forall p: nat ensures Look(p) == Get(view, p) {
        assert p in cache ==> FilePage(file.data, pageSize, p) == Some(cache[p].data);
      }
    }

    /** `commit`: outside a transaction nothing happens. */
    method Commit()
      requires Valid() && pageCount < TWO32
      modifies this, file
      ensures Valid() && pageCount == old(pageCount) && !inTransaction
      ensures !old(inTransaction) ==>
                view == old(view) && cache == old(cache) && header == old(header) && committed == old(committed) && file.data == old(file.data)
      ensures old(inTransaction) ==>
                && header == Committed(old(header), pageCount)
                && committed == view
                && (forall p | 0 < p <= pageCount :: FilePage(file.data, pageSize, p) == Get(view, p))
                && (forall p | p in old(view) && p != ROOT_PAGE :: p in view && view[p] == old(view)[p])
                && ROOT_PAGE in old(view) && ROOT_PAGE in view && |old(view)[ROOT_PAGE]| >= HEADER_SIZE
                && view[ROOT_PAGE] == Put(header, old(view)[ROOT_PAGE])
    {
      if !inTransaction {
        return;
      }
      CommitDirty();
      inTransaction := false;
    }

    /** `rollback`: the cache is dropped; every page of the last commit reads as committed. */
    method Rollback()
      requires Valid()
      modifies this`cache, this`inTransaction, this`view
      ensures Valid() && !inTransaction && cache == map[]
      ensures forall p | p in committed :: p in view && view[p] == committed[p]
      ensures pageCount == old(pageCount)
    {
      cache := map[];
      inTransaction := false;
      view := map p: nat | 0 <= p <= pageCount && FilePage(file.data, pageSize, p).Some? :: FilePage(file.data, pageSize, p).value;
    }
  }

  /** `Pager::open` on an existing file. All pages read as the file has them if it holds the first one
      whole. */
  method OpenExisting(file: File) returns (r: Result<Pager>)
    requires file.data != []
    ensures |file.data| < HEADER_SIZE ==> r == Err(IoErr)
    ensures |file.data| >= HEADER_SIZE && Parse(file.data[..HEADER_SIZE]).Err? ==> r.Err? && r.error == Parse(file.data[..HEADER_SIZE]).error
    ensures |file.data| >= HEADER_SIZE && Parse(file.data[..HEADER_SIZE]).Ok? ==>
              && r.Ok? && fresh(r.value) && r.value.file == file && r.value.cache == map[]
              && r.value.header == Parse(file.data[..HEADER_SIZE]).value && r.value.pageSize == r.value.header.pageSize
              && (FilePage(file.data, r.value.pageSize, ROOT_PAGE).Some? ==> r.value.Valid())
              && r.value.pageCount == (if r.value.header.databaseSize > 0 then r.value.header.databaseSize
                                       else (|file.data| + r.value.pageSize - 1) / r.value.pageSize)
  {
    var hdr :- ReadExactAt(file, 0, HEADER_SIZE);
    var hd :- Parse(hdr);
    var count := if hd.databaseSize > 0 then hd.databaseSize else (|file.data| + hd.pageSize - 1) / hd.pageSize;
    if hd.databaseSize == 0 { DivPositive(|file.data| + hd.pageSize - 1, hd.pageSize); }
    var pager := new Pager.Existing(file, hd, count);
    return Ok(pager);
  }

  lemma DivPositive(a: nat, b: nat)
    requires a >= b > 0
    ensures a / b > 0
  {
    assert a == b * (a / b) + a % b;
  }

  /** A commit survives the process: opening the file again gives a pager with the same pages. */
  method CommitAndReopen(p: Pager) returns (r: Result<Pager>)
    requires p.Valid() && p.inTransaction && p.pageCount < TWO32
    modifies p, p.file
    ensures r.Ok? && r.value.Valid() && r.value.view == p.view && r.value.header == p.header && r.value.pageCount == p.pageCount
    ensures forall q | q in old(p.view) && q != ROOT_PAGE :: q in r.value.view && r.value.view[q] == old(p.view)[q]
  {
    assert p.Look(ROOT_PAGE) == Get(p.view, ROOT_PAGE);
    ghost var root := p.view[ROOT_PAGE];
    p.Commit();
    hide Put, Parse, Committed, FilePage;
    var n := p.pageSize;
    assert FilePage(p.file.data, n, ROOT_PAGE) == Some(Put(p.header, root));
    HeaderStored(p.file.data, n, p.header, root);
    r := OpenExisting(p.file);
    ghost var q := r.value;
    forall k: nat ensures Get(q.view, k) == Get(p.view, k) {
      assert q.Look(k) == Get(q.view, k) && p.Look(k) == Get(p.view, k);
    }
    SameGets(q.view, p.view);
  }

  lemma HeaderStored(d: seq<byte>, size: nat, hd: Header, root: seq<byte>)
    requires PageSizeOk(hd.pageSize) && size == hd.pageSize && |root| == size
    requires FilePage(d, size, ROOT_PAGE) == Some(Put(hd, root))
    ensures |d| >= HEADER_SIZE && Parse(d[..HEADER_SIZE]) == Ok(hd)
  {
    hide Put, Parse;
    assert d[..size] == Put(hd, root);
    assert d[..HEADER_SIZE] == d[..size][..HEADER_SIZE];
    HeaderRoundTrip(hd, root, d[..HEADER_SIZE]);
  }

  lemma SameGets(a: map<nat, seq<byte>>, b: map<nat, seq<byte>>)
    requires forall k: nat :: Get(a, k) == Get(b, k)
    ensures a == b
  {
    forall k: nat ensures k in a <==> k in b { assert Get(a, k) == Get(b, k); }
    forall k | k in a ensures a[k] == b[k] { assert Get(a, k) == Get(b, k); }
  }
}
