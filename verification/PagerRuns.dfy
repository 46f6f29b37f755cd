/** Whole runs of the pager in delete-journal mode: any sequence of reads, writes,
    allocations, commits and rollbacks. */
module PagerRuns {
  import opened Bytes
  import opened MemoryFile
  import opened DbHeader
  import opened Pager

  datatype Event = Read(pgno: nat) | Write(pgno: nat, data: seq<byte>) | Allocate | Begin | Commit | Rollback

  /** What a run is expected to leave: the pages as they read, the pages of the last commit, whether a
      transaction is open, and the page count, which no rollback takes back. */
  datatype State = State(pages: map<nat, seq<byte>>, saved: map<nat, seq<byte>>, open: bool, count: nat)

  predicate Writable(size: nat, s: State, e: Event) { e.Write? ==> 0 < e.pgno <= s.count && |e.data| == size }

  function Step(size: nat, s: State, e: Event): State {
    match e
    case Read(_) => s
    case Write(pgno, data) => s.(pages := s.pages[pgno := data])
    case Allocate => s.(pages := s.pages[s.count + 1 := Zeros(size)], count := s.count + 1)
    case Begin => s.(open := true)
    case Commit => if s.open then s.(saved := s.pages, open := false) else s
    case Rollback => s.(pages := s.saved, open := false)
  }

  function After(size: nat, s: State, events: seq<Event>): State {
    if events == [] then s else Step(size, After(size, s, events[..|events| - 1]), events[|events| - 1])
  }

  /** The number of pages allocated, which bounds the page count. */
  predicate Fits(size: nat, s: State, events: seq<Event>) {
    forall i | 0 <= i < |events| :: Writable(size, After(size, s, events[..i]), events[i]) && After(size, s, events[..i]).count < TWO32
  }

  /** The first hundred bytes of page 1 belong to the database header. */
  predicate SamePage(p: nat, a: seq<byte>, b: seq<byte>) {
    if p == ROOT_PAGE then |a| == |b| >= HEADER_SIZE && a[HEADER_SIZE..] == b[HEADER_SIZE..] else a == b
  }

  predicate Covers(have: map<nat, seq<byte>>, want: map<nat, seq<byte>>) {
    forall p | p in want :: p in have && SamePage(p, have[p], want[p])
  }

  ghost predicate Stands(pager: Pager, s: State)
    reads pager, pager.file
  {
    && pager.Valid() && !pager.readOnly && pager.inTransaction == s.open && pager.pageCount == s.count
    && Covers(pager.view, s.pages) && Covers(pager.committed, s.saved)
  }

  lemma HeaderPut(hd: Header, d: seq<byte>)
    requires PageSizeOk(hd.pageSize) && |d| >= HEADER_SIZE
    ensures SamePage(ROOT_PAGE, Put(hd, d), d)
  {
  }

  /** Pages kept, but for the header, still cover what they covered. */
  lemma CoversKept(was: map<nat, seq<byte>>, now: map<nat, seq<byte>>, want: map<nat, seq<byte>>)
    requires Covers(was, want) && Covers(now, was)
    ensures Covers(now, want)
  {
    forall p | p in want ensures p in now && SamePage(p, now[p], want[p]) {
      assert p in was && SamePage(p, was[p], want[p]) && SamePage(p, now[p], was[p]);
    }
  }

  method Perform(pager: Pager, e: Event, ghost s: State)
    requires Stands(pager, s) && Writable(pager.pageSize, s, e) && s.count < TWO32
    modifies pager, pager.file
    ensures Stands(pager, Step(pager.pageSize, s, e))
  {
    hide FilePage, PageOffset, Put, Committed, PageSizeOk;
    ghost var was := pager.view;
    match e {
      case Read(pgno) =>
        var _ := pager.GetPage(pgno);
      case Write(pgno, data) =>
        var _ := pager.WritePage(Page(pgno, data, true));
        WrittenCovers(pager, was, s, pgno, data);
      case Allocate =>
        var _ := pager.AllocatePage();
        WrittenCovers(pager, was, s, s.count + 1, Zeros(pager.pageSize));
      case Begin =>
        pager.Begin();
      case Commit =>
        pager.Commit();
        if s.open { CommitCovers(pager, was, s); }
      case Rollback =>
        pager.Rollback();
        assert Covers(pager.view, s.saved);
    }
  }

  lemma WrittenCovers(pager: Pager, was: map<nat, seq<byte>>, s: State, pgno: nat, data: seq<byte>)
    requires Covers(was, s.pages) && pager.view == was[pgno := data] && pgno > 0 && |data| == pager.pageSize && PageSizeOk(pager.pageSize)
    ensures Covers(pager.view, s.pages[pgno := data])
  {
  }

  lemma CommitCovers(pager: Pager, was: map<nat, seq<byte>>, s: State)
    requires Covers(was, s.pages) && pager.Valid()
    requires forall p | p in was && p != ROOT_PAGE :: p in pager.view && pager.view[p] == was[p]
    requires ROOT_PAGE in was && ROOT_PAGE in pager.view && |was[ROOT_PAGE]| >= HEADER_SIZE && pager.view[ROOT_PAGE] == Put(pager.header, was[ROOT_PAGE])
    ensures Covers(pager.view, s.pages)
  {
    HeaderPut(pager.header, was[ROOT_PAGE]);
    hide Put, PageSizeOk;
    assert Covers(pager.view, was);
    CoversKept(was, pager.view, s.pages);
  }

  /** Any run of a new database: every page of the last state reads as there, whatever was written and
      rolled back before, and every page of the last commit is kept. */
  method Run(file: File, size: u32, events: seq<Event>) returns (pager: Pager)
    requires file.data == [] && PageSizeOk(size)
    requires var root := FreshRoot(New(size)); Fits(size, State(map[ROOT_PAGE := root], map[ROOT_PAGE := root], false, 1), events)
    modifies file
    ensures var root := FreshRoot(New(size));
            Stands(pager, After(size, State(map[ROOT_PAGE := root], map[ROOT_PAGE := root], false, 1), events))
    ensures pager.pageSize == size && pager.file == file
  {
    hide After, Step, Fits, Writable, FreshRoot, New, Covers, PageSizeOk;
    LargeEnough(size);
    pager := new Pager.Create(file, size);
    ghost var root := FreshRoot(New(size));
    CoversRoot(pager.view, root);
    PerformAll(pager, events, State(map[ROOT_PAGE := root], map[ROOT_PAGE := root], false, 1));
  }

  lemma CoversRoot(view: map<nat, seq<byte>>, root: seq<byte>)
    requires view.Keys == {ROOT_PAGE} && view[ROOT_PAGE] == root && |root| >= HEADER_SIZE
    ensures Covers(view, map[ROOT_PAGE := root])
  {
  }

  method PerformAll(pager: Pager, events: seq<Event>, ghost s: State)
    requires Stands(pager, s) && Fits(pager.pageSize, s, events)
    modifies pager, pager.file
    ensures Stands(pager, After(pager.pageSize, s, events))
  {
    hide Stands, Step, Writable, After;
    AfterNone(pager.pageSize, s);
    assert events[..0] == [];
    for i := 0 to |events|
      invariant Stands(pager, After(pager.pageSize, s, events[..i]))
    {
      AfterOne(pager.pageSize, s, events, i);
      Perform(pager, events[i], After(pager.pageSize, s, events[..i]));
    }
    assert events[..|events|] == events;
  }

  lemma AfterNone(size: nat, s: State)
    ensures After(size, s, []) == s
  {
  }

  lemma AfterOne(size: nat, s: State, events: seq<Event>, i: nat)
    requires i < |events|
    ensures After(size, s, events[..i + 1]) == Step(size, After(size, s, events[..i]), events[i])
  {
    hide Step;
    assert events[..i + 1][..i] == events[..i];
  }

  /** Reading a page of such a state. */
  method ReadIn(pager: Pager, p: nat, ghost s: State) returns (r: Result<Page>)
    requires Stands(pager, s)
    modifies pager
    ensures Stands(pager, s)
    ensures p in s.pages ==> r.Ok? && SamePage(p, r.value.data, s.pages[p])
  {
    hide FilePage, PageOffset;
    r := pager.GetPage(p);
  }
}
