/** The database header: the first hundred bytes of page 1 (storage/header.rs). */
module DbHeader {
  import opened Bytes

  const HEADER_SIZE := 100

  /** "SQLite format 3\0" */
  const MAGIC: seq<byte> := [0x53, 0x51, 0x4c, 0x69, 0x74, 0x65, 0x20, 0x66, 0x6f, 0x72, 0x6d, 0x61, 0x74, 0x20, 0x33, 0]

  datatype Header = Header(
    pageSize: u32, writeVersion: byte, readVersion: byte, reservedBytes: byte,
    maxEmbedded: byte, minEmbedded: byte, leafPayload: byte,
    changeCounter: u32, databaseSize: u32, freelistTrunk: u32, freelistCount: u32,
    schemaCookie: u32, schemaFormat: u32, defaultCache: u32, largestRoot: u32,
    textEncoding: u32, userVersion: u32, incrVacuum: u32, applicationId: u32,
    versionValidFor: u32, sqliteVersion: u32)

  /** The header of a new database, with its size already set to one page. */
  function New(pageSize: u32): (hd: Header)
    ensures hd.pageSize == pageSize && hd.databaseSize == 1
  {
    Header(pageSize, 1, 1, 0, 64, 32, 32, 1, 1, 0, 0, 0, 4, 0, 0, 1, 0, 0, 0, 1, 3044001)
  }

  /** The header a commit of `count` pages writes: new size, next change counter. */
  function Committed(hd: Header, count: u32): (r: Header)
    ensures r.pageSize == hd.pageSize && r.databaseSize == count
  { hd.(databaseSize := count, changeCounter := (hd.changeCounter + 1) % 0x1_0000_0000) }

  predicate PageSizeOk(n: int) {
    n in {512, 1024, 2048, 4096, 8192, 16384, 32768, 65536}
  }

  lemma LargeEnough(n: int)
    requires PageSizeOk(n)
    ensures n >= HEADER_SIZE
  {
  }

  /** The fields as 32-bit words, from offset 24 on. */
  function Words(hd: Header): (w: seq<u32>)
    ensures |w| == 12
  {
    [hd.changeCounter, hd.databaseSize, hd.freelistTrunk, hd.freelistCount, hd.schemaCookie, hd.schemaFormat,
     hd.defaultCache, hd.largestRoot, hd.textEncoding, hd.userVersion, hd.incrVacuum, hd.applicationId]
  }

  function HeadBytes(hd: Header): (b: seq<byte>)
    ensures |b| == 72
  {
    MAGIC + U16Bytes(if hd.pageSize == 65536 then 1 else hd.pageSize % 0x1_0000)
    + [hd.writeVersion, hd.readVersion, hd.reservedBytes, hd.maxEmbedded, hd.minEmbedded, hd.leafPayload]
    + WordBytes(Words(hd))
  }

  /** `DatabaseHeader::write`: bytes 72 to 91 are left as they are. */
  function Put(hd: Header, page: seq<byte>): (r: seq<byte>)
    requires |page| >= HEADER_SIZE
    ensures |r| == |page|
    ensures forall i | 72 <= i < 92 || HEADER_SIZE <= i < |page| :: r[i] == page[i]
  {
    Splice(Splice(page, 0, HeadBytes(hd)), 92, WordBytes([hd.versionValidFor, hd.sqliteVersion]))
  }

  /** `DatabaseHeader::parse`. */
  function Parse(d: seq<byte>): Result<Header> {
    if |d| < HEADER_SIZE then Err(Corrupt)
    else if d[..16] != MAGIC then Err(Other)
    else
      var raw := U16(d, 16);
      var pageSize := if raw == 1 then 65536 else raw;
      if !PageSizeOk(pageSize) then Err(Corrupt)
      else Ok(Header(pageSize, d[18], d[19], d[20], d[21], d[22], d[23],
                     U32(d, 24), U32(d, 28), U32(d, 32), U32(d, 36), U32(d, 40), U32(d, 44), U32(d, 48),
                     U32(d, 52), U32(d, 56), U32(d, 60), U32(d, 64), U32(d, 68), U32(d, 92), U32(d, 96)))
  }

  /** A written header is read back field by field, whatever page it was written into. */
  lemma HeaderRoundTrip(hd: Header, page: seq<byte>, more: seq<byte>)
    requires |page| >= HEADER_SIZE && PageSizeOk(hd.pageSize)
    requires |more| >= HEADER_SIZE && more[..HEADER_SIZE] == Put(hd, page)[..HEADER_SIZE]
    ensures Parse(more) == Ok(hd)
  {
    hide U32, U16, At, Put, HeadBytes, WordBytes;
    var w, tail := Words(hd), [hd.versionValidFor, hd.sqliteVersion];
    HeaderPlaced(hd, page, more);
    WordsAt(more, 24, w, 0); WordsAt(more, 24, w, 1); WordsAt(more, 24, w, 2); WordsAt(more, 24, w, 3);
    WordsAt(more, 24, w, 4); WordsAt(more, 24, w, 5); WordsAt(more, 24, w, 6); WordsAt(more, 24, w, 7);
    WordsAt(more, 24, w, 8); WordsAt(more, 24, w, 9); WordsAt(more, 24, w, 10); WordsAt(more, 24, w, 11);
    WordsAt(more, 92, tail, 0);
    WordsAt(more, 92, tail, 1);
  }

  /** Where the parts of a written header lie. */
  lemma HeaderPlaced(hd: Header, page: seq<byte>, more: seq<byte>)
    requires |page| >= HEADER_SIZE && PageSizeOk(hd.pageSize)
    requires |more| >= HEADER_SIZE && more[..HEADER_SIZE] == Put(hd, page)[..HEADER_SIZE]
    ensures more[..16] == MAGIC && U16(more, 16) == if hd.pageSize == 65536 then 1 else hd.pageSize
    ensures more[18..24] == [hd.writeVersion, hd.readVersion, hd.reservedBytes, hd.maxEmbedded, hd.minEmbedded, hd.leafPayload]
    ensures At(more, 24, WordBytes(Words(hd))) && At(more, 92, WordBytes([hd.versionValidFor, hd.sqliteVersion]))
  {
    hide WordBytes, Words, HeadBytes, PageSizeOk;
    var d, head := Put(hd, page), HeadBytes(hd);
    assert forall i | 0 <= i < HEADER_SIZE :: more[i] == more[..HEADER_SIZE][i] == d[..HEADER_SIZE][i] == d[i];
    assert forall i | 0 <= i < 72 :: more[i] == head[i];
    HeadParts(hd);
    assert more[..72] == head;
    assert more[..16] == head[..16] && more[18..24] == head[18..24] && more[24..72] == head[24..];
  }

  lemma HeadParts(hd: Header)
    requires PageSizeOk(hd.pageSize)
    ensures var head := HeadBytes(hd);
            && head[..16] == MAGIC && U16(head, 16) == (if hd.pageSize == 65536 then 1 else hd.pageSize)
            && head[18..24] == [hd.writeVersion, hd.readVersion, hd.reservedBytes, hd.maxEmbedded, hd.minEmbedded, hd.leafPayload]
            && head[24..] == WordBytes(Words(hd))
  {
    hide WordBytes, Words;
    var size := if hd.pageSize == 65536 then 1 else hd.pageSize;
    var magic := MAGIC;
    assert size % 0x1_0000 == size;
    assert HeadBytes(hd) == magic + U16Bytes(size) + HeadBytes(hd)[18..24] + HeadBytes(hd)[24..];
  }
}
