/** Files as byte vectors (io/mod.rs), and files read and written page by page. */
module MemoryFile {
  import opened Bytes

  // ---- Specification ----------------------------------------------------------

  function Zeros(n: nat): (z: seq<byte>)
    ensures |z| == n
  { seq(n, _ => 0) }

  /** The file after `b` has been written at `off`; a gap before `off` is filled with zeros. */
  function Written(data: seq<byte>, off: nat, b: seq<byte>): (r: seq<byte>)
    ensures |r| == if off + |b| > |data| then off + |b| else |data|
    ensures forall i | off <= i < off + |b| :: r[i] == b[i - off]
    ensures forall i | 0 <= i < |data| && !(off <= i < off + |b|) :: r[i] == data[i]
  {
    var base := if off + |b| > |data| then data + Zeros(off + |b| - |data|) else data;
    Splice(base, off, b)
  }

  /** The first byte of page `p`. */
  function PageOffset(size: nat, p: nat): nat
    requires p > 0
  { (p - 1) * size }

  function FilePage(data: seq<byte>, size: nat, p: nat): (r: Option<seq<byte>>)
    ensures r.Some? ==> p > 0 && |r.value| == size
  {
    if p > 0 && PageOffset(size, p) + size <= |data| then Some(data[PageOffset(size, p)..PageOffset(size, p) + size])
    else None
  }

  lemma PagesApart(size: nat, p: nat, q: nat)
    requires 0 < p < q
    ensures PageOffset(size, p) + size <= PageOffset(size, q)
  {
    Distribute(p - 1, q - p, size);
    Distribute(1, q - p - 1, size);
  }

  /** Writing page `p` changes no other page of the file. */
  lemma PageWritten(data: seq<byte>, size: nat, p: nat, b: seq<byte>, q: nat)
    requires p > 0 && q > 0 && |b| == size
    ensures var data' := Written(data, PageOffset(size, p), b);
            && (q == p ==> FilePage(data', size, q) == Some(b))
            && (q != p && FilePage(data, size, q).Some? ==> FilePage(data', size, q) == FilePage(data, size, q))
            && |data'| >= |data|
  {
    var data' := Written(data, PageOffset(size, p), b);
    if q < p { PagesApart(size, q, p); }
    if p < q { PagesApart(size, p, q); }
    if q == p {
      assert data'[PageOffset(size, p)..PageOffset(size, p) + size] == b;
    } else if FilePage(data, size, q).Some? {
      assert data'[PageOffset(size, q)..PageOffset(size, q) + size] == data[PageOffset(size, q)..PageOffset(size, q) + size];
    }
  }

  // ---- Implementation ------------------------------------------------------------

  class File {
    var data: seq<byte>

    constructor ()
      ensures data == []
    { data := []; }

    /** Copies what the file has from `offset` on into `buf[at..]`. */
    method ReadAt(offset: nat, buf: array<byte>, at: nat) returns (n: nat)
      requires at <= buf.Length
      modifies buf
      ensures n == if offset >= |data| then 0 else if offset + buf.Length - at < |data| then buf.Length - at else |data| - offset
      ensures n <= buf.Length - at
      ensures buf[..] == Splice(old(buf[..]), at, if n == 0 then [] else data[offset..offset + n])
    {
      if offset >= |data| {
        return 0;
      }
      var end := if offset + buf.Length - at < |data| then offset + buf.Length - at else |data|;
      n := end - offset;
      CopyInto(buf, at, data[offset..end]);
    }

    method WriteAt(offset: nat, b: seq<byte>) returns (n: nat)
      modifies this
      ensures n == |b| && data == Written(old(data), offset, b)
    {
      var end := offset + |b|;
      if end > |data| {
        data := data + Zeros(end - |data|);
      }
      data := data[..offset] + b + data[end..];
      n := |b|;
    }

    method Truncate(size: nat)
      modifies this
      ensures data == if size < |old(data)| then old(data)[..size] else old(data)
    {
      if size < |data| {
        data := data[..size];
      }
    }
  }

  /** `read_exact_at`: all the bytes asked for, or an error. */
  method ReadExactAt(file: File, offset: nat, len: nat) returns (r: Result<seq<byte>>)
    ensures r == if len == 0 then Ok([]) else if offset + len <= |file.data| then Ok(file.data[offset..offset + len]) else Err(IoErr)
  {
    var buf := new byte[len](_ => 0);
    var read := 0;
    while read < len
      invariant read <= len && (read > 0 ==> offset + read <= |file.data|)
      invariant read > 0 ==> buf[..read] == file.data[offset..offset + read]
      decreases len - read
    {
      var n := file.ReadAt(offset + read, buf, read);
      if n == 0 {
        return Err(IoErr);
      }
      assert buf[..read + n] == file.data[offset..offset + read + n];
      read := read + n;
    }
    assert buf[..] == buf[..len];
    return Ok(buf[..]);
  }

  /** `write_exact_at`. */
  method WriteExactAt(file: File, offset: nat, b: seq<byte>)
    modifies file
    ensures file.data == if b == [] then old(file.data) else Written(old(file.data), offset, b)
  {
    var written := 0;
    while written < |b|
      invariant written == 0 || written == |b|
      invariant file.data == if written == 0 then old(file.data) else Written(old(file.data), offset, b)
    {
      assert b[written..] == b;
      var n := file.WriteAt(offset + written, b[written..]);
      written := written + n;
    }
  }

  /** Writes one page of a file and leaves the others alone. */
  method WritePageAt(file: File, size: nat, pgno: nat, b: seq<byte>)
    requires size > 0 && pgno > 0 && |b| == size
    modifies file
    ensures FilePage(file.data, size, pgno) == Some(b)
    ensures forall p | p > 0 && p != pgno && old(FilePage(file.data, size, p)).Some? ::
              FilePage(file.data, size, p) == old(FilePage(file.data, size, p))
  {
    hide FilePage, PageOffset;
    WriteExactAt(file, PageOffset(size, pgno), b);
    forall p | p > 0
      ensures p == pgno ==> FilePage(file.data, size, p) == Some(b)
      ensures p != pgno && old(FilePage(file.data, size, p)).Some? ==> FilePage(file.data, size, p) == old(FilePage(file.data, size, p))
    {
      PageWritten(old(file.data), size, pgno, b, p);
    }
    assert FilePage(file.data, size, pgno) == Some(b);
  }
}
