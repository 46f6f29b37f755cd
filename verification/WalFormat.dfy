/** The bytes of a write-ahead log (storage/wal.rs): header, frames, and what reopening recovers. */
module WalFormat {
  import opened Bytes
  import opened Checksum

  const WAL_HEADER_SIZE := 32
  const FRAME_HEADER_SIZE := 24
  const WAL_MAGIC: u32 := 0x377f0682
  const WAL_MAGIC_LE: u32 := 0x377f0683
  const WAL_VERSION: u32 := 3007000

  // ---- Header ------------------------------------------------------------------------

  datatype Header = Header(magic: u32, version: u32, pageSize: u32, checkpointSeq: u32, salt1: u32, salt2: u32, sums: Sums)

  function HeaderSums(hd: Header): Sums {
    Digest(0, [hd.magic, hd.version, hd.pageSize, hd.checkpointSeq, hd.salt1, hd.salt2, 0, 0], (0, 0))
  }

  /** `update_checksum`. */
  function Signed(hd: Header): Header { hd.(sums := HeaderSums(hd)) }

  function NewHeader(pageSize: u32, salt1: u32, salt2: u32): Header {
    Signed(Header(WAL_MAGIC, WAL_VERSION, pageSize, 0, salt1, salt2, (0, 0)))
  }

  /** The header a checkpoint leaves behind. */
  function Bumped(hd: Header): (r: Header)
    ensures r.pageSize == hd.pageSize && r.magic == hd.magic
  {
    Signed(hd.(checkpointSeq := Wrap(hd.checkpointSeq + 1), salt1 := Wrap(hd.salt1 + 1), salt2 := Wrap(hd.salt2 + 1)))
  }

  predicate HeaderOk(hd: Header) {
    hd.magic in {WAL_MAGIC, WAL_MAGIC_LE} && hd.version == WAL_VERSION && hd.sums == HeaderSums(hd)
  }

  function HeaderFields(hd: Header): (w: seq<u32>)
    ensures |w| == 8
  { [hd.magic, hd.version, hd.pageSize, hd.checkpointSeq, hd.salt1, hd.salt2, hd.sums.0, hd.sums.1] }

  /** `WalHeader::encode`. */
  function HeaderBytes(hd: Header): (b: seq<byte>)
    ensures |b| == WAL_HEADER_SIZE
  { WordBytes(HeaderFields(hd)) }

  /** `WalHeader::decode`. */
  function DecodeHeader(d: seq<byte>): Result<Header> {
    if |d| < WAL_HEADER_SIZE then Err(Corrupt)
    else
      var hd := Header(U32(d, 0), U32(d, 4), U32(d, 8), U32(d, 12), U32(d, 16), U32(d, 20), (U32(d, 24), U32(d, 28)));
      if HeaderOk(hd) then Ok(hd) else Err(Corrupt)
  }

  lemma HeaderRoundTrip(d: seq<byte>, hd: Header)
    requires At(d, 0, HeaderBytes(hd)) && HeaderOk(hd)
    ensures |d| >= WAL_HEADER_SIZE && DecodeHeader(d[..WAL_HEADER_SIZE]) == Ok(hd)
  {
    hide U32, HeaderOk, WordBytes;
    var w, b := HeaderFields(hd), d[..WAL_HEADER_SIZE];
    AtInside(d, 0, HeaderBytes(hd));
    assert d[0..WAL_HEADER_SIZE] == b && b[0..WAL_HEADER_SIZE] == b;
    WordsAt(b, 0, w, 0); WordsAt(b, 0, w, 1); WordsAt(b, 0, w, 2); WordsAt(b, 0, w, 3);
    WordsAt(b, 0, w, 4); WordsAt(b, 0, w, 5); WordsAt(b, 0, w, 6); WordsAt(b, 0, w, 7);
  }

  // ---- Frames ----------------------------------------------------------------------------

  datatype Frame = Frame(pgno: u32, dbSize: u32, data: seq<byte>)

  /** `bytes_to_u32_be`: whole words only. */
  function PageWords(data: seq<byte>): (w: seq<u32>)
    ensures |w| == |data| / 4
  { seq(|data| / 4, i requires 0 <= i < |data| / 4 => U32(data, 4 * i)) }

  function SwapBytes(v: u32): u32 {
    var b := U32Bytes(v);
    U32([b[3], b[2], b[1], b[0]], 0)
  }

  /** `compute_checksum`: header words under one salt, page words under the other. */
  function FrameSums(salts: (u32, u32), pgno: u32, dbSize: u32, data: seq<byte>, isLe: bool): Sums {
    var c := Digest(salts.0, [pgno, dbSize, salts.0, salts.1, 0, 0], (0, 0));
    var c' := Digest(salts.1, PageWords(data), c);
    if isLe then (SwapBytes(c'.0), SwapBytes(c'.1)) else c'
  }

  function Salts(hd: Header): (u32, u32) { (hd.salt1, hd.salt2) }

  function FrameFields(hd: Header, f: Frame): (w: seq<u32>)
    ensures |w| == 6
  {
    var s := FrameSums(Salts(hd), f.pgno, f.dbSize, f.data, hd.magic == WAL_MAGIC_LE);
    [f.pgno, f.dbSize, hd.salt1, hd.salt2, s.0, s.1]
  }

  /** The bytes `append_frame` writes. */
  function FrameBytes(hd: Header, f: Frame): (b: seq<byte>)
    ensures |b| == FRAME_HEADER_SIZE + |f.data|
  { WordBytes(FrameFields(hd, f)) + f.data }

  lemma FrameParts(hd: Header, f: Frame)
    ensures FrameBytes(hd, f) == WordBytes(FrameFields(hd, f)) + f.data
  {
  }

  function FrameOffset(size: nat, i: nat): (r: nat)
    ensures r >= WAL_HEADER_SIZE
  { WAL_HEADER_SIZE + i * (FRAME_HEADER_SIZE + size) }

  lemma OffsetStep(size: nat, i: nat)
    ensures FrameOffset(size, i + 1) == FrameOffset(size, i) + FRAME_HEADER_SIZE + size
    ensures FrameOffset(size, 0) == WAL_HEADER_SIZE
  {
    Distribute(i, 1, FRAME_HEADER_SIZE + size);
  }

  lemma OffsetGrows(size: nat, i: nat, j: nat)
    requires i < j
    ensures FrameOffset(size, i + 1) <= FrameOffset(size, j)
    decreases j
  {
    OffsetStep(size, j - 1);
    if i + 1 < j { OffsetGrows(size, i, j - 1); }
  }

  /** Slot `i` of the log is there as a whole. */
  predicate Complete(d: seq<byte>, size: nat, i: nat) { FrameOffset(size, i + 1) <= |d| }

  /** The frame in slot `i`, if its salts are the header's and its checksum is right. */
  function ReadSlot(d: seq<byte>, hd: Header, size: nat, i: nat): Option<Frame>
    requires Complete(d, size, i)
  {
    OffsetStep(size, i);
    var p := FrameOffset(size, i);
    var data := d[p + FRAME_HEADER_SIZE..p + FRAME_HEADER_SIZE + size];
    var pgno, dbSize, salts := U32(d, p), U32(d, p + 4), (U32(d, p + 8), U32(d, p + 12));
    if salts == Salts(hd) && FrameSums(salts, pgno, dbSize, data, hd.magic == WAL_MAGIC_LE) == (U32(d, p + 16), U32(d, p + 20))
    then Some(Frame(pgno, dbSize, data)) else None
  }

  /** What `rebuild_index` accepts from slot `i` on: frames up to the first that does not check. */
  function RecoverFrom(d: seq<byte>, hd: Header, size: nat, i: nat): seq<Frame>
    decreases |d| - FrameOffset(size, i)
  {
    if !Complete(d, size, i) || ReadSlot(d, hd, size, i) == None then []
    else
      OffsetStep(size, i);
      [ReadSlot(d, hd, size, i).value] + RecoverFrom(d, hd, size, i + 1)
  }

  lemma SlotRoundTrip(d: seq<byte>, hd: Header, size: nat, i: nat, f: Frame)
    requires |f.data| == size && At(d, FrameOffset(size, i), FrameBytes(hd, f))
    ensures Complete(d, size, i) && ReadSlot(d, hd, size, i) == Some(f)
    ensures U32(d, FrameOffset(size, i) + 8) == hd.salt1
  {
    hide U32, WordBytes, FrameSums, FrameOffset;
    var p, w := FrameOffset(size, i), FrameFields(hd, f);
    OffsetStep(size, i);
    AtInside(d, p, FrameBytes(hd, f));
    AtParts(d, p, WordBytes(w), f.data);
    WordsAt(d, p, w, 0); WordsAt(d, p, w, 1); WordsAt(d, p, w, 2);
    WordsAt(d, p, w, 3); WordsAt(d, p, w, 4); WordsAt(d, p, w, 5);
    AtIsSlice(d, p + FRAME_HEADER_SIZE, f.data);
  }

  // ---- Damage ----------------------------------------------------------------------------------

  lemma DigitsUnique(a0: byte, a1: byte, a2: byte, a3: byte, b0: byte, b1: byte, b2: byte, b3: byte)
    requires U32([a0, a1, a2, a3], 0) == U32([b0, b1, b2, b3], 0)
    ensures a0 == b0 && a1 == b1 && a2 == b2 && a3 == b3
  {
  }

  lemma SwapBytesInjective(a: u32, b: u32)
    requires SwapBytes(a) == SwapBytes(b)
    ensures a == b
  {
    var x, y := U32Bytes(a), U32Bytes(b);
    assert U32(x, 0) == a && U32(y, 0) == b;
    hide U32Bytes;
    DigitsUnique(x[3], x[2], x[1], x[0], y[3], y[2], y[1], y[0]);
    assert x == y;
  }

  /** Which damaged data the checksum loop lets through: that with the same two sums. */
  lemma FoldEqualIff(v: seq<u32>, w: seq<u32>, a: u32, b: u32)
    requires |v| == |w|
    ensures Fold(v, (a, b)) == Fold(w, (a, b)) <==> Wrap(Sum(v)) == Wrap(Sum(w)) && Wrap(Weighted(v)) == Wrap(Weighted(w))
  {
    ClosedForm(v, a, b);
    ClosedForm(w, a, b);
    WrapCancel(a, Sum(v), Sum(w));
    WrapCancel(b + |v| * a, Weighted(v), Weighted(w));
  }

  /** Which damaged pages the checksum of a frame lets through. */
  lemma PassesIff(salts: (u32, u32), pgno: u32, dbSize: u32, p: seq<byte>, q: seq<byte>, isLe: bool)
    requires |p| == |q|
    ensures FrameSums(salts, pgno, dbSize, p, isLe) == FrameSums(salts, pgno, dbSize, q, isLe)
       <==> Wrap(Sum(PageWords(p))) == Wrap(Sum(PageWords(q))) && Wrap(Weighted(PageWords(p))) == Wrap(Weighted(PageWords(q)))
  {
    var c := Digest(salts.0, [pgno, dbSize, salts.0, salts.1, 0, 0], (0, 0));
    var a, b := Wrap(c.0 + salts.1 + |PageWords(p)|), Wrap(c.1 + salts.1 + 2 * |PageWords(p)|);
    var s, t := Fold(PageWords(p), (a, b)), Fold(PageWords(q), (a, b));
    FoldEqualIff(PageWords(p), PageWords(q), a, b);
    assert s == Digest(salts.1, PageWords(p), c) && t == Digest(salts.1, PageWords(q), c);
    hide Fold, Wrap, Sum, Weighted, PageWords, SwapBytes;
    if isLe && FrameSums(salts, pgno, dbSize, p, isLe) == FrameSums(salts, pgno, dbSize, q, isLe) {
      SwapBytesInjective(s.0, t.0);
      SwapBytesInjective(s.1, t.1);
    }
  }

  lemma WrapCancel(a: nat, x: nat, y: nat)
    ensures Wrap(a + x) == Wrap(a + y) <==> Wrap(x) == Wrap(y)
  {
  }

  /** Damage to a single 32-bit word is always found. */
  lemma OneWordDamage(salts: (u32, u32), pgno: u32, dbSize: u32, p: seq<byte>, q: seq<byte>, isLe: bool, i: nat)
    requires |p| == |q| && i < |p| / 4 && PageWords(p)[i] != PageWords(q)[i]
    requires forall k | 0 <= k < |p| / 4 && k != i :: PageWords(p)[k] == PageWords(q)[k]
    ensures FrameSums(salts, pgno, dbSize, p, isLe) != FrameSums(salts, pgno, dbSize, q, isLe)
  {
    PassesIff(salts, pgno, dbSize, p, q, isLe);
    assert PageWords(q) == PageWords(p)[i := PageWords(q)[i]];
    FoldEqualIff(PageWords(p), PageWords(q), 0, 0);
    OneWordDetected(PageWords(p), i, PageWords(q)[i], (0, 0));
  }

  /** So is the exchange of two unequal words an odd number of words apart. */
  lemma SwapDamage(salts: (u32, u32), pgno: u32, dbSize: u32, p: seq<byte>, q: seq<byte>, isLe: bool, i: nat, j: nat)
    requires |p| == |q| && i < j < |p| / 4 && (j - i) % 2 == 1 && PageWords(p)[i] != PageWords(p)[j]
    requires PageWords(q) == Swap(PageWords(p), i, j)
    ensures FrameSums(salts, pgno, dbSize, p, isLe) != FrameSums(salts, pgno, dbSize, q, isLe)
  {
    PassesIff(salts, pgno, dbSize, p, q, isLe);
    FoldEqualIff(PageWords(p), PageWords(q), 0, 0);
    SwapDetected(PageWords(p), i, j, (0, 0));
  }

  // ---- A sound log ----------------------------------------------------------------------------

  /** The first slots hold exactly `frames`. */
  ghost predicate LogAt(d: seq<byte>, hd: Header, size: nat, frames: seq<Frame>) {
    forall k | 0 <= k < |frames| :: |frames[k].data| == size && At(d, FrameOffset(size, k), FrameBytes(hd, frames[k]))
  }

  /** Every whole slot from `n` on carries a salt from before the last checkpoint. */
  ghost predicate StaleFrom(d: seq<byte>, size: nat, n: nat, base: u32, bumps: nat) {
    forall i | i >= n && Complete(d, size, i) :: OldSalt(U32AtSlot(d, size, i), base, bumps)
  }

  function U32AtSlot(d: seq<byte>, size: nat, i: nat): u32
    requires Complete(d, size, i)
  { OffsetStep(size, i); U32(d, FrameOffset(size, i) + 8) }

  /** The first salt after `j` checkpoints. */
  function SaltAfter(base: u32, j: nat): u32 { Wrap(base + j) }

  ghost predicate OldSalt(salt: u32, base: u32, bumps: nat) {
    exists j: nat | j < bumps :: salt == SaltAfter(base, j)
  }

  /** A log file as this program leaves it: header, frames, and at most stale slots behind them.
      `bumps` counts the checkpoints since the salt was `base`. */
  ghost predicate SoundLog(d: seq<byte>, hd: Header, frames: seq<Frame>, base: u32, bumps: nat) {
    && HeaderOk(hd) && At(d, 0, HeaderBytes(hd)) && hd.salt1 == SaltAfter(base, bumps) && bumps < TWO32
    && LogAt(d, hd, hd.pageSize, frames) && StaleFrom(d, hd.pageSize, |frames|, base, bumps)
  }

  lemma NewSalt(base: u32, j: nat, bumps: nat)
    requires j < bumps < TWO32
    ensures SaltAfter(base, j) != SaltAfter(base, bumps)
  {
  }

  lemma StaleSlot(d: seq<byte>, hd: Header, frames: seq<Frame>, base: u32, bumps: nat)
    requires SoundLog(d, hd, frames, base, bumps)
    ensures Complete(d, hd.pageSize, |frames|) ==> ReadSlot(d, hd, hd.pageSize, |frames|) == None
  {
    if Complete(d, hd.pageSize, |frames|) {
      var j: nat :| j < bumps && U32AtSlot(d, hd.pageSize, |frames|) == SaltAfter(base, j);
      NewSalt(base, j, bumps);
    }
  }

  /** Reopening a sound log recovers exactly its frames. */
  lemma {:induction false} Recovered(d: seq<byte>, hd: Header, frames: seq<Frame>, base: u32, bumps: nat, i: nat)
    requires SoundLog(d, hd, frames, base, bumps) && i <= |frames|
    ensures RecoverFrom(d, hd, hd.pageSize, i) == frames[i..]
    decreases |frames| - i
  {
    if i == |frames| {
      StaleSlot(d, hd, frames, base, bumps);
    } else {
      SlotRoundTrip(d, hd, hd.pageSize, i, frames[i]);
      Recovered(d, hd, frames, base, bumps, i + 1);
    }
  }

  /** What the whole file means to a program that opens it. */
  function Reopened(d: seq<byte>): Result<(Header, seq<Frame>)> {
    var hd :- DecodeHeader(if |d| < WAL_HEADER_SIZE then d else d[..WAL_HEADER_SIZE]);
    Ok((hd, RecoverFrom(d, hd, hd.pageSize, 0)))
  }

  lemma SoundReopens(d: seq<byte>, hd: Header, frames: seq<Frame>, base: u32, bumps: nat)
    requires SoundLog(d, hd, frames, base, bumps)
    ensures Reopened(d) == Ok((hd, frames))
  {
    HeaderRoundTrip(d, hd);
    Recovered(d, hd, frames, base, bumps, 0);
    assert frames[0..] == frames;
  }

  // ---- Changes that keep a log sound ---------------------------------------------------------

  /** The frames that lie wholly within the first `len` bytes. */
  function Kept(size: nat, n: nat, len: nat): (k: nat)
    ensures k <= n && (k > 0 ==> FrameOffset(size, k) <= len)
    ensures k < n ==> FrameOffset(size, k + 1) > len
  {
    if n == 0 || FrameOffset(size, n) <= len then n else Kept(size, n - 1, len)
  }

  lemma LogCut(d: seq<byte>, hd: Header, size: nat, frames: seq<Frame>, k: nat, len: nat)
    requires LogAt(d, hd, size, frames) && k <= |frames| && len <= |d| && (k > 0 ==> FrameOffset(size, k) <= len)
    ensures LogAt(d[..len], hd, size, frames[..k])
  {
    hide FrameBytes, FrameOffset, At;
    forall i | 0 <= i < k ensures At(d[..len], FrameOffset(size, i), FrameBytes(hd, frames[i])) {
      OffsetGrows(size, i, k);
      OffsetStep(size, i);
      AtCut(d, len, FrameOffset(size, i), FrameBytes(hd, frames[i]));
    }
  }

  lemma StaleCut(d: seq<byte>, size: nat, n: nat, base: u32, bumps: nat, k: nat, len: nat)
    requires StaleFrom(d, size, n, base, bumps) && k <= n && len <= |d| && (k < n ==> FrameOffset(size, k + 1) > len)
    ensures StaleFrom(d[..len], size, k, base, bumps)
  {
    hide FrameOffset, OldSalt;
    forall i | i >= k && Complete(d[..len], size, i) ensures OldSalt(U32AtSlot(d[..len], size, i), base, bumps) {
      if k < i { OffsetGrows(size, k, i); OffsetStep(size, i); }
      assert i >= n;
      OffsetStep(size, i);
      assert U32AtSlot(d[..len], size, i) == U32AtSlot(d, size, i);
    }
  }

  /** A crash that cuts the file keeps the complete frames and loses the others. */
  lemma CutSound(d: seq<byte>, hd: Header, frames: seq<Frame>, base: u32, bumps: nat, len: nat)
    requires SoundLog(d, hd, frames, base, bumps) && WAL_HEADER_SIZE <= len <= |d|
    ensures SoundLog(d[..len], hd, frames[..Kept(hd.pageSize, |frames|, len)], base, bumps)
  {
    hide HeaderBytes, HeaderOk, LogAt, StaleFrom, At;
    var k := Kept(hd.pageSize, |frames|, len);
    AtCut(d, len, 0, HeaderBytes(hd));
    LogCut(d, hd, hd.pageSize, frames, k, len);
    StaleCut(d, hd.pageSize, |frames|, base, bumps, k, len);
  }

  /** Appending a frame behind the last one. */
  lemma AppendSound(d: seq<byte>, hd: Header, frames: seq<Frame>, base: u32, bumps: nat, f: Frame, d': seq<byte>)
    requires SoundLog(d, hd, frames, base, bumps) && |f.data| == hd.pageSize
    requires |d'| >= |d| && At(d', FrameOffset(hd.pageSize, |frames|), FrameBytes(hd, f))
    requires forall i | 0 <= i < |d| && !(FrameOffset(hd.pageSize, |frames|) <= i < FrameOffset(hd.pageSize, |frames| + 1)) :: d'[i] == d[i]
    requires |d'| == |d| || |d'| == FrameOffset(hd.pageSize, |frames| + 1)
    ensures SoundLog(d', hd, frames + [f], base, bumps)
  {
    hide HeaderBytes, HeaderOk, LogAt, StaleFrom;
    var n := |frames|;
    AtKept(d, d', 0, HeaderBytes(hd));
    LogGrown(d, hd, hd.pageSize, frames, f, d');
    StaleGrown(d, hd.pageSize, n, base, bumps, d');
  }

  lemma LogGrown(d: seq<byte>, hd: Header, size: nat, frames: seq<Frame>, f: Frame, d': seq<byte>)
    requires LogAt(d, hd, size, frames) && |f.data| == size && |d'| >= |d|
    requires At(d', FrameOffset(size, |frames|), FrameBytes(hd, f))
    requires forall i | 0 <= i < |d| && !(FrameOffset(size, |frames|) <= i < FrameOffset(size, |frames| + 1)) :: d'[i] == d[i]
    ensures LogAt(d', hd, size, frames + [f])
  {
    hide FrameBytes, FrameOffset;
    forall k | 0 <= k < |frames| ensures At(d', FrameOffset(size, k), FrameBytes(hd, frames[k])) {
      OffsetStep(size, k);
      OffsetGrows(size, k, |frames|);
      AtInside(d, FrameOffset(size, k), FrameBytes(hd, frames[k]));
      AtKept(d, d', FrameOffset(size, k), FrameBytes(hd, frames[k]));
    }
  }

  lemma StaleGrown(d: seq<byte>, size: nat, n: nat, base: u32, bumps: nat, d': seq<byte>)
    requires StaleFrom(d, size, n, base, bumps) && |d'| >= |d|
    requires forall i | 0 <= i < |d| && !(FrameOffset(size, n) <= i < FrameOffset(size, n + 1)) :: d'[i] == d[i]
    requires |d'| == |d| || |d'| == FrameOffset(size, n + 1)
    ensures StaleFrom(d', size, n + 1, base, bumps)
  {
    hide FrameOffset, OldSalt;
    forall i | i >= n + 1 && Complete(d', size, i) ensures OldSalt(U32AtSlot(d', size, i), base, bumps) {
      OffsetStep(size, i);
      OffsetGrows(size, n, i);
      assert U32AtSlot(d', size, i) == U32AtSlot(d, size, i);
    }
  }

  /** Rewriting the header after a checkpoint turns every frame stale at once. */
  lemma BumpSound(d: seq<byte>, hd: Header, frames: seq<Frame>, base: u32, bumps: nat)
    requires SoundLog(d, hd, frames, base, bumps) && bumps + 1 < TWO32
    ensures |d| >= WAL_HEADER_SIZE
    ensures SoundLog(Splice(d, 0, HeaderBytes(Bumped(hd))), Bumped(hd), [], base, bumps + 1)
  {
    AtInside(d, 0, HeaderBytes(hd));
    var hd', d' := Bumped(hd), Splice(d, 0, HeaderBytes(Bumped(hd)));
    AtPointwise(d', 0, HeaderBytes(hd'));
    WrapAdd(base + bumps, 1);
    StaleBumped(d, hd, frames, base, bumps, d');
  }

  lemma StaleBumped(d: seq<byte>, hd: Header, frames: seq<Frame>, base: u32, bumps: nat, d': seq<byte>)
    requires SoundLog(d, hd, frames, base, bumps) && |d'| == |d|
    requires forall i | WAL_HEADER_SIZE <= i < |d| :: d'[i] == d[i]
    ensures StaleFrom(d', hd.pageSize, 0, base, bumps + 1)
  {
    hide FrameOffset, HeaderOk, HeaderBytes, FrameBytes;
    forall i | i >= 0 && Complete(d', hd.pageSize, i) ensures OldSalt(U32AtSlot(d', hd.pageSize, i), base, bumps + 1) {
      OffsetStep(hd.pageSize, i);
      assert U32AtSlot(d', hd.pageSize, i) == U32AtSlot(d, hd.pageSize, i);
      if i < |frames| {
        SlotRoundTrip(d, hd, hd.pageSize, i, frames[i]);
        assert U32AtSlot(d, hd.pageSize, i) == SaltAfter(base, bumps);
      } else {
        var j: nat :| j < bumps && U32AtSlot(d, hd.pageSize, i) == SaltAfter(base, j);
        assert j < bumps + 1;
      }
    }
  }

  lemma AtCut(d: seq<byte>, len: nat, p: nat, b: seq<byte>)
    requires At(d, p, b) && p + |b| <= len <= |d|
    ensures At(d[..len], p, b)
  {
    AtKept(d, d[..len] + d[len..], p, b);
    assert d[..len][p..p + |b|] == d[p..p + |b|];
  }
}
