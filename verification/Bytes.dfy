/** Bytes, big-endian fields and in-place writes of byte buffers (io/mod.rs). */
module Bytes {
  type byte = x: int | 0 <= x < 256

  const TWO16 := 0x1_0000
  const TWO32 := 0x1_0000_0000
  const TWO56 := 0x100_0000_0000_0000
  const TWO63 := 0x8000_0000_0000_0000
  const TWO64 := 0x1_0000_0000_0000_0000

  type u16 = x: int | 0 <= x < TWO16
  type u32 = x: int | 0 <= x < TWO32
  type u64 = x: int | 0 <= x < TWO64
  type i64 = x: int | -TWO63 <= x < TWO63

  datatype Option<+T> = None | Some(value: T)

  datatype Error = Corrupt | IoErr | Constraint | ReadOnly | Mismatch | Other

  datatype Result<+T> = Ok(value: T) | Err(error: Error) {
    predicate IsFailure() { Err? }
    function PropagateFailure<U>(): Result<U>
      requires Err?
    { Err(error) }
    function Extract(): T
      requires Ok?
    { value }
  }

  /** A list read piece by piece: the part done, and what comes of the rest. */
  function Prefixed<T>(done: seq<T>, rest: Result<(seq<T>, nat)>): Result<(seq<T>, nat)> {
    match rest case Ok(r) => Ok((done + r.0, r.1)) case Err(e) => Err(e)
  }

  lemma PrefixedNone<T>(rest: Result<(seq<T>, nat)>)
    ensures Prefixed([], rest) == rest
  {
    if rest.Ok? { assert [] + rest.value.0 == rest.value.0; }
  }

  lemma PrefixedOne<T>(done: seq<T>, x: T, rest: Result<(seq<T>, nat)>)
    ensures Prefixed(done, Prefixed([x], rest)) == Prefixed(done + [x], rest)
  {
    if rest.Ok? { assert done + ([x] + rest.value.0) == done + [x] + rest.value.0; }
  }

  function Get<K, V>(m: map<K, V>, k: K): Option<V> {
    if k in m then Some(m[k]) else None
  }

  /** The buffer `s` after `b` has been copied over it at `off`. */
  function Splice(s: seq<byte>, off: nat, b: seq<byte>): (r: seq<byte>)
    requires off + |b| <= |s|
    ensures |r| == |s|
    ensures forall i | 0 <= i < |s| :: r[i] == if off <= i < off + |b| then b[i - off] else s[i]
  {
    s[..off] + b + s[off + |b|..]
  }

  /** `b` is stored in `d` at offset `p`. */
  predicate At(d: seq<byte>, p: nat, b: seq<byte>) {
    p + |b| <= |d| && d[p..p + |b|] == b
  }

  lemma AtPointwise(d: seq<byte>, p: nat, b: seq<byte>)
    requires p + |b| <= |d|
    requires forall i | 0 <= i < |b| :: d[p + i] == b[i]
    ensures At(d, p, b)
  {
  }

  lemma AtIsSlice(d: seq<byte>, p: nat, b: seq<byte>)
    requires At(d, p, b)
    ensures p + |b| <= |d| && d[p..p + |b|] == b
  {
  }

  lemma AtInside(d: seq<byte>, p: nat, b: seq<byte>)
    requires At(d, p, b)
    ensures p + |b| <= |d|
  {
  }

  lemma AtByte(d: seq<byte>, p: nat, b: byte)
    requires At(d, p, [b])
    ensures p < |d| && d[p] == b
  {
    assert d[p..p + 1][0] == d[p];
  }

  /** A stored string survives any change of the buffer outside its own range. */
  lemma AtKept(d: seq<byte>, d': seq<byte>, p: nat, b: seq<byte>)
    requires At(d, p, b) && |d| <= |d'|
    requires forall i | p <= i < p + |b| :: d'[i] == d[i]
    ensures At(d', p, b)
  {
    forall i | 0 <= i < |b| ensures d'[p + i] == b[i] {
      assert d[p..p + |b|][i] == d[p + i];
    }
    AtPointwise(d', p, b);
  }

  lemma AtParts(d: seq<byte>, p: nat, a: seq<byte>, b: seq<byte>)
    ensures At(d, p, a + b) <==> At(d, p, a) && At(d, p + |a|, b)
  {
    if p + |a| + |b| <= |d| {
      var whole := d[p..p + |a| + |b|];
      assert whole == d[p..p + |a|] + d[p + |a|..p + |a| + |b|];
      assert whole[..|a|] == d[p..p + |a|] && whole[|a|..] == d[p + |a|..p + |a| + |b|];
      assert (a + b)[..|a|] == a && (a + b)[|a|..] == b;
    }
  }

  function U16(d: seq<byte>, off: nat): (r: u16)
    requires off + 2 <= |d|
  {
    256 * (d[off] as int) + d[off + 1]
  }

  function U16Bytes(v: u16): (b: seq<byte>)
    ensures |b| == 2 && U16(b, 0) == v
  {
    [v / 256, v % 256]
  }

  function U32(d: seq<byte>, off: nat): (r: u32)
    requires off + 4 <= |d|
  {
    0x100_0000 * (d[off] as int) + 0x1_0000 * (d[off + 1] as int) + 0x100 * (d[off + 2] as int) + d[off + 3]
  }

  function U32Bytes(v: u32): (b: seq<byte>)
    ensures |b| == 4 && U32(b, 0) == v
  {
    [v / 0x100_0000, v / 0x1_0000 % 0x100, v / 0x100 % 0x100, v % 0x100]
  }

  lemma U32At(d: seq<byte>, p: nat, v: u32)
    requires At(d, p, U32Bytes(v))
    ensures U32(d, p) == v
  {
    var b := U32Bytes(v);
    var s := d[p..p + 4];
    assert s[0] == d[p] && s[1] == d[p + 1] && s[2] == d[p + 2] && s[3] == d[p + 3];
    assert d[p] == b[0] && d[p + 1] == b[1] && d[p + 2] == b[2] && d[p + 3] == b[3];
  }

  /** Consecutive 32-bit fields. */
  function WordBytes(w: seq<u32>): (b: seq<byte>)
    ensures |b| == 4 * |w|
  {
    if w == [] then [] else U32Bytes(w[0]) + WordBytes(w[1..])
  }

  lemma {:induction false} WordsAt(d: seq<byte>, p: nat, w: seq<u32>, i: nat)
    requires At(d, p, WordBytes(w)) && i < |w|
    ensures p + 4 * i + 4 <= |d| && U32(d, p + 4 * i) == w[i]
    decreases w
  {
    AtParts(d, p, U32Bytes(w[0]), WordBytes(w[1..]));
    if i == 0 {
      U32At(d, p, w[0]);
    } else {
      WordsAt(d, p + 4, w[1..], i - 1);
    }
  }

  method WriteU16(data: array<byte>, off: nat, v: u16)
    requires off + 2 <= data.Length
    modifies data
    ensures data[..] == Splice(old(data[..]), off, U16Bytes(v))
    ensures U16(data[..], off) == v
  {
    data[off] := v / 256;
    data[off + 1] := v % 256;
  }

  method WriteU32(data: array<byte>, off: nat, v: u32)
    requires off + 4 <= data.Length
    modifies data
    ensures data[..] == Splice(old(data[..]), off, U32Bytes(v))
    ensures U32(data[..], off) == v
  {
    var b := U32Bytes(v);
    data[off], data[off + 1], data[off + 2], data[off + 3] := b[0], b[1], b[2], b[3];
  }

  /** `data[off..off + |b|].copy_from_slice(b)`. */
  method CopyInto(data: array<byte>, off: nat, b: seq<byte>)
    requires off + |b| <= data.Length
    modifies data
    ensures data[..] == Splice(old(data[..]), off, b)
  {
    forall i | 0 <= i < |b| {
      data[off + i] := b[i];
    }
  }

  /** A private copy of a page buffer, as `Page::clone` gives the caller. */
  method Buffer(s: seq<byte>) returns (data: array<byte>)
    ensures fresh(data) && data[..] == s
  {
    data := new byte[|s|](i requires 0 <= i < |s| => s[i]);
  }

  lemma Distribute(a: int, b: int, c: int)
    ensures (a + b) * c == a * c + b * c
  {
  }
}
