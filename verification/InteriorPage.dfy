/** Table interior pages (storage/btree.rs): child page numbers separated by divider rowids. */
module InteriorPage {
  import opened Bytes
  import opened Varint
  import opened Slotted
  import opened LeafPage

  const INTERIOR_TABLE: byte := 0x05

  function InteriorCell(child: u32, key: nat): (b: seq<byte>) { U32Bytes(child) + Enc(key) }

  function RawInterior(kids: seq<u32>, keys: seq<nat>): (bs: seq<seq<byte>>)
    requires |kids| == |keys| + 1
    ensures |bs| == |keys|
  { seq(|keys|, i requires 0 <= i < |keys| => InteriorCell(kids[i], keys[i])) }

  /** Page `d` lists `kids` with a divider after each but the last. Nothing is said of the recorded
      content start, which a promoted root gets wrong. */
  ghost predicate InteriorHolds(d: seq<byte>, h: nat, kids: seq<u32>, keys: seq<nat>) {
    && |kids| == |keys| + 1
    && PtrOffset(h, INTERIOR_BASE, |keys|) <= |d| <= MAX_PAGE
    && d[h] == INTERIOR_TABLE && CellCount(d, h) == |keys| && U32(d, h + 8) == kids[|keys|]
    && Layout(d, PtrOffset(h, INTERIOR_BASE, |keys|), Ptrs(d, h, INTERIOR_BASE, |keys|), RawInterior(kids, keys))
    && (forall i | 0 <= i < |keys| :: keys[i] < TWO56)
  }

  /** The child a rowid is routed to: the first whose divider is not below it. */
  function ChildSlot(keys: seq<nat>, key: int): (i: nat)
    ensures i <= |keys|
    ensures forall k | 0 <= k < i :: keys[k] < key
    ensures i < |keys| ==> key <= keys[i]
  {
    if keys == [] || key <= keys[0] then 0
    else
      assert forall k | 0 <= k < |keys| - 1 :: keys[1..][k] == keys[k + 1];
      1 + ChildSlot(keys[1..], key)
  }

  /** `read_interior_table_cell`. */
  function ReadInterior(d: seq<byte>, p: nat): Result<(u32, i64)>
    requires p + 4 <= |d|
  {
    var v :- Read(d, p + 4);
    Ok((U32(d, p), AsI64(v.0)))
  }

  lemma InteriorCellAt(d: seq<byte>, h: nat, kids: seq<u32>, keys: seq<nat>, i: nat)
    requires InteriorHolds(d, h, kids, keys) && i < |keys|
    ensures PtrOffset(h, INTERIOR_BASE, i) + 2 <= |d|
    ensures Ptr(d, h, INTERIOR_BASE, i) + 4 <= |d|
    ensures ReadInterior(d, Ptr(d, h, INTERIOR_BASE, i)) == Ok((kids[i], keys[i]))
  {
    hide Enc, Layout, At, Cont;
    var p := Ptr(d, h, INTERIOR_BASE, i);
    assert Ptrs(d, h, INTERIOR_BASE, |keys|)[i] == p;
    LayoutAt(d, PtrOffset(h, INTERIOR_BASE, |keys|), Ptrs(d, h, INTERIOR_BASE, |keys|), RawInterior(kids, keys), i);
    assert RawInterior(kids, keys)[i] == InteriorCell(kids[i], keys[i]);
    AtParts(d, p, U32Bytes(kids[i]), Enc(keys[i]));
    U32At(d, p, kids[i]);
    ReadEnc(d, p + 4, keys[i]);
  }

  /** `find_child_page_table`. */
  method FindChild(d: seq<byte>, h: nat, key: i64, ghost kids: seq<u32>, ghost keys: seq<nat>) returns (child: u32)
    requires InteriorHolds(d, h, kids, keys)
    ensures child == kids[ChildSlot(keys, key)]
  {
    hide Layout, ReadInterior, U32;
    var cellCount := CellCount(d, h);
    for i := 0 to cellCount
      invariant forall k | 0 <= k < i :: keys[k] < key
    {
      InteriorCellAt(d, h, kids, keys, i);
      var c := ReadInterior(d, Ptr(d, h, INTERIOR_BASE, i)).Extract();
      if key <= c.1 {
        return c.0;
      }
    }
    return U32(d, h + 8);
  }

  /** `child_page_at_slot`. */
  method ChildAtSlot(d: seq<byte>, h: nat, slot: nat, ghost kids: seq<u32>, ghost keys: seq<nat>) returns (r: Result<u32>)
    requires InteriorHolds(d, h, kids, keys)
    ensures r == if slot < |kids| then Ok(kids[slot]) else Err(Corrupt)
  {
    hide Layout, ReadInterior;
    var cellCount := CellCount(d, h);
    if slot < cellCount {
      InteriorCellAt(d, h, kids, keys, slot);
      var c := ReadInterior(d, Ptr(d, h, INTERIOR_BASE, slot)).Extract();
      return Ok(c.0);
    } else if slot == cellCount {
      return Ok(U32(d, h + 8));
    }
    return Err(Corrupt);
  }

  /** The page `promote_root_split` writes: one divider between two children. */
  method PromotedRoot(size: nat, h: nat, left: u32, dividerKey: nat, right: u32) returns (d: seq<byte>)
    requires h + 64 <= size <= MAX_PAGE && dividerKey < TWO56
    ensures |d| == size && InteriorHolds(d, h, [left, right], [dividerKey])
    ensures ContentStart(d, h) == size
    ensures Ptr(d, h, INTERIOR_BASE, 0) + |InteriorCell(left, dividerKey)| == size
  {
    hide Enc, U32, U16, U32Bytes, U16Bytes, At, InteriorHolds, Ptrs;
    var data := new byte[size](_ => 0);
    data[h] := INTERIOR_TABLE;
    WriteU32(data, h + 8, right);
    ghost var d0 := data[..];
    var k := Encoded(dividerKey);
    var cell := U32Bytes(left) + k;
    EncLength(dividerKey);
    var cellStart := size - |cell|;
    CopyInto(data, cellStart, cell);
    ghost var d1 := data[..];
    SetCounts(data, h, size, 1);
    ghost var d2 := data[..];
    WritePtr(data, h, INTERIOR_BASE, 1, 0, cellStart);
    d := data[..];
    CountsKept(d2, d, h);
    U32Kept(d0, d, h + 8);
    AtPointwise(d1, cellStart, cell);
    AtKept(d1, d, cellStart, cell);
    PtrsAt(d, h, INTERIOR_BASE, 1, 0);
    OneDividerHolds(d, h, left, dividerKey, right);
  }

  lemma OneDividerHolds(d: seq<byte>, h: nat, left: u32, dividerKey: nat, right: u32)
    requires h + 64 <= |d| <= MAX_PAGE && dividerKey < TWO56 && d[h] == INTERIOR_TABLE && U32(d, h + 8) == right
    requires CellCount(d, h) == 1 && ContentStart(d, h) == |d|
    requires At(d, Ptr(d, h, INTERIOR_BASE, 0), InteriorCell(left, dividerKey))
    requires Ptr(d, h, INTERIOR_BASE, 0) + |InteriorCell(left, dividerKey)| == |d| && h + 16 <= Ptr(d, h, INTERIOR_BASE, 0)
    ensures InteriorHolds(d, h, [left, right], [dividerKey])
  {
    hide U32, At, Ptr, InteriorCell, CellCount, ContentStart;
    PtrsAt(d, h, INTERIOR_BASE, 1, 0);
    assert RawInterior([left, right], [dividerKey]) == [InteriorCell(left, dividerKey)];
  }

  lemma CountsKept(d: seq<byte>, d': seq<byte>, h: nat)
    requires h + 8 <= |d| == |d'| && forall k | h <= k < h + 8 :: d'[k] == d[k]
    ensures CellCount(d', h) == CellCount(d, h) && ContentStart(d', h) == ContentStart(d, h)
  {
  }

  lemma U32Kept(d: seq<byte>, d': seq<byte>, p: nat)
    requires p + 4 <= |d| == |d'| && forall k | p <= k < p + 4 :: d'[k] == d[k]
    ensures U32(d', p) == U32(d, p)
  {
  }
}
