/** Variable-length integers (varint.rs): 7-bit groups, most significant first. */
module Varint {
  import opened Bytes

  const MAX_VARINT_LEN := 9

  // ---- Specification -------------------------------------------------------

  /** The groups of `v`, each flagged as "more bytes follow". */
  function Cont(v: nat): seq<byte> {
    if v == 0 then [] else Cont(v / 128) + [128 + v % 128]
  }

  /** The bytes written for `v`. */
  function Enc(v: nat): (b: seq<byte>)
    ensures |b| >= 1
  {
    Cont(v / 128) + [v % 128]
  }

  /** `acc << 7` on 64 bits: high bits drop out. */
  function Shift7(acc: u64): (r: u64)
    ensures r % 128 == 0 && r + 128 <= TWO64
    ensures acc < TWO56 ==> r == acc * 128
  { acc % 0x200_0000_0000_0000 * 128 }

  /** `acc << 8`, for the ninth byte. */
  function Shift8(acc: u64): (r: u64)
    ensures r % 256 == 0 && r + 256 <= TWO64
    ensures acc < TWO56 ==> r == acc * 256
  { acc % 0x100_0000_0000_0000 * 256 }

  /** The reader after `i` bytes, with `acc` accumulated: the ninth byte carries eight bits. */
  function ReadFrom(data: seq<byte>, offset: nat, i: nat, acc: u64): (r: Result<(u64, nat)>)
    requires i < MAX_VARINT_LEN
    ensures r.Ok? ==> i < r.value.1 <= MAX_VARINT_LEN && offset + r.value.1 <= |data|
    ensures r.Err? ==> r.error == Corrupt
    decreases MAX_VARINT_LEN - i
  {
    if offset + i >= |data| then Err(Corrupt)
    else
      var b := data[offset + i];
      if i == MAX_VARINT_LEN - 1 then Ok((Shift8(acc) + b, MAX_VARINT_LEN))
      else
        var acc' := Shift7(acc) + b % 128;
        if b < 128 then Ok((acc', i + 1)) else ReadFrom(data, offset, i + 1, acc')
  }

  function Read(data: seq<byte>, offset: nat): (r: Result<(u64, nat)>)
    ensures r.Ok? ==> 0 < r.value.1 <= MAX_VARINT_LEN && offset + r.value.1 <= |data|
  {
    ReadFrom(data, offset, 0, 0)
  }

  function Pow128(k: nat): nat {
    if k == 0 then 1 else 128 * Pow128(k - 1)
  }

  // ---- Properties ----------------------------------------------------------

  lemma {:induction false} ContLength(v: nat, k: nat)
    ensures |Cont(v)| <= k <==> v < Pow128(k)
  {
    if k > 0 && v > 0 {
      ContLength(v / 128, k - 1);
      assert v / 128 < Pow128(k - 1) <==> v < 128 * Pow128(k - 1);
    } else if k > 0 {
      PowPositive(k);
    }
  }

  lemma {:induction false} PowPositive(k: nat)
    ensures Pow128(k) > 0
  {
    if k > 0 { PowPositive(k - 1); }
  }

  lemma PowConstants()
    ensures Pow128(7) == 0x2_0000_0000_0000 && Pow128(8) == TWO56 && Pow128(9) == TWO63
  {
    assert Pow128(3) == 0x20_0000;
    assert Pow128(6) == 128 * (128 * (128 * Pow128(3)));
  }

  lemma ContLength8(w: nat)
    requires w < TWO56
    ensures |Cont(w)| <= 8
  {
    PowConstants();
    ContLength(w, 8);
  }

  /** How long an encoding is: at most nine bytes below 2^63, the ninth used from 2^56 on. */
  lemma EncLength(v: nat)
    ensures v < TWO63 ==> |Enc(v)| <= MAX_VARINT_LEN
    ensures v < TWO56 <==> |Enc(v)| < MAX_VARINT_LEN
    ensures v < 128 ==> |Enc(v)| == 1
  {
    PowConstants();
    ContLength(v / 128, 8);
    ContLength(v / 128, 7);
  }

  /** A flagged group is shifted in; the caller goes on. */
  lemma ReadGroup(data: seq<byte>, p: nat, k: nat, w: nat)
    requires 0 < w < TWO56 && k < 8 && At(data, p + k, [128 + w % 128])
    ensures ReadFrom(data, p, k, w / 128) == ReadFrom(data, p, k + 1, w)
  {
    hide Shift7, Shift8, At;
    AtByte(data, p + k, 128 + w % 128);
    ReadStep(data, p, k, w / 128);
    GroupBack(w);
  }

  /** A number from its last group and the rest. */
  lemma GroupBack(w: nat)
    ensures w / 128 * 128 + w % 128 == w && (128 + w % 128) % 128 == w % 128 && w % 128 % 128 == w % 128
  {
  }

  /** Reading the flagged groups of `w` leaves the reader with `w` accumulated. */
  lemma {:induction false} ReadCont(data: seq<byte>, p: nat, w: nat)
    requires At(data, p, Cont(w)) && w < TWO56
    ensures |Cont(w)| <= 8
    ensures ReadFrom(data, p, 0, 0) == ReadFrom(data, p, |Cont(w)|, w)
  {
    hide Cont, ReadFrom, At;
    ContLength8(w);
    ContUnfold(w);
    if w > 0 {
      AtParts(data, p, Cont(w / 128), [128 + w % 128]);
      ReadCont(data, p, w / 128);
      ReadGroup(data, p, |Cont(w / 128)|, w);
    }
  }

  lemma ContUnfold(w: nat)
    ensures Cont(w) == if w == 0 then [] else Cont(w / 128) + [128 + w % 128]
  {
  }

  /** An unflagged group ends the number; in ninth place it is taken for eight bits. */
  lemma ReadLast(data: seq<byte>, p: nat, k: nat, v: nat)
    requires v < TWO63 && k <= 8 && At(data, p + k, [v % 128])
    ensures ReadFrom(data, p, k, v / 128) == Ok((if k < 8 then v else v / 128 * 256 + v % 128, k + 1))
  {
    hide Shift7, Shift8, At;
    AtByte(data, p + k, v % 128);
    ReadStep(data, p, k, v / 128);
    GroupBack(v);
  }

  /** What the reader makes of written bytes, whatever follows them. */
  lemma ReadEnc(data: seq<byte>, p: nat, v: nat)
    requires At(data, p, Enc(v)) && v < TWO63
    ensures Read(data, p) == Ok((if v < TWO56 then v else v / 128 * 256 + v % 128, |Enc(v)|))
  {
    EncLength(v);
    var head, last := Cont(v / 128), [v % 128];
    assert Enc(v) == head + last;
    AtParts(data, p, head, last);
    ReadCont(data, p, v / 128);
    ReadLast(data, p, |head|, v);
  }

  /** Reading undoes writing exactly for the values below 2^56: from there on the
      ninth byte is written as seven bits and read as eight. */
  lemma RoundTrip(data: seq<byte>, p: nat, v: nat)
    requires At(data, p, Enc(v)) && v < TWO63
    ensures Read(data, p) == Ok((v, |Enc(v)|)) <==> v < TWO56
  {
    ReadEnc(data, p, v);
  }

  /** No encoding is a proper prefix of another: a reader never needs a length. */
  lemma PrefixFree(v: nat, w: nat)
    requires v < TWO56 && w < TWO56
    requires Enc(v) <= Enc(w)
    ensures v == w
  {
    assert At(Enc(w), 0, Enc(v)) && At(Enc(w), 0, Enc(w));
    ReadEnc(Enc(w), 0, v);
    ReadEnc(Enc(w), 0, w);
  }

  // ---- Implementation ------------------------------------------------------

  /** Groups, least significant first, as the writer collects them. */
  function Groups(v: nat): seq<byte> {
    if v == 0 then [] else [v % 128] + Groups(v / 128)
  }

  lemma {:induction false} ContIsReversedGroups(v: nat)
    ensures |Cont(v)| == |Groups(v)|
    ensures forall i | 0 <= i < |Cont(v)| :: Cont(v)[i] as int == 128 + Groups(v)[|Groups(v)| - 1 - i] as int
  {
    if v > 0 {
      ContIsReversedGroups(v / 128);
    }
  }

  lemma {:induction false} GroupsSmall(v: nat)
    ensures forall i | 0 <= i < |Groups(v)| :: Groups(v)[i] < 128
  {
    if v > 0 { GroupsSmall(v / 128); }
  }

  lemma GroupCount(v: nat)
    requires v > 0
    ensures |Groups(v)| == |Enc(v)|
  {
    ContIsReversedGroups(v / 128);
  }

  /** The written bytes are the collected groups backwards, flagged except the last. */
  lemma EncIsReversedGroups(v: nat, i: nat)
    requires v > 0 && i < |Enc(v)| == |Groups(v)|
    ensures var g := Groups(v)[|Enc(v)| - 1 - i] as int;
            g < 128 && Enc(v)[i] as int == if i < |Enc(v)| - 1 then g + 128 else g
  {
    ContIsReversedGroups(v / 128);
    GroupsSmall(v);
    assert Groups(v) == [v % 128] + Groups(v / 128);
  }

  lemma ReadStep(data: seq<byte>, offset: nat, i: nat, acc: u64)
    requires i < MAX_VARINT_LEN
    ensures ReadFrom(data, offset, i, acc) ==
              if offset + i >= |data| then Err(Corrupt)
              else if i == MAX_VARINT_LEN - 1 then Ok((Shift8(acc) + data[offset + i], MAX_VARINT_LEN))
              else if data[offset + i] < 128 then Ok((Shift7(acc) + data[offset + i] % 128, i + 1))
              else ReadFrom(data, offset, i + 1, Shift7(acc) + data[offset + i] % 128)
  {
    hide Shift7, Shift8;
  }

  lemma ReadStart(data: seq<byte>, offset: nat)
    ensures Read(data, offset) == ReadFrom(data, offset, 0, 0)
    ensures offset >= |data| ==> Read(data, offset) == Err(Corrupt)
  {
  }

  method ReadVarint(data: seq<byte>, offset: nat) returns (r: Result<(u64, nat)>)
    ensures r == Read(data, offset)
  {
    hide Shift7, Shift8, Read, ReadFrom;
    ReadStart(data, offset);
    if offset >= |data| {
      return Err(Corrupt);
    }
    var result: u64 := 0;
    for i := 0 to MAX_VARINT_LEN
      invariant i < MAX_VARINT_LEN ==> Read(data, offset) == ReadFrom(data, offset, i, result)
      invariant i < MAX_VARINT_LEN
    {
      ReadStep(data, offset, i, result);
      if offset + i >= |data| {
        return Err(Corrupt);
      }
      var b := data[offset + i];
      if i == MAX_VARINT_LEN - 1 {
        result := Shift8(result) + b;
        return Ok((result, MAX_VARINT_LEN));
      }
      result := Shift7(result) + b % 128;
      if b < 128 {
        return Ok((result, i + 1));
      }
    }
  }

  /** The writer's first loop: fills the scratch buffer with the groups of `v`. */
  method CollectGroups(v: u64, tmp: array<byte>) returns (len: nat)
    requires |Groups(v)| <= tmp.Length
    modifies tmp
    ensures len == |Groups(v)| && tmp[..len] == Groups(v)
  {
    var value := v;
    len := 0;
    while value > 0
      invariant len + |Groups(value)| == |Groups(v)|
      invariant tmp[..len] + Groups(value) == Groups(v)
    {
      ghost var done, rest := tmp[..len], Groups(value / 128);
      tmp[len] := value % 128;
      value := value / 128;
      len := len + 1;
      assert tmp[..len] == done + [tmp[len - 1]];
      assert done + ([tmp[len - 1]] + rest) == done + [tmp[len - 1]] + rest;
    }
  }

  /** Writes `v` at the start of `buf`. From 2^63 on the nine-byte scratch buffer would overflow. */
  method WriteVarint(v: u64, buf: array<byte>) returns (n: nat)
    requires v < TWO63 && |Enc(v)| <= buf.Length
    modifies buf
    ensures n == |Enc(v)| <= MAX_VARINT_LEN
    ensures buf[..] == Splice(old(buf[..]), 0, Enc(v))
    ensures buf[..n] == Enc(v)
  {
    if v == 0 {
      buf[0] := 0;
      return 1;
    }
    EncLength(v);
    GroupCount(v);
    ghost var g, e := Groups(v), Enc(v);
    var tmp := new byte[MAX_VARINT_LEN];
    var len := CollectGroups(v, tmp);
    for i := 0 to len
      invariant tmp[..len] == g
      invariant forall j | 0 <= j < i :: buf[j] == e[j]
      invariant forall j | i <= j < buf.Length :: buf[j] == old(buf[..])[j]
    {
      EncIsReversedGroups(v, i);
      assert tmp[..len][len - 1 - i] == g[len - 1 - i];
      buf[i] := tmp[len - 1 - i];
      if i < len - 1 {
        buf[i] := buf[i] + 128;
      }
    }
    assert buf[..len] == e;
    return len;
  }

  method VarintLen(v: u64) returns (n: nat)
    ensures n == |Enc(v)|
  {
    if v == 0 {
      return 1;
    }
    GroupCount(v);
    var value, len := v, 0;
    while value > 0
      invariant len + |Groups(value)| == |Groups(v)|
    {
      value := value / 128;
      len := len + 1;
    }
    return len;
  }

  /** The bytes a caller appends after writing `v` into its nine-byte scratch buffer. */
  method Encoded(v: u64) returns (b: seq<byte>)
    requires v < TWO63
    ensures b == Enc(v)
  {
    EncLength(v);
    var buf := new byte[MAX_VARINT_LEN];
    var n := WriteVarint(v, buf);
    b := buf[..n];
  }
}
