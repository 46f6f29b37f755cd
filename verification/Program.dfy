/** Programs of the virtual machine (vdbe/program.rs): the instructions its compilers emit. */
module Program {
  import opened Bytes

  datatype Opcode =
    | Init | Transaction | Halt | Goto | IfNot
    | OpenRead | OpenWrite | Rewind | Last | Column | Rowid | Count
    | MakeRecord | Insert | Delete
    | Null | Integer | Real | String
    | Add | Subtract | Multiply | Divide | Remainder | Concat | And | Or | Not
    | Eq | Ne | Lt | Le | Gt | Ge
    | ResultRow | RowData | GroupBy | Sort | BufferRewind | BufferNext

  datatype AggFunc = CountRows | Sum | Min | Max

  datatype AggSpec = AggSpec(func: AggFunc, colIndex: Option<nat>)

  datatype GroupSpec = GroupSpec(keys: seq<nat>, aggs: seq<AggSpec>)

  datatype SortKey = SortKey(colIndex: nat, desc: bool)

  datatype P4 = Nothing | Float(bits: u64) | Str(s: seq<byte>) | Name(name: string) | SortKeys(keys: seq<SortKey>) | Groups(spec: GroupSpec)

  datatype Insn = Insn(op: Opcode, p1: int, p2: int, p3: int, p4: P4, p5: nat)

  /** The usual instruction, without the fourth and fifth operand. */
  function Op(op: Opcode, p1: int, p2: int, p3: int): Insn { Insn(op, p1, p2, p3, Nothing, 0) }

  class Program {
    var insns: seq<Insn>

    constructor ()
      ensures insns == []
    { insns := []; }

    method Emit(insn: Insn) returns (addr: nat)
      modifies this
      ensures insns == old(insns) + [insn] && addr == |old(insns)|
    {
      addr := |insns|;
      insns := insns + [insn];
    }

    method PatchP2(addr: nat, target: int)
      requires addr < |insns|
      modifies this
      ensures insns == old(insns)[addr := old(insns)[addr].(p2 := target)]
    {
      insns := insns[addr := insns[addr].(p2 := target)];
    }
  }
}
