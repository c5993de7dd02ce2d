/**
 * The three instruction shapes and their documented field widths, the
 * partial record the parser produces, and the raw-word codec the parser and
 * the translator call into.
 */
module Instruction {
  import opened Wrappers
  import opened JsNumber
  import Op
  import Funct

  const OpBits: nat := 6
  const RegBits: nat := 5
  const ShamtBits: nat := 5
  const FunctBits: nat := 6
  const ImmBits: nat := 16
  const JumpImmBits: nat := 26
  const WordBits: nat := 32

  /** `v` is an unsigned number of `bits` bits. */
  predicate Fits(v: int, bits: nat) {
    0 <= v < Pow(2, bits)
  }

  datatype Instruction =
    | RegisterInstruction(op: int, rs: int, rt: int, rd: int, shamt: int, funct: int)
    | ImmediateInstruction(op: int, rs: int, rt: int, imm: int)
    | JumpInstruction(op: int, imm: int)

  /** The opcode lies in the shape's family and every field fits its documented width. */
  predicate WellFormed(i: Instruction) {
    match i
    case RegisterInstruction(op, rs, rt, rd, shamt, funct) =>
      Op.IsRegisterOpcode(op) && Fits(rs, RegBits) && Fits(rt, RegBits) && Fits(rd, RegBits)
      && Fits(shamt, ShamtBits) && Fits(funct, FunctBits)
    case ImmediateInstruction(op, rs, rt, imm) =>
      Op.IsImmediateOpcode(op) && Fits(rs, RegBits) && Fits(rt, RegBits) && Fits(imm, ImmBits)
    case JumpInstruction(op, imm) =>
      Op.IsJumpOpcode(op) && Fits(imm, JumpImmBits)
  }

  /** The documented width of each field of a shape, opcode first. */
  function FieldWidths(i: Instruction): seq<nat> {
    match i
    case RegisterInstruction(_, _, _, _, _, _) => [OpBits, RegBits, RegBits, RegBits, ShamtBits, FunctBits]
    case ImmediateInstruction(_, _, _, _) => [OpBits, RegBits, RegBits, ImmBits]
    case JumpInstruction(_, _) => [OpBits, JumpImmBits]
  }

  /** The field values of a shape, in the order of `FieldWidths`. */
  function FieldValues(i: Instruction): seq<int> {
    match i
    case RegisterInstruction(op, rs, rt, rd, shamt, funct) => [op, rs, rt, rd, shamt, funct]
    case ImmediateInstruction(op, rs, rt, imm) => [op, rs, rt, imm]
    case JumpInstruction(op, imm) => [op, imm]
  }

  function Sum(xs: seq<nat>): nat {
    if xs == [] then 0 else xs[0] + Sum(xs[1..])
  }

  lemma PowersOfTwo()
    ensures Pow(2, 5) == 32 && Pow(2, 6) == 64 && Pow(2, 16) == 65536
    ensures Pow(2, 26) == 67108864 && Pow(2, 32) == 4294967296
  {
    assert Pow(2, 6) == 64;
    assert Pow(2, 16) == 65536;
    assert Pow(2, 26) == 67108864;
  }

  /** Every shape fills exactly one 32-bit word: 6+5+5+5+5+6, 6+5+5+16 and 6+26. */
  lemma WidthsFillWord(i: Instruction)
    ensures |FieldWidths(i)| == |FieldValues(i)|
    ensures Sum(FieldWidths(i)) == WordBits
  {
    var w := FieldWidths(i);
    assert Sum(w[|w| - 1..]) == w[|w| - 1];
    if i.RegisterInstruction? {
      assert Sum(w[4..]) == 11;
      assert Sum(w[2..]) == 21;
    } else if i.ImmediateInstruction? {
      assert Sum(w[2..]) == 21;
    }
  }

  /** A well-formed instruction's fields each fit their width, and its opcode fits 6 bits. */
  lemma WellFormedFieldsFit(i: Instruction)
    requires WellFormed(i)
    ensures forall k :: 0 <= k < |FieldValues(i)| ==> Fits(FieldValues(i)[k], FieldWidths(i)[k])
    ensures Fits(i.op, OpBits)
  {
    Op.ValuesDistinctSixBit();
    PowersOfTwo();
  }

  /** The shape of a well-formed instruction is the one named by the family of its opcode. */
  lemma ShapeDeterminedByFamily(i: Instruction)
    requires WellFormed(i)
    ensures i.RegisterInstruction? <==> Op.IsRegisterOpcode(i.op)
    ensures i.ImmediateInstruction? <==> Op.IsImmediateOpcode(i.op)
    ensures i.JumpInstruction? <==> Op.IsJumpOpcode(i.op)
    ensures i.RegisterInstruction? ==> i.op == 0
  {
    Op.FamiliesPartition(i.op);
    Op.RegisterFamilyIsZero(i.op);
  }

  // ---------------------------------------------------------------------
  // Partial instructions
  // ---------------------------------------------------------------------

  /** The operand fields a role list can name. */
  datatype Role = Rd | Rs | Rt | Shamt | Imm

  /** The operand roles of each shape, in the order the parser zero-fills them. */
  function FamilyRoles(f: Op.Family): seq<Role> {
    match f
    case Register => [Rd, Rs, Rt, Shamt]
    case Immediate => [Rs, Rt, Imm]
    case Jump => [Imm]
  }

  predicate Distinct<T(==)>(xs: seq<T>) {
    forall i, j :: 0 <= i < j < |xs| ==> xs[i] != xs[j]
  }

  /**
   * A record in which any field may be missing. A field the source leaves
   * unset, sets to `undefined` or sets to `NaN` is `None`.
   */
  datatype PartialInstruction = PartialInstruction(
    op: Option<int>, funct: Option<int>,
    rs: Option<int>, rt: Option<int>, rd: Option<int>, shamt: Option<int>, imm: Option<int>)
  {
    function Get(r: Role): Option<int> {
      match r
      case Rd => rd
      case Rs => rs
      case Rt => rt
      case Shamt => shamt
      case Imm => imm
    }

    function With(r: Role, v: Option<int>): (p: PartialInstruction)
      ensures p.Get(r) == v
      ensures forall r' :: r' != r ==> p.Get(r') == Get(r')
      ensures p.op == op && p.funct == funct
    {
      match r
      case Rd => this.(rd := v)
      case Rs => this.(rs := v)
      case Rt => this.(rt := v)
      case Shamt => this.(shamt := v)
      case Imm => this.(imm := v)
    }
  }

  /** The empty record `{}`. */
  const Empty := PartialInstruction(None, None, None, None, None, None, None)

  /** A complete instruction seen as a record: its own fields present, the others missing. */
  function ToPartial(i: Instruction): (p: PartialInstruction)
    ensures p.op == Some(i.op)
    ensures i.RegisterInstruction? <==> p.funct.Some?
    ensures forall r :: p.Get(r).Some? <==> r in FamilyRoles(FamilyOfShape(i))
  {
    match i
    case RegisterInstruction(op, rs, rt, rd, shamt, funct) =>
      PartialInstruction(Some(op), Some(funct), Some(rs), Some(rt), Some(rd), Some(shamt), None)
    case ImmediateInstruction(op, rs, rt, imm) =>
      PartialInstruction(Some(op), None, Some(rs), Some(rt), None, None, Some(imm))
    case JumpInstruction(op, imm) =>
      PartialInstruction(Some(op), None, None, None, None, None, Some(imm))
  }

  function FamilyOfShape(i: Instruction): Op.Family {
    match i
    case RegisterInstruction(_, _, _, _, _, _) => Op.Register
    case ImmediateInstruction(_, _, _, _) => Op.Immediate
    case JumpInstruction(_, _) => Op.Jump
  }

  /** `isReg`: the record's opcode is `REG`. */
  predicate IsReg(p: PartialInstruction) {
    p.op == Some(0)
  }

  /** `isJump`: the record's opcode is in the jump family. */
  predicate IsJump(p: PartialInstruction) {
    p.op.Some? && Op.IsJumpOpcode(p.op.value)
  }

  /**
   * The raw-word codec (`encodeRawInstruction` and `encodeInstruction`).
   * `decode` yields None where the codec raises an error: a word outside 32
   * bits, an unsupported opcode, or a register-family word whose function
   * code the function-code table does not name. `Valid` states the codec's
   * own round trips on the words it accepts and on the well-formed,
   * supported instructions.
   */
  datatype RawCodec = RawCodec(decode: int -> Option<Instruction>, encode: PartialInstruction -> int) {
    ghost predicate Valid(ft: Funct.FunctTable) {
      && (forall w :: decode(w).Some? ==>
            0 <= w < Pow(2, WordBits) && WellFormed(decode(w).value) && Supported(ft, decode(w).value)
            && encode(ToPartial(decode(w).value)) == w)
      && (forall i :: WellFormed(i) && Supported(ft, i) ==> decode(encode(ToPartial(i))) == Some(i))
    }
  }

  /** A register instruction's function code is one the function-code table names. */
  predicate Supported(ft: Funct.FunctTable, i: Instruction) {
    i.RegisterInstruction? ==> i.funct in ft.nameOf
  }

  /** The raw shape of a decoded word is the one named by the family of its opcode. */
  lemma DecodedShape(c: RawCodec, ft: Funct.FunctTable, w: int)
    requires c.Valid(ft) && c.decode(w).Some?
    ensures IsReg(ToPartial(c.decode(w).value)) <==> c.decode(w).value.RegisterInstruction?
    ensures IsJump(ToPartial(c.decode(w).value)) <==> c.decode(w).value.JumpInstruction?
  {
    ShapeDeterminedByFamily(c.decode(w).value);
    Op.FamiliesPartition(0);
    Op.RegisterFamilyIsZero(0);
  }
}
