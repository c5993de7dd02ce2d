/**
 * The operand-role schema: for an opcode, a function code or a mnemonic, the
 * family it belongs to and the ordered list of operand roles it takes.
 */
module Args {
  import opened Wrappers
  import Op
  import opened Instruction
  import opened Funct

  /** An operation given by its mnemonic or by its number. */
  datatype OperationId = Named(name: string) | Numbered(value: int)

  /** The family tag and role list `getRequiredArguments` returns. */
  datatype InstructionArguments = InstructionArguments(family: Op.Family, arguments: seq<Role>)

  /** `inEnum(id, ImmediateXxxOpcode)`, by name or by value. */
  predicate InImmediateGroup(id: OperationId, g: Op.ImmediateGroup) {
    match id
    case Named(s) => Op.NamesImmediateGroup(s, g)
    case Numbered(v) => Op.ValueInImmediateGroup(v, g)
  }

  /** `inEnum(id, JumpInstructionOpcode)`, by name or by value. */
  predicate InJumpFamily(id: OperationId) {
    match id
    case Named(s) => Op.NamesFamily(s, Op.Jump)
    case Numbered(v) => Op.IsJumpOpcode(v)
  }

  /** `inEnum(id, XxxFunctionCode)`, by name or by value. */
  predicate InFunctGroup(ft: FunctTable, id: OperationId, g: FunctGroup) {
    match id
    case Named(s) => ft.NameInGroup(s, g)
    case Numbered(v) => ft.CodeInGroup(Some(v), g)
  }

  /** The operation is in the immediate family. */
  predicate IsImmediateId(id: OperationId) {
    match id
    case Named(s) => Op.NamesFamily(s, Op.Immediate)
    case Numbered(v) => Op.IsImmediateOpcode(v)
  }

  /** The operation is a function of some group. */
  predicate IsFunctId(ft: FunctTable, id: OperationId) {
    match id
    case Named(s) => s in ft.codeOf && ft.codeOf[s] in ft.groupOf
    case Numbered(v) => v in ft.groupOf
  }

  /** A role list is non-empty, repeats no role and names only fields of its family. */
  predicate WellShaped(f: Op.Family, roles: seq<Role>) {
    |roles| > 0 && Distinct(roles) && forall k :: 0 <= k < |roles| ==> roles[k] in FamilyRoles(f)
  }

  function RequiredImmArguments(id: OperationId): (r: Option<seq<Role>>)
    ensures r.Some? ==> WellShaped(Op.Immediate, r.value)
  {
    if InImmediateGroup(id, Op.Arithmetic) then Some([Rt, Rs, Imm])
    else if InImmediateGroup(id, Op.Load) then Some([Rt, Imm])
    else if InImmediateGroup(id, Op.Branch) then Some([Rs, Rt, Imm])
    else if InImmediateGroup(id, Op.BranchZ) then Some([Rs, Imm])
    else if InImmediateGroup(id, Op.LoadStore) then Some([Rt, Imm, Rs])
    else None
  }

  function RequiredJumpArguments(id: OperationId): (r: Option<seq<Role>>)
    ensures r.Some? ==> WellShaped(Op.Jump, r.value)
  {
    if InJumpFamily(id) then Some([Imm]) else None
  }

  function RequiredFunctArguments(ft: FunctTable, id: OperationId): (r: Option<seq<Role>>)
    ensures r.Some? ==> WellShaped(Op.Register, r.value)
  {
    if InFunctGroup(ft, id, JumpReg) || InFunctGroup(ft, id, MoveTo) then Some([Rs])
    else if InFunctGroup(ft, id, Arithmetic) then Some([Rd, Rs, Rt])
    else if InFunctGroup(ft, id, Multiplication) then Some([Rs, Rt])
    else if InFunctGroup(ft, id, Shift) then Some([Rd, Rt, Shamt])
    else if InFunctGroup(ft, id, ShiftV) then Some([Rd, Rt, Rs])
    else if InFunctGroup(ft, id, MoveFrom) then Some([Rd])
    else None
  }

  /** Tries the jump table, then the immediate table, then the function table. */
  function RequiredArguments(ft: FunctTable, operation: string): (r: Option<InstructionArguments>)
    ensures r.Some? ==> WellShaped(r.value.family, r.value.arguments)
  {
    var id := Named(operation);
    match RequiredJumpArguments(id)
    case Some(jump) => Some(InstructionArguments(Op.Jump, jump))
    case None =>
      match RequiredImmArguments(id)
      case Some(imm) => Some(InstructionArguments(Op.Immediate, imm))
      case None =>
        match RequiredFunctArguments(ft, id)
        case Some(funct) => Some(InstructionArguments(Op.Register, funct))
        case None => None
  }

  /** The role list of each function group, as the schema gives it. */
  function FunctGroupRoles(g: FunctGroup): seq<Role> {
    match g
    case JumpReg => [Rs]
    case MoveTo => [Rs]
    case Arithmetic => [Rd, Rs, Rt]
    case Multiplication => [Rs, Rt]
    case Shift => [Rd, Rt, Shamt]
    case ShiftV => [Rd, Rt, Rs]
    case MoveFrom => [Rd]
  }

  /** The role list of each immediate subgroup, as the schema gives it. */
  function ImmediateGroupRoles(g: Op.ImmediateGroup): seq<Role> {
    match g
    case Arithmetic => [Rt, Rs, Imm]
    case Load => [Rt, Imm]
    case Branch => [Rs, Rt, Imm]
    case BranchZ => [Rs, Imm]
    case LoadStore => [Rt, Imm, Rs]
  }

  // ---------------------------------------------------------------------
  // Properties of the schema
  // ---------------------------------------------------------------------

  /** The immediate lookup answers exactly for the immediate family, with its subgroup's list. */
  lemma ImmArgumentsExactlyImmediate(id: OperationId)
    ensures RequiredImmArguments(id).Some? <==> IsImmediateId(id)
    ensures forall g :: InImmediateGroup(id, g) ==> RequiredImmArguments(id) == Some(ImmediateGroupRoles(g))
  {
    match id
    case Named(s) =>
      if Op.FromName(s).Some? {
        Op.ImmediateGroupsPartition(Op.FromName(s).value);
      }
    case Numbered(v) =>
      if Op.FromValue(v).Some? {
        Op.ImmediateGroupsPartition(Op.FromValue(v).value);
      }
  }

  /** The jump lookup answers `[imm]` exactly for the jump family (`j`, `jal`, `trap`). */
  lemma JumpArgumentsExactlyJump(id: OperationId)
    ensures RequiredJumpArguments(id) == (if InJumpFamily(id) then Some([Imm]) else None)
    ensures id.Numbered? ==> (RequiredJumpArguments(id).Some? <==> id.value in {2, 3, 26})
  {
    if id.Numbered? {
      Op.JumpFamilyValues(id.value);
    }
  }

  /** The function lookup answers exactly for the functions of some group, with that group's list. */
  lemma FunctArgumentsExactlyFunctions(ft: FunctTable, id: OperationId)
    ensures RequiredFunctArguments(ft, id).Some? <==> IsFunctId(ft, id)
    ensures forall g :: InFunctGroup(ft, id, g) ==> RequiredFunctArguments(ft, id) == Some(FunctGroupRoles(g))
  {
  }

  /**
   * The combined lookup answers for a name exactly when one of the three
   * tables knows it, and tags it with the family that knows it. The three name
   * spaces are disjoint, so the search order never changes the answer.
   */
  lemma RequiredArgumentsFamily(ft: FunctTable, name: string)
    requires ft.Valid()
    ensures RequiredArguments(ft, name).None? <==>
              !Op.NamesFamily(name, Op.Jump) && !Op.NamesFamily(name, Op.Immediate) && !IsFunctId(ft, Named(name))
    ensures Op.NamesFamily(name, Op.Jump) ==>
              RequiredArguments(ft, name) == Some(InstructionArguments(Op.Jump, [Imm]))
    ensures Op.NamesFamily(name, Op.Immediate) ==>
              RequiredArguments(ft, name).Some? && RequiredArguments(ft, name).value.family == Op.Immediate
    ensures IsFunctId(ft, Named(name)) ==>
              RequiredArguments(ft, name) == Some(InstructionArguments(Op.Register, FunctGroupRoles(ft.groupOf[ft.codeOf[name]])))
  {
    ImmArgumentsExactlyImmediate(Named(name));
    FunctArgumentsExactlyFunctions(ft, Named(name));
  }

  /** `REG` names an opcode, yet no table gives it operands. */
  lemma RegHasNoArguments(ft: FunctTable)
    requires ft.Valid()
    ensures RequiredArguments(ft, "REG").None?
  {
    RequiredArgumentsFamily(ft, "REG");
  }
}
