/**
 * The known 6-bit opcodes (`KnownInstructionOpcode`) and their split into the
 * register, jump and immediate families.
 */
module Op {
  import opened Wrappers
  import JsString

  datatype Opcode =
    | Reg
    | J | Jal | Beq | Bne | Blez | Bgtz
    | Addi | Addiu | Slti | Sltiu | Andi | Ori | Xori
    | Llo | Lhi | Trap
    | Lb | Lh | Lw | Lbu | Lhu
    | Sb | Sh | Sw

  /** The opcode's numeric value, a 6-bit field. */
  function Value(o: Opcode): (v: nat)
    ensures v < 64
  {
    match o
    case Reg => 0
    case J => 2
    case Jal => 3
    case Beq => 4
    case Bne => 5
    case Blez => 6
    case Bgtz => 7
    case Addi => 8
    case Addiu => 9
    case Slti => 10
    case Sltiu => 11
    case Andi => 12
    case Ori => 13
    case Xori => 14
    case Llo => 24
    case Lhi => 25
    case Trap => 26
    case Lb => 32
    case Lh => 33
    case Lw => 35
    case Lbu => 36
    case Lhu => 37
    case Sb => 40
    case Sh => 41
    case Sw => 43
  }

  /**
   * The opcode's member name in the enumeration, which is also its mnemonic:
   * a lower-case identifier for every opcode but `REG`.
   */
  function Name(o: Opcode): (n: string)
    ensures o == Reg || JsString.IsIdentifier(n)
  {
    match o
    case Reg => "REG"
    case J => "j"
    case Jal => "jal"
    case Beq => "beq"
    case Bne => "bne"
    case Blez => "blez"
    case Bgtz => "bgtz"
    case Addi => "addi"
    case Addiu => "addiu"
    case Slti => "slti"
    case Sltiu => "sltiu"
    case Andi => "andi"
    case Ori => "ori"
    case Xori => "xori"
    case Llo => "llo"
    case Lhi => "lhi"
    case Trap => "trap"
    case Lb => "lb"
    case Lh => "lh"
    case Lw => "lw"
    case Lbu => "lbu"
    case Lhu => "lhu"
    case Sb => "sb"
    case Sh => "sh"
    case Sw => "sw"
  }

  /** The enumeration's reverse lookup: the opcode with value `v`, if any. */
  function FromValue(v: int): (r: Option<Opcode>)
    ensures r.Some? ==> Value(r.value) == v
  {
    if v == 0 then Some(Reg)
    else if v == 2 then Some(J)
    else if v == 3 then Some(Jal)
    else if v == 4 then Some(Beq)
    else if v == 5 then Some(Bne)
    else if v == 6 then Some(Blez)
    else if v == 7 then Some(Bgtz)
    else if v == 8 then Some(Addi)
    else if v == 9 then Some(Addiu)
    else if v == 10 then Some(Slti)
    else if v == 11 then Some(Sltiu)
    else if v == 12 then Some(Andi)
    else if v == 13 then Some(Ori)
    else if v == 14 then Some(Xori)
    else if v == 24 then Some(Llo)
    else if v == 25 then Some(Lhi)
    else if v == 26 then Some(Trap)
    else if v == 32 then Some(Lb)
    else if v == 33 then Some(Lh)
    else if v == 35 then Some(Lw)
    else if v == 36 then Some(Lbu)
    else if v == 37 then Some(Lhu)
    else if v == 40 then Some(Sb)
    else if v == 41 then Some(Sh)
    else if v == 43 then Some(Sw)
    else None
  }

  /** The enumeration's lookup by member name (case-sensitive, exact): the opcode named `s`, if any. */
  function FromName(s: string): (r: Option<Opcode>)
    ensures r.Some? ==> Name(r.value) == s
  {
    if s == "REG" then Some(Reg)
    else if s == "j" then Some(J)
    else if s == "jal" then Some(Jal)
    else if s == "beq" then Some(Beq)
    else if s == "bne" then Some(Bne)
    else if s == "blez" then Some(Blez)
    else if s == "bgtz" then Some(Bgtz)
    else if s == "addi" then Some(Addi)
    else if s == "addiu" then Some(Addiu)
    else if s == "slti" then Some(Slti)
    else if s == "sltiu" then Some(Sltiu)
    else if s == "andi" then Some(Andi)
    else if s == "ori" then Some(Ori)
    else if s == "xori" then Some(Xori)
    else if s == "llo" then Some(Llo)
    else if s == "lhi" then Some(Lhi)
    else if s == "trap" then Some(Trap)
    else if s == "lb" then Some(Lb)
    else if s == "lh" then Some(Lh)
    else if s == "lw" then Some(Lw)
    else if s == "lbu" then Some(Lbu)
    else if s == "lhu" then Some(Lhu)
    else if s == "sb" then Some(Sb)
    else if s == "sh" then Some(Sh)
    else if s == "sw" then Some(Sw)
    else None
  }

  /** The three instruction encodings. */
  datatype Family = Register | Immediate | Jump

  /**
   * `RegisterInstructionOpcode` is `REG`, `JumpInstructionOpcode` is
   * `j | jal | trap`, and `ImmediateInstructionOpcode` excludes both from the
   * known opcodes.
   */
  function FamilyOf(o: Opcode): (f: Family)
    ensures f == Register <==> Value(o) == 0
    ensures f == Jump <==> Value(o) == 2 || Value(o) == 3 || Value(o) == 26
  {
    if o == Reg then Register
    else if o == J || o == Jal || o == Trap then Jump
    else Immediate
  }

  /** The family of a numeric opcode, or None when the value is not a known opcode. */
  function FamilyOfValue(v: int): Option<Family> {
    match FromValue(v)
    case None => None
    case Some(o) => Some(FamilyOf(o))
  }

  predicate IsKnownOpcode(v: int) {
    FromValue(v).Some?
  }

  predicate IsRegisterOpcode(v: int) {
    FamilyOfValue(v) == Some(Register)
  }

  predicate IsJumpOpcode(v: int) {
    FamilyOfValue(v) == Some(Jump)
  }

  predicate IsImmediateOpcode(v: int) {
    FamilyOfValue(v) == Some(Immediate)
  }

  /** The name-keyed membership test of the family enumerations. */
  predicate NamesFamily(s: string, f: Family) {
    FromName(s).Some? && FamilyOf(FromName(s).value) == f
  }

  /**
   * The subgroups of the immediate family. They are not part of the opcode
   * enumeration itself; this partition follows its blocks and names: the
   * branches, the zero-comparing branches, the arithmetic immediates, the
   * half-word loads and the memory loads and stores.
   */
  datatype ImmediateGroup = Branch | BranchZ | Arithmetic | Load | LoadStore

  function ImmediateGroupOf(o: Opcode): Option<ImmediateGroup> {
    match o
    case Beq | Bne => Some(Branch)
    case Blez | Bgtz => Some(BranchZ)
    case Addi | Addiu | Slti | Sltiu | Andi | Ori | Xori => Some(Arithmetic)
    case Llo | Lhi => Some(Load)
    case Lb | Lh | Lw | Lbu | Lhu | Sb | Sh | Sw => Some(LoadStore)
    case Reg | J | Jal | Trap => None
  }

  /** `inEnum(name, ImmediateXxxOpcode)`: `s` names an opcode of subgroup `g`. */
  predicate NamesImmediateGroup(s: string, g: ImmediateGroup) {
    FromName(s).Some? && ImmediateGroupOf(FromName(s).value) == Some(g)
  }

  /** `inEnum(op, ImmediateXxxOpcode)` on a numeric opcode. */
  predicate ValueInImmediateGroup(v: int, g: ImmediateGroup) {
    FromValue(v).Some? && ImmediateGroupOf(FromValue(v).value) == Some(g)
  }

  // ---------------------------------------------------------------------
  // Properties of the table
  // ---------------------------------------------------------------------

  lemma FromValueOfValue(o: Opcode)
    ensures FromValue(Value(o)) == Some(o)
  {
    match o
    case Reg =>
    case J =>
    case Jal =>
    case Beq =>
    case Bne =>
    case Blez =>
    case Bgtz =>
    case Addi =>
    case Addiu =>
    case Slti =>
    case Sltiu =>
    case Andi =>
    case Ori =>
    case Xori =>
    case Llo =>
    case Lhi =>
    case Trap =>
    case Lb =>
    case Lh =>
    case Lw =>
    case Lbu =>
    case Lhu =>
    case Sb =>
    case Sh =>
    case Sw =>
  }

  /** All 25 values are distinct 6-bit numbers, and the reverse lookup inverts them. */
  lemma ValuesDistinctSixBit()
    ensures forall o :: Value(o) < 64
    ensures forall o1, o2 :: Value(o1) == Value(o2) ==> o1 == o2
    ensures forall v :: FromValue(v).Some? ==> Value(FromValue(v).value) == v
  {
    forall o1, o2 | Value(o1) == Value(o2) ensures o1 == o2 {
      FromValueOfValue(o1);
      FromValueOfValue(o2);
    }
  }

  lemma FromNameOfName(o: Opcode)
    ensures FromName(Name(o)) == Some(o)
  {
    match o
    case Reg | J | Jal => FromNameOfJumps();
    case Beq | Bne | Blez => FromNameOfBranches();
    case Bgtz | Addi | Addiu => FromNameOfArithmetic();
    case Slti | Sltiu => FromNameOfComparisons();
    case Andi | Ori | Xori => FromNameOfLogic();
    case Llo | Lhi => FromNameOfLoadImmediate();
    case Trap => FromNameOfTrap();
    case Lb | Lh | Lw => FromNameOfLoads();
    case Lbu | Lhu => FromNameOfUnsignedLoads();
    case Sb | Sh | Sw => FromNameOfStores();
  }

  lemma FromNameOfJumps()
    ensures FromName("REG") == Some(Reg)
    ensures FromName("j") == Some(J)
    ensures FromName("jal") == Some(Jal)
  {
  }

  lemma FromNameOfBranches()
    ensures FromName("beq") == Some(Beq)
    ensures FromName("bne") == Some(Bne)
    ensures FromName("blez") == Some(Blez)
  {
  }

  lemma FromNameOfArithmetic()
    ensures FromName("bgtz") == Some(Bgtz)
    ensures FromName("addi") == Some(Addi)
    ensures FromName("addiu") == Some(Addiu)
  {
  }

  lemma FromNameOfComparisons()
    ensures FromName("slti") == Some(Slti)
    ensures FromName("sltiu") == Some(Sltiu)
  {
  }

  lemma FromNameOfLogic()
    ensures FromName("andi") == Some(Andi)
    ensures FromName("ori") == Some(Ori)
    ensures FromName("xori") == Some(Xori)
  {
  }

  lemma FromNameOfLoadImmediate()
    ensures FromName("llo") == Some(Llo)
    ensures FromName("lhi") == Some(Lhi)
  {
  }

  lemma FromNameOfTrap()
    ensures FromName("trap") == Some(Trap)
  {
  }

  lemma FromNameOfLoads()
    ensures FromName("lb") == Some(Lb)
    ensures FromName("lh") == Some(Lh)
    ensures FromName("lw") == Some(Lw)
  {
  }

  lemma FromNameOfUnsignedLoads()
    ensures FromName("lbu") == Some(Lbu)
    ensures FromName("lhu") == Some(Lhu)
  {
  }

  lemma FromNameOfStores()
    ensures FromName("sb") == Some(Sb)
    ensures FromName("sh") == Some(Sh)
    ensures FromName("sw") == Some(Sw)
  {
  }

  /** The name-to-value mapping is a bijection between the 25 names and the 25 values. */
  lemma NameValueBijection()
    ensures forall o :: FromName(Name(o)) == Some(o) && FromValue(Value(o)) == Some(o)
    ensures forall s :: FromName(s).Some? ==> Name(FromName(s).value) == s
    ensures forall o1, o2 :: Name(o1) == Name(o2) ==> o1 == o2
  {
    forall o ensures FromName(Name(o)) == Some(o) && FromValue(Value(o)) == Some(o) {
      FromNameOfName(o);
      FromValueOfValue(o);
    }
  }

  /** The register family is exactly `{0}`. */
  lemma RegisterFamilyIsZero(v: int)
    ensures IsRegisterOpcode(v) <==> v == 0
  {
  }

  /** The jump family is exactly `{2, 3, 26}`. */
  lemma JumpFamilyValues(v: int)
    ensures IsJumpOpcode(v) <==> v == 2 || v == 3 || v == 26
  {
  }

  /** The immediate family is the known opcodes minus `REG` and the jump family. */
  lemma ImmediateFamilyValues(v: int)
    ensures IsImmediateOpcode(v) <==> IsKnownOpcode(v) && !IsRegisterOpcode(v) && !IsJumpOpcode(v)
    ensures IsImmediateOpcode(v) <==>
      (4 <= v <= 14) || v == 24 || v == 25 || v == 32 || v == 33 || (35 <= v <= 37)
      || v == 40 || v == 41 || v == 43
  {
    FamiliesPartition(v);
    ImmediateValues(v);
  }

  lemma ImmediateValues(v: int)
    ensures IsImmediateOpcode(v) <==>
      (4 <= v <= 14) || v == 24 || v == 25 || v == 32 || v == 33 || (35 <= v <= 37)
      || v == 40 || v == 41 || v == 43
  {
  }

  /** Every known opcode lies in exactly one family; an unknown one in none. */
  lemma FamiliesPartition(v: int)
    ensures IsKnownOpcode(v) <==> IsRegisterOpcode(v) || IsImmediateOpcode(v) || IsJumpOpcode(v)
    ensures !(IsRegisterOpcode(v) && IsJumpOpcode(v))
    ensures !(IsRegisterOpcode(v) && IsImmediateOpcode(v))
    ensures !(IsJumpOpcode(v) && IsImmediateOpcode(v))
  {
  }

  /** The 6-bit values that no family claims. */
  lemma UnsupportedValues(v: int)
    requires 0 <= v < 64
    ensures !IsKnownOpcode(v) <==>
      v == 1 || (15 <= v <= 23) || (27 <= v <= 31) || v == 34 || v == 38 || v == 39
      || v == 42 || v >= 44
  {
  }

  /** The five subgroups partition exactly the immediate family. */
  lemma ImmediateGroupsPartition(o: Opcode)
    ensures ImmediateGroupOf(o).Some? <==> FamilyOf(o) == Immediate
  {
  }
}
