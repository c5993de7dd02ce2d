/**
 * The mnemonic parser: a line of text becomes a partial instruction record.
 * A line of one to eight upper-case hexadecimal digits (after an optional
 * `0x`) goes to the raw-word decoder; any other line is split into a
 * mnemonic and operand tokens, and the tokens fill the mnemonic's operand
 * roles in order.
 */
module Parse {
  import opened Wrappers
  import opened JsString
  import opened JsNumber
  import Op
  import opened Instruction
  import opened Funct
  import opened Reg
  import Args

  // ---------------------------------------------------------------------
  // Operand tokens
  // ---------------------------------------------------------------------

  /** `tryParseRegister`: a `$` followed by the name of a register. */
  function TryParseRegister(regs: RegTable, val: string): (r: Option<int>)
    ensures regs.Valid() && r.Some? ==> 0 <= r.value < 32 && val == "$" + regs.nameOf[r.value]
  {
    if StartsWith(val, "$") && val[1..] in regs.numberOf then
      assert val == "$" + val[1..];
      Some(regs.numberOf[val[1..]])
    else None
  }

  /** A token resolves to register `n` exactly when it is `$` and the name of `n`. */
  lemma RegisterTokenIff(regs: RegTable, val: string, n: int)
    requires regs.Valid()
    ensures TryParseRegister(regs, val) == Some(n) <==> 0 <= n < 32 && val == "$" + regs.nameOf[n]
  {
    if TryParseRegister(regs, val) == Some(n) {
      assert val == "$" + val[1..];
    }
    if 0 <= n < 32 && val == "$" + regs.nameOf[n] {
      assert val[1..] == regs.nameOf[n];
    }
  }

  /**
   * An `imm` or `shamt` token: decimal, or, after a `0x` prefix, octal (the
   * radix the source passes is 8).
   */
  function ParseNumber(val: string): (r: Option<int>)
    ensures !StartsWith(val, "0x") && |val| >= 1 && AllDigits(val, 10) ==> r == Some(DigitsValue(val, 10))
    ensures StartsWith(val, "0x") && |val| >= 3 && AllDigits(val[2..], 8) ==> r == Some(DigitsValue(val[2..], 8))
  {
    NumberDigits(val);
    if StartsWith(val, "0x") then ParseInt(val[2..], 8) else ParseInt(val, 10)
  }

  /** A string of digits only is read as their value, in either radix the operand reader uses. */
  lemma NumberDigits(val: string)
    ensures |val| >= 1 && AllDigits(val, 10) ==> ParseInt(val, 10) == Some(DigitsValue(val, 10))
    ensures |val| >= 3 && AllDigits(val[2..], 8) ==> ParseInt(val[2..], 8) == Some(DigitsValue(val[2..], 8))
  {
    if |val| >= 1 && AllDigits(val, 10) {
      PlainDigitsParse(val, 10);
    }
    if |val| >= 3 && AllDigits(val[2..], 8) {
      PlainDigitsParse(val[2..], 8);
    }
  }

  lemma PlainDigitsParse(ds: string, radix: Radix)
    requires |ds| >= 1 && AllDigits(ds, radix) && radix <= 16
    ensures ParseInt(ds, radix) == Some(DigitsValue(ds, radix))
  {
    ReadPlainDigits(ds, radix);
    DigitIsPlain(ds[0], radix);
  }

  /** A `0x` operand is read in radix 8: `0x10` is eight, `10` is ten, `0x9` is not a number. */
  lemma ParseNumberRadix()
    ensures ParseNumber("0x10") == Some(8)
    ensures ParseNumber("10") == Some(10)
    ensures ParseNumber("0x9").None?
  {
    PrefixedTenIsEight();
    TenIsTen();
    PrefixedNineIsNaN();
  }

  lemma PrefixedTenIsEight()
    ensures ParseNumber("0x10") == Some(8)
  {
    var s := "0x10";
    assert s[..2] == "0x" && s[2..] == "10";
    PrefixedIsOctal(s);
    OctalTen();
  }

  /** A `0x` operand is the rest read in radix 8. */
  lemma PrefixedIsOctal(val: string)
    requires StartsWith(val, "0x")
    ensures ParseNumber(val) == ParseInt(val[2..], 8)
  {
  }

  lemma OctalTen()
    ensures ParseInt("10", 8) == Some(8)
  {
    var ten := "10";
    ReadPlainDigits(ten, 8);
    assert ten[..1] == "1" && "1"[..0] == "";
    assert DigitsValue(ten, 8) == 8;
  }

  lemma TenIsTen()
    ensures ParseNumber("10") == Some(10)
  {
    var ten := "10";
    assert AllDigits(ten, 10);
    assert !StartsWith(ten, "0x") by { assert ten[..2][0] == '1'; }
    assert ten[..1] == "1" && "1"[..0] == "";
    assert DigitsValue(ten, 10) == 10;
  }

  lemma PrefixedNineIsNaN()
    ensures ParseNumber("0x9").None?
  {
    var nine := "9";
    assert "0x9"[2..] == nine;
    assert TrimStart(nine) == nine by {
      DigitIsPlain('9', 10);
    }
    assert DigitPrefixLength(nine, 8) == 0;
  }

  /** The token at `k`; a missing token (`undefined`) is the empty string. */
  function Token(input: seq<string>, k: nat): string {
    if k < |input| then input[k] else ""
  }

  predicate IsRegisterRole(r: Role) {
    r == Rd || r == Rs || r == Rt
  }

  /** The value a non-empty token gives a role. */
  function ResolveRole(regs: RegTable, role: Role, val: string): Option<int> {
    if IsRegisterRole(role) then TryParseRegister(regs, val) else ParseNumber(val)
  }

  /** What a role receives from its token: nothing when the token is empty or missing. */
  function Resolved(regs: RegTable, role: Role, val: string): Option<int> {
    if val == "" then None else ResolveRole(regs, role, val)
  }

  // ---------------------------------------------------------------------
  // Filling a record (`makeInstImpl`)
  // ---------------------------------------------------------------------

  /** The roles of `xs` that are not in `keys`, in their order in `xs`. */
  function Without(xs: seq<Role>, keys: seq<Role>): (r: seq<Role>)
    ensures forall x :: x in r <==> x in xs && x !in keys
    ensures |r| <= |xs|
  {
    if xs == [] then []
    else (if xs[0] in keys then [] else [xs[0]]) + Without(xs[1..], keys)
  }

  /** `getSkipped`: the family's roles that the role list does not name. */
  function GetSkipped(f: Op.Family, keys: seq<Role>): (r: seq<Role>)
    ensures forall x :: x in r <==> x in FamilyRoles(f) && x !in keys
  {
    Without(FamilyRoles(f), keys)
  }

  /** The record before any operand: `{op: REG, funct}` or `{op}`. */
  function Initial(f: Op.Family, code: int): PartialInstruction {
    if f == Op.Register then Empty.(op := Some(0), funct := Some(code)) else Empty.(op := Some(code))
  }

  /** Sets every role of `roles` to 0, one after the other. */
  function ZeroAll(p: PartialInstruction, roles: seq<Role>): (r: PartialInstruction)
    ensures r.op == p.op && r.funct == p.funct
    ensures forall x :: r.Get(x) == if x in roles then Some(0) else p.Get(x)
    decreases |roles|
  {
    if roles == [] then p
    else
      assert roles == roles[..|roles| - 1] + [roles[|roles| - 1]];
      ZeroAll(p, roles[..|roles| - 1]).With(roles[|roles| - 1], Some(0))
  }

  /**
   * Each role of `keys` takes the next token, in order; an empty or missing
   * token is consumed and leaves the role as it was.
   */
  function Fill(regs: RegTable, p: PartialInstruction, keys: seq<Role>, input: seq<string>): PartialInstruction
    decreases |keys|
  {
    if keys == [] then p
    else
      var val := Token(input, 0);
      var rest := if |input| > 0 then input[1..] else [];
      var next := if val == "" then p else p.With(keys[0], ResolveRole(regs, keys[0], val));
      Fill(regs, next, keys[1..], rest)
  }

  /** The record `makeInstImpl` returns. */
  function MakeInst(regs: RegTable, f: Op.Family, code: int, input: seq<string>, keys: seq<Role>): PartialInstruction {
    Fill(regs, ZeroAll(Initial(f, code), GetSkipped(f, keys)), keys, input)
  }

  lemma {:induction false} FillFields(regs: RegTable, p: PartialInstruction, keys: seq<Role>, input: seq<string>)
    requires Distinct(keys)
    ensures Fill(regs, p, keys, input).op == p.op
    ensures Fill(regs, p, keys, input).funct == p.funct
    ensures forall x :: x !in keys ==> Fill(regs, p, keys, input).Get(x) == p.Get(x)
    ensures forall k :: 0 <= k < |keys| ==>
              Fill(regs, p, keys, input).Get(keys[k]) ==
                if Token(input, k) == "" then p.Get(keys[k]) else ResolveRole(regs, keys[k], Token(input, k))
    decreases |keys|
  {
    if keys != [] {
      var val := Token(input, 0);
      var rest := if |input| > 0 then input[1..] else [];
      var next := if val == "" then p else p.With(keys[0], ResolveRole(regs, keys[0], val));
      assert Distinct(keys[1..]);
      FillFields(regs, next, keys[1..], rest);
      assert keys[0] !in keys[1..];
      forall k | 1 <= k < |keys|
        ensures Token(rest, k - 1) == Token(input, k) && keys[1..][k - 1] == keys[k] && keys[k] != keys[0]
      {
      }
    }
  }

  /**
   * `makeInstImpl` in closed form: the opcode (and function code) set first,
   * every family role missing from `keys` set to 0, role `keys[k]` taken from
   * token `k` (missing when that token is empty), and no other field set.
   */
  lemma MakeInstFields(regs: RegTable, f: Op.Family, code: int, input: seq<string>, keys: seq<Role>)
    requires Distinct(keys)
    ensures MakeInst(regs, f, code, input, keys).op == if f == Op.Register then Some(0) else Some(code)
    ensures MakeInst(regs, f, code, input, keys).funct == if f == Op.Register then Some(code) else None
    ensures forall x :: x !in keys ==>
              MakeInst(regs, f, code, input, keys).Get(x) == if x in FamilyRoles(f) then Some(0) else None
    ensures forall k :: 0 <= k < |keys| ==>
              MakeInst(regs, f, code, input, keys).Get(keys[k]) == Resolved(regs, keys[k], Token(input, k))
  {
    var z := ZeroAll(Initial(f, code), GetSkipped(f, keys));
    FillFields(regs, z, keys, input);
    forall k | 0 <= k < |keys| ensures z.Get(keys[k]) == None {
      assert keys[k] in keys;
    }
  }

  /** Two records are equal when their opcode, function code and every role agree. */
  lemma RecordsEqual(p: PartialInstruction, q: PartialInstruction)
    requires p.op == q.op && p.funct == q.funct
    requires forall x :: p.Get(x) == q.Get(x)
    ensures p == q
  {
    assert p.Get(Rd) == q.Get(Rd) && p.Get(Rs) == q.Get(Rs) && p.Get(Rt) == q.Get(Rt);
    assert p.Get(Shamt) == q.Get(Shamt) && p.Get(Imm) == q.Get(Imm);
  }

  /** One step of `Fill`: the first key takes the first token, unless it is empty. */
  lemma FillStep(regs: RegTable, p: PartialInstruction, keys: seq<Role>, input: seq<string>)
    requires |keys| > 0
    ensures Fill(regs, p, keys, input) ==
      Fill(regs, if Token(input, 0) == "" then p else p.With(keys[0], ResolveRole(regs, keys[0], Token(input, 0))),
           keys[1..], if |input| > 0 then input[1..] else [])
  {
  }

  /** `makeInstImpl`, filling the record field by field and shifting tokens off the input. */
  method MakeInstImpl(regs: RegTable, f: Op.Family, code: int, input: seq<string>, keys: seq<Role>)
    returns (inst: PartialInstruction)
    ensures inst == MakeInst(regs, f, code, input, keys)
  {
    if f == Op.Register {
      inst := Empty.(op := Some(0), funct := Some(code));
    } else {
      inst := Empty.(op := Some(code));
    }
    var skipped := GetSkipped(f, keys);
    for i := 0 to |skipped|
      invariant inst == ZeroAll(Initial(f, code), skipped[..i])
    {
      assert skipped[..i + 1][..i] == skipped[..i];
      inst := inst.With(skipped[i], Some(0));
    }
    assert skipped[..|skipped|] == skipped;
    var rest := input;
    for i := 0 to |keys|
      invariant Fill(regs, inst, keys[i..], rest) == MakeInst(regs, f, code, input, keys)
    {
      FillStep(regs, inst, keys[i..], rest);
      assert keys[i..][1..] == keys[i + 1..];
      var val := "";
      if |rest| > 0 {
        val := rest[0];
        rest := rest[1..];
      }
      if val == "" {
        continue;
      }
      match keys[i]
      case Rd | Rs | Rt =>
        inst := inst.With(keys[i], TryParseRegister(regs, val));
      case Imm | Shamt =>
        var radix: Radix := 10;
        if StartsWith(val, "0x") {
          val := val[2..];
          radix := 8;
        }
        inst := inst.With(keys[i], ParseInt(val, radix));
    }
  }

  // ---------------------------------------------------------------------
  // The four record makers
  // ---------------------------------------------------------------------

  /** `makeR`: a register-family record for function `name`. */
  function MakeR(regs: RegTable, ft: FunctTable, name: string, input: seq<string>, keys: seq<Role>): (r: PartialInstruction)
    requires name in ft.codeOf
    ensures r.op == Some(0) && r.funct == Some(ft.codeOf[name])
  {
    MakeInstFieldsOpcode(regs, Op.Register, ft.codeOf[name], input, keys);
    MakeInst(regs, Op.Register, ft.codeOf[name], input, keys)
  }

  /** `makeI`: an immediate-family record for opcode `name`. */
  function MakeI(regs: RegTable, name: string, input: seq<string>, keys: seq<Role>): (r: PartialInstruction)
    requires Op.NamesFamily(name, Op.Immediate)
    ensures r.op == Some(Op.Value(Op.FromName(name).value)) && Op.IsImmediateOpcode(r.op.value)
    ensures r.funct == None
  {
    var code := Op.Value(Op.FromName(name).value);
    Op.FromValueOfValue(Op.FromName(name).value);
    MakeInstFieldsOpcode(regs, Op.Immediate, code, input, keys);
    MakeInst(regs, Op.Immediate, code, input, keys)
  }

  /** `makeJ`: a jump-family record for opcode `name`. */
  function MakeJ(regs: RegTable, name: string, input: seq<string>, keys: seq<Role>): (r: PartialInstruction)
    requires Op.NamesFamily(name, Op.Jump)
    ensures r.op == Some(Op.Value(Op.FromName(name).value)) && Op.IsJumpOpcode(r.op.value)
    ensures r.funct == None
  {
    var code := Op.Value(Op.FromName(name).value);
    Op.FromValueOfValue(Op.FromName(name).value);
    MakeInstFieldsOpcode(regs, Op.Jump, code, input, keys);
    MakeInst(regs, Op.Jump, code, input, keys)
  }

  lemma MakeInstFieldsOpcode(regs: RegTable, f: Op.Family, code: int, input: seq<string>, keys: seq<Role>)
    ensures MakeInst(regs, f, code, input, keys).op == if f == Op.Register then Some(0) else Some(code)
    ensures MakeInst(regs, f, code, input, keys).funct == if f == Op.Register then Some(code) else None
  {
    FillOpcode(regs, ZeroAll(Initial(f, code), GetSkipped(f, keys)), keys, input);
  }

  lemma {:induction false} FillOpcode(regs: RegTable, p: PartialInstruction, keys: seq<Role>, input: seq<string>)
    ensures Fill(regs, p, keys, input).op == p.op && Fill(regs, p, keys, input).funct == p.funct
    decreases |keys|
  {
    if keys != [] {
      var val := Token(input, 0);
      var rest := if |input| > 0 then input[1..] else [];
      var next := if val == "" then p else p.With(keys[0], ResolveRole(regs, keys[0], val));
      FillOpcode(regs, next, keys[1..], rest);
    }
  }

  /** `imm(rs)` written as one token: it contains `(` and ends with `)`. */
  predicate IsParenAddress(t: string) {
    Contains(t, '(') && EndsWith(t, ")")
  }

  /**
   * The token list `makeLS` hands on. When token 2 is `imm(rs)` it is split at
   * `(` into `imm` and `rs` minus its last character, placed at indices 2 and
   * 3; otherwise a non-empty token 3 loses one pair of surrounding
   * parentheses and the list is cut after it.
   */
  function LoadStoreOperands(input: seq<string>): (r: seq<string>)
    ensures Token(r, 0) == Token(input, 0) && Token(r, 1) == Token(input, 1)
    ensures Token(r, 2) == BaseSource(Token(input, 2))
  {
    if IsParenAddress(Token(input, 2)) then SplitAddress(input) else StripBase(input)
  }

  /** Token 2 is `imm(rs)`: `imm` and `rs` minus its last character replace it. */
  function SplitAddress(input: seq<string>): (r: seq<string>)
    requires IsParenAddress(Token(input, 2))
    ensures Token(r, 0) == Token(input, 0) && Token(r, 1) == Token(input, 1)
    ensures Token(r, 2) == BaseSource(Token(input, 2))
  {
    var second := Token(input, 2);
    var i := IndexOf(second, '(');
    var after := second[i + 1..];
    var rs := after[..IndexOf(after, '(')];
    var tail := [second[..i], if |rs| > 0 then rs[..|rs| - 1] else ""];
    KeepPrefixTokens(input, 2, tail);
    input[..2] + tail
  }

  /** Token 2 is not `imm(rs)`: a non-empty token 3 loses one pair of parentheses. */
  function StripBase(input: seq<string>): (r: seq<string>)
    requires !IsParenAddress(Token(input, 2))
    ensures Token(r, 0) == Token(input, 0) && Token(r, 1) == Token(input, 1)
    ensures Token(r, 2) == BaseSource(Token(input, 2))
  {
    var rsIn := Token(input, 3);
    if rsIn == "" then input
    else
      var stripped := if StartsWith(rsIn, "(") && EndsWith(rsIn, ")") then
          assert rsIn[0] == '(' && rsIn[|rsIn| - 1] == ')';
          rsIn[1..|rsIn| - 1]
        else rsIn;
      KeepPrefixTokens(input, 3, [stripped]);
      input[..3] + [stripped]
  }

  /** Cutting the token list after `m` tokens and appending keeps the first `m`. */
  lemma KeepPrefixTokens(input: seq<string>, m: nat, tail: seq<string>)
    requires 2 <= m <= |input|
    ensures Token(input[..m] + tail, 0) == Token(input, 0) && Token(input[..m] + tail, 1) == Token(input, 1)
    ensures m >= 3 ==> Token(input[..m] + tail, 2) == Token(input, 2)
    ensures m == 2 && |tail| >= 1 ==> Token(input[..m] + tail, 2) == tail[0]
  {
  }

  /** `makeLS`: a load/store record, always with the roles `[rt, imm, rs]`. */
  function MakeLS(regs: RegTable, name: string, input: seq<string>): (r: PartialInstruction)
    requires Op.NamesImmediateGroup(name, Op.LoadStore)
    ensures r.op == Some(Op.Value(Op.FromName(name).value)) && r.funct == None
  {
    var code := Op.Value(Op.FromName(name).value);
    MakeInstFieldsOpcode(regs, Op.Immediate, code, LoadStoreOperands(input), [Rt, Imm, Rs]);
    MakeInst(regs, Op.Immediate, code, LoadStoreOperands(input), [Rt, Imm, Rs])
  }

  /** The text `makeLS` ends up reading the base register from: token 2, up to any `(`. */
  function BaseSource(t: string): string {
    if IsParenAddress(t) then t[..IndexOf(t, '(')] else t
  }

  /**
   * What `makeLS` produces: `rt` from token 0, `imm` from token 1, and `rs`
   * from the part of token 2 before any `(`. The register written inside
   * parentheses never reaches `rs`, and token 3 is never read.
   */
  lemma LoadStoreFields(regs: RegTable, name: string, input: seq<string>)
    requires Op.NamesImmediateGroup(name, Op.LoadStore)
    ensures MakeLS(regs, name, input).rt == Resolved(regs, Rt, Token(input, 0))
    ensures MakeLS(regs, name, input).imm == Resolved(regs, Imm, Token(input, 1))
    ensures MakeLS(regs, name, input).rs == Resolved(regs, Rs, BaseSource(Token(input, 2)))
    ensures MakeLS(regs, name, input).rd == None && MakeLS(regs, name, input).shamt == None
  {
    var ops := LoadStoreOperands(input);
    var code := Op.Value(Op.FromName(name).value);
    assert MakeLS(regs, name, input) == MakeInst(regs, Op.Immediate, code, ops, [Rt, Imm, Rs]);
    ImmediateThreeFields(regs, code, ops, [Rt, Imm, Rs]);
  }

  /** The fields an immediate record built from the roles `rt`, `imm`, `rs` takes from `ops`. */
  lemma ImmediateThreeFields(regs: RegTable, code: int, ops: seq<string>, keys: seq<Role>)
    requires keys == [Rt, Imm, Rs]
    ensures MakeInst(regs, Op.Immediate, code, ops, keys).rt == Resolved(regs, Rt, Token(ops, 0))
    ensures MakeInst(regs, Op.Immediate, code, ops, keys).imm == Resolved(regs, Imm, Token(ops, 1))
    ensures MakeInst(regs, Op.Immediate, code, ops, keys).rs == Resolved(regs, Rs, Token(ops, 2))
    ensures MakeInst(regs, Op.Immediate, code, ops, keys).rd == None
    ensures MakeInst(regs, Op.Immediate, code, ops, keys).shamt == None
  {
    var p := MakeInst(regs, Op.Immediate, code, ops, keys);
    MakeInstThree(regs, Op.Immediate, code, ops, Rt, Imm, Rs);
    FieldsOfGet(p);
    assert p.Get(Rd) == None by { assert Rd !in FamilyRoles(Op.Immediate); }
    assert p.Get(Shamt) == None by { assert Shamt !in FamilyRoles(Op.Immediate); }
  }

  // ---------------------------------------------------------------------
  // Tokenising and dispatch (`parsePartialInstruction`)
  // ---------------------------------------------------------------------

  /** The mnemonic and the operand tokens of a line. */
  datatype Tokens = Tokens(first: string, rest: seq<string>)

  /**
   * Splits on commas (with the white space around them), then splits the
   * first segment on white space and keeps its first two words only.
   */
  function Tokenise(input: string): (t: Tokens)
    ensures |t.rest| == |SplitComma(input)|
  {
    var segments := SplitComma(input);
    var words := SplitWhitespace(segments[0]);
    Tokens(words[0], [if |words| >= 2 then words[1] else ""] + segments[1..])
  }

  /** The role-list plan chosen by the mnemonic's group. */
  datatype Plan =
    | RegisterPlan(keys: seq<Role>)
    | ImmediatePlan(keys: seq<Role>)
    | LoadStorePlan
    | JumpPlan(keys: seq<Role>)
    | NoPlan

  /** The plan names the right table for `name`. */
  predicate PlanFits(ft: FunctTable, name: string, plan: Plan) {
    match plan
    case RegisterPlan(_) => name in ft.codeOf
    case ImmediatePlan(_) => Op.NamesFamily(name, Op.Immediate)
    case LoadStorePlan => Op.NamesImmediateGroup(name, Op.LoadStore)
    case JumpPlan(_) => Op.NamesFamily(name, Op.Jump)
    case NoPlan => true
  }

  /**
   * The plan's key list is the operand schema's list for the mnemonic's
   * group, except that a move-from function reads `[rd, rt, shamt]`.
   */
  predicate PlanKeysFit(ft: FunctTable, name: string, plan: Plan) {
    match plan
    case RegisterPlan(keys) =>
      name in ft.codeOf && ft.codeOf[name] in ft.groupOf
      && keys == (if ft.groupOf[ft.codeOf[name]] == MoveFrom then [Rd, Rt, Shamt]
                  else Args.FunctGroupRoles(ft.groupOf[ft.codeOf[name]]))
    case ImmediatePlan(keys) =>
      Op.FromName(name).Some? && Op.ImmediateGroupOf(Op.FromName(name).value).Some?
      && keys == Args.ImmediateGroupRoles(Op.ImmediateGroupOf(Op.FromName(name).value).value)
    case LoadStorePlan => true
    case JumpPlan(keys) => Args.RequiredJumpArguments(Args.Named(name)) == Some(keys)
    case NoPlan => true
  }

  /** The group tests of `parsePartialInstruction`, in their order. */
  function PlanOf(ft: FunctTable, name: string): (plan: Plan)
    ensures PlanFits(ft, name, plan)
    ensures PlanKeysFit(ft, name, plan)
  {
    if ft.NameInGroup(name, Arithmetic) then RegisterPlan([Rd, Rs, Rt])
    else if ft.NameInGroup(name, Multiplication) then RegisterPlan([Rs, Rt])
    else if ft.NameInGroup(name, Shift) then RegisterPlan([Rd, Rt, Shamt])
    else if ft.NameInGroup(name, ShiftV) then RegisterPlan([Rd, Rt, Rs])
    else if ft.NameInGroup(name, JumpReg) || ft.NameInGroup(name, MoveTo) then RegisterPlan([Rs])
    else if ft.NameInGroup(name, MoveFrom) then RegisterPlan([Rd, Rt, Shamt])
    else if Op.NamesImmediateGroup(name, Op.Arithmetic) then ImmediatePlan([Rt, Rs, Imm])
    else if Op.NamesImmediateGroup(name, Op.Load) then ImmediatePlan([Rt, Imm])
    else if Op.NamesImmediateGroup(name, Op.Branch) then ImmediatePlan([Rs, Rt, Imm])
    else if Op.NamesImmediateGroup(name, Op.BranchZ) then ImmediatePlan([Rs, Imm])
    else if Op.NamesImmediateGroup(name, Op.LoadStore) then LoadStorePlan
    else if Op.NamesFamily(name, Op.Jump) then JumpPlan([Imm])
    else NoPlan
  }

  function RunPlan(regs: RegTable, ft: FunctTable, name: string, plan: Plan, rest: seq<string>): PartialInstruction
    requires PlanFits(ft, name, plan)
  {
    match plan
    case RegisterPlan(keys) => MakeR(regs, ft, name, rest, keys)
    case ImmediatePlan(keys) => MakeI(regs, name, rest, keys)
    case LoadStorePlan => MakeLS(regs, name, rest)
    case JumpPlan(keys) => MakeJ(regs, name, rest, keys)
    case NoPlan => Empty
  }

  function DropHexPrefix(s: string): string {
    if StartsWith(s, "0x") then s[2..] else s
  }

  /** `/^[0-9A-F]{1,8}$/`. */
  predicate IsHexWord(s: string) {
    1 <= |s| <= 8 && AllUpperHex(s)
  }

  /** `parseInt(s, 16)` of a hex word: the value of its digits. */
  lemma HexWordParses(s: string)
    requires IsHexWord(s)
    ensures AllDigits(s, 16)
    ensures ParseInt(s, 16) == Some(DigitsValue(s, 16))
  {
    assert AllDigits(s, 16);
    assert s + "" == s;
    ParseIntDigitPrefix(s, "", 16);
  }

  /** `parseInt(s, 16)` of a hex word. */
  function RawWord(s: string): (w: int)
    requires IsHexWord(s)
    ensures w >= 0 && Some(w) == ParseInt(s, 16)
  {
    HexWordParses(s);
    DigitsValue(s, 16)
  }

  /**
   * `parsePartialInstruction`. `Throws` is the decoder's error, which the
   * parser does not catch.
   */
  function ParsePartialInstruction(regs: RegTable, ft: FunctTable, codec: RawCodec, line: string)
    : (r: Outcome<PartialInstruction>)
    ensures r.Throws? ==> IsHexWord(DropHexPrefix(line)) && codec.decode(RawWord(DropHexPrefix(line))).None?
  {
    var input := DropHexPrefix(line);
    if IsHexWord(input) then
      match codec.decode(RawWord(input))
      case None => Throws
      case Some(i) => Returns(ToPartial(i))
    else
      var t := Tokenise(input);
      if t.first == "" then Returns(Empty)
      else Returns(RunPlan(regs, ft, t.first, PlanOf(ft, t.first), t.rest))
  }

  // ---------------------------------------------------------------------
  // Properties of the parser
  // ---------------------------------------------------------------------

  /**
   * A hexadecimal word, with or without `0x`, goes straight to the codec:
   * the record is the decoded word's, and a word the codec rejects throws.
   */
  lemma ParseHexLine(regs: RegTable, ft: FunctTable, codec: RawCodec, s: string, prefixed: bool)
    requires IsHexWord(s)
    ensures var line := if prefixed then "0x" + s else s;
      DropHexPrefix(line) == s
      && ParsePartialInstruction(regs, ft, codec, line)
         == match codec.decode(RawWord(s)) case None => Throws case Some(i) => Returns(ToPartial(i))
  {
    var line := if prefixed then "0x" + s else s;
    if prefixed {
      assert line[2..] == s;
    } else if |s| >= 2 {
      assert s[1] != 'x' by { assert IsUpperHexDigit(s[1]); }
    }
  }

  /**
   * The parser fails only on a hex word the decoder rejects; a hex word the
   * decoder accepts yields the complete decoded record, which is well formed.
   */
  lemma ParseFailsOnlyOnBadWord(regs: RegTable, ft: FunctTable, codec: RawCodec, line: string)
    requires codec.Valid(ft)
    ensures ParsePartialInstruction(regs, ft, codec, line).Throws? <==>
              IsHexWord(DropHexPrefix(line)) && codec.decode(RawWord(DropHexPrefix(line))).None?
    ensures IsHexWord(DropHexPrefix(line)) && codec.decode(RawWord(DropHexPrefix(line))).Some? ==>
              ParsePartialInstruction(regs, ft, codec, line) == Returns(ToPartial(codec.decode(RawWord(DropHexPrefix(line))).value))
              && WellFormed(codec.decode(RawWord(DropHexPrefix(line))).value)
              && Supported(ft, codec.decode(RawWord(DropHexPrefix(line))).value)
  {
  }

  /**
   * A hex word that spells the encoding of a well-formed instruction whose
   * function code (if any) is supported parses back to that instruction.
   */
  lemma EncodedWordParses(regs: RegTable, ft: FunctTable, codec: RawCodec, i: Instruction, s: string, prefixed: bool)
    requires codec.Valid(ft) && WellFormed(i) && Supported(ft, i)
    requires IsHexWord(s) && RawWord(s) == codec.encode(ToPartial(i))
    ensures ParsePartialInstruction(regs, ft, codec, if prefixed then "0x" + s else s) == Returns(ToPartial(i))
  {
    ParseHexLine(regs, ft, codec, s, prefixed);
  }

  /** A mnemonic in no group yields `{}`, and so does a line whose first word is empty. */
  lemma UnknownMnemonicIsEmpty(regs: RegTable, ft: FunctTable, codec: RawCodec, line: string)
    requires !IsHexWord(DropHexPrefix(line))
    requires PlanOf(ft, Tokenise(DropHexPrefix(line)).first) == NoPlan || Tokenise(DropHexPrefix(line)).first == ""
    ensures ParsePartialInstruction(regs, ft, codec, line) == Returns(Empty)
  {
  }

  /** The plan is missing exactly for a name that no table knows. */
  lemma NoPlanIffUnknown(ft: FunctTable, name: string)
    ensures PlanOf(ft, name) == NoPlan <==>
              !Args.IsFunctId(ft, Args.Named(name)) && !Op.NamesFamily(name, Op.Immediate) && !Op.NamesFamily(name, Op.Jump)
  {
    if Op.FromName(name).Some? {
      Op.ImmediateGroupsPartition(Op.FromName(name).value);
    }
    if name in ft.codeOf && ft.codeOf[name] in ft.groupOf {
      assert ft.NameInGroup(name, ft.groupOf[ft.codeOf[name]]);
    }
  }

  /** The empty line and a line that starts with white space both yield `{}`. */
  lemma BlankStartIsEmpty(regs: RegTable, ft: FunctTable, codec: RawCodec, line: string)
    requires line == "" || IsSpace(line[0])
    ensures ParsePartialInstruction(regs, ft, codec, line) == Returns(Empty)
  {
    assert DropHexPrefix(line) == line;
    if line != "" {
      assert !IsHexWord(line) by {
        assert !IsUpperHexDigit(line[0]);
      }
      var segments := SplitComma(line);
      var i := IndexOf(line, ',');
      if i < |line| {
        assert segments[0] == TrimEnd(line[..i]);
        var seg := line[..i];
        assert |seg| > 0 && IsSpace(seg[0]);
        var t := TrimEnd(seg);
        if |t| > 0 {
          assert t[0] == seg[0];
          assert IndexOfSpace(t) == 0;
        }
      } else {
        assert segments[0] == line;
        assert IndexOfSpace(line) == 0;
      }
    }
  }

  /**
   * The family of a parsed mnemonic record: `op` is `REG` with the function's
   * code exactly for a function name; otherwise `op` is the mnemonic's own
   * opcode and there is no `funct`.
   */
  lemma ParsedOpcode(regs: RegTable, ft: FunctTable, name: string, rest: seq<string>)
    requires PlanOf(ft, name) != NoPlan
    ensures var r := RunPlan(regs, ft, name, PlanOf(ft, name), rest);
      if PlanOf(ft, name).RegisterPlan? then r.op == Some(0) && r.funct == Some(ft.codeOf[name])
      else r.op == Some(Op.Value(Op.FromName(name).value)) && r.funct == None
           && (Op.IsImmediateOpcode(r.op.value) || Op.IsJumpOpcode(r.op.value))
  {
    PlanOpcode(regs, ft, name, PlanOf(ft, name), rest);
  }

  /** The `op` and `funct` a fitting plan writes. */
  lemma PlanOpcode(regs: RegTable, ft: FunctTable, name: string, plan: Plan, rest: seq<string>)
    requires PlanFits(ft, name, plan) && plan != NoPlan
    ensures var r := RunPlan(regs, ft, name, plan, rest);
      if plan.RegisterPlan? then r.op == Some(0) && r.funct == Some(ft.codeOf[name])
      else r.op == Some(Op.Value(Op.FromName(name).value)) && r.funct == None
           && (Op.IsImmediateOpcode(r.op.value) || Op.IsJumpOpcode(r.op.value))
  {
    if plan.LoadStorePlan? {
      var o := Op.FromName(name).value;
      Op.FromValueOfValue(o);
      Op.ImmediateGroupsPartition(o);
      assert Op.FamilyOfValue(Op.Value(o)) == Some(Op.Immediate);
    }
  }

  /**
   * The parser's role lists agree with the operand schema for every group
   * but move-from, which the parser reads as `[rd, rt, shamt]` and the schema
   * gives as `[rd]`.
   */
  lemma ParserAgreesWithSchema(ft: FunctTable, name: string)
    requires ft.Valid()
    ensures match PlanOf(ft, name)
      case RegisterPlan(keys) =>
        if ft.NameInGroup(name, MoveFrom)
        then keys == [Rd, Rt, Shamt] && Args.RequiredArguments(ft, name) == Some(Args.InstructionArguments(Op.Register, [Rd]))
        else Args.RequiredArguments(ft, name) == Some(Args.InstructionArguments(Op.Register, keys))
      case ImmediatePlan(keys) => Args.RequiredArguments(ft, name) == Some(Args.InstructionArguments(Op.Immediate, keys))
      case LoadStorePlan => Args.RequiredArguments(ft, name) == Some(Args.InstructionArguments(Op.Immediate, [Rt, Imm, Rs]))
      case JumpPlan(keys) => Args.RequiredArguments(ft, name) == Some(Args.InstructionArguments(Op.Jump, keys))
      case NoPlan => Args.RequiredArguments(ft, name).None?
  {
    Args.RequiredArgumentsFamily(ft, name);
    Args.ImmArgumentsExactlyImmediate(Args.Named(name));
    NoPlanIffUnknown(ft, name);
    if name in ft.codeOf && ft.codeOf[name] in ft.groupOf {
      assert ft.NameInGroup(name, ft.groupOf[ft.codeOf[name]]);
    }
    if Op.FromName(name).Some? {
      Op.ImmediateGroupsPartition(Op.FromName(name).value);
    }
  }

  /** A register operand `$name` is one comma-free word without white space. */
  lemma RegisterTokenIsWord(regs: RegTable, a: string)
    requires regs.Valid() && a in regs.numberOf
    ensures var t := "$" + a; |t| > 0 && NoSpace(t) && NoChar(t, ',') && Trimmed(t)
    ensures TryParseRegister(regs, "$" + a) == Some(regs.numberOf[a])
  {
    IdentifierIsPlainWord(a);
    assert ("$" + a)[1..] == a;
    var t := "$" + a;
    forall i | 1 <= i < |t| ensures t[i] == a[i - 1] {
    }
  }

  lemma ConcatAssoc(p: string, q: string, r: string)
    ensures p + q + r == p + (q + r)
  {
  }

  /** The tokens of a line, given how it splits on commas and on white space. */
  lemma TokeniseOf(input: string, segments: seq<string>, words: seq<string>)
    requires SplitComma(input) == segments && |segments| >= 1
    requires SplitWhitespace(segments[0]) == words && |words| >= 2
    ensures Tokenise(input) == Tokens(words[0], [words[1]] + segments[1..])
  {
  }

  /** `m a`, for an identifier `m` and a word `a`, is comma-free and trimmed. */
  lemma SpacedPairIsSegment(m: string, a: string)
    requires IsIdentifier(m)
    requires |a| > 0 && NoChar(a, ',') && !IsSpace(a[|a| - 1])
    ensures NoChar(m + " " + a, ',') && Trimmed(m + " " + a)
  {
    IdentifierIsPlainWord(m);
    var head := m + " " + a;
    NoCharConcat(m, " ", ',');
    NoCharConcat(m + " ", a, ',');
    assert head[0] == m[0];
    assert head[|head| - 1] == a[|a| - 1];
  }

  /**
   * A line written as the mnemonic, one space, and the operands joined by
   * `, ` splits into exactly that mnemonic and those operand tokens.
   */
  lemma TokeniseCanonical(m: string, ops: seq<string>)
    requires IsIdentifier(m)
    requires |ops| >= 1 && |ops[0]| > 0 && NoSpace(ops[0])
    requires forall k :: 0 <= k < |ops| ==> NoChar(ops[k], ',') && Trimmed(ops[k])
    ensures Tokenise(m + " " + Join(ops, ", ")) == Tokens(m, ops)
  {
    IdentifierIsPlainWord(m);
    var head := m + " " + ops[0];
    var xs := [head] + ops[1..];
    var line := m + " " + Join(ops, ", ");
    assert line == Join(xs, ", ") by {
      JoinPrefix(m + " ", ops, ", ");
    }
    SpacedPairIsSegment(m, ops[0]);
    assert forall k :: 0 <= k < |xs| ==> NoChar(xs[k], ',') && Trimmed(xs[k]) by {
      forall k | 0 <= k < |xs| ensures NoChar(xs[k], ',') && Trimmed(xs[k]) {
        if k > 0 { assert xs[k] == ops[k]; }
      }
    }
    SplitCommaJoin(xs);
    SplitWhitespacePair(m, ops[0]);
    assert xs[1..] == ops[1..];
    TokeniseOf(line, xs, [m, ops[0]]);
    HeadThenRest(ops);
    assert Tokenise(line) == Tokens(m, ops);
  }

  /** A line that starts with a mnemonic is never read as a hex word. */
  lemma MnemonicLineIsText(m: string, tail: string)
    requires IsIdentifier(m)
    ensures DropHexPrefix(m + tail) == m + tail
    ensures !IsHexWord(m + tail)
  {
    assert (m + tail)[0] == m[0];
  }

  /** A canonical line parses as its mnemonic's plan applied to exactly its operand tokens. */
  lemma ParseCanonical(regs: RegTable, ft: FunctTable, codec: RawCodec, m: string, ops: seq<string>)
    requires IsIdentifier(m)
    requires |ops| >= 1 && |ops[0]| > 0 && NoSpace(ops[0])
    requires forall k :: 0 <= k < |ops| ==> NoChar(ops[k], ',') && Trimmed(ops[k])
    ensures ParsePartialInstruction(regs, ft, codec, m + " " + Join(ops, ", "))
            == Returns(RunPlan(regs, ft, m, PlanOf(ft, m), ops))
  {
    CanonicalLineIsText(m, ops);
    ParseTextLine(regs, ft, codec, m + " " + Join(ops, ", "), m, ops);
  }

  /** A canonical line is read as text, and tokenises to its mnemonic and operands. */
  lemma CanonicalLineIsText(m: string, ops: seq<string>)
    requires IsIdentifier(m)
    requires |ops| >= 1 && |ops[0]| > 0 && NoSpace(ops[0])
    requires forall k :: 0 <= k < |ops| ==> NoChar(ops[k], ',') && Trimmed(ops[k])
    ensures var line := m + " " + Join(ops, ", ");
      DropHexPrefix(line) == line && !IsHexWord(line) && Tokenise(line) == Tokens(m, ops)
  {
    var line := m + " " + Join(ops, ", ");
    assert line == m + (" " + Join(ops, ", "));
    MnemonicLineIsText(m, " " + Join(ops, ", "));
    TokeniseCanonical(m, ops);
  }

  /** A line that is not a hex word and tokenises to a mnemonic runs that mnemonic's plan. */
  lemma ParseTextLine(regs: RegTable, ft: FunctTable, codec: RawCodec, line: string, m: string, ops: seq<string>)
    requires DropHexPrefix(line) == line && !IsHexWord(line)
    requires Tokenise(line) == Tokens(m, ops) && m != ""
    ensures ParsePartialInstruction(regs, ft, codec, line) == Returns(RunPlan(regs, ft, m, PlanOf(ft, m), ops))
  {
  }

  /** The tokens of a line whose first comma segment holds three or more words. */
  lemma TokeniseExtraWords(m: string, a: string, extra: string, ops: seq<string>)
    requires IsIdentifier(m)
    requires |a| > 0 && NoSpace(a) && NoChar(a, ',')
    requires |extra| > 0 && NoChar(extra, ',') && Trimmed(extra)
    requires forall k :: 0 <= k < |ops| ==> NoChar(ops[k], ',') && Trimmed(ops[k])
    ensures var line := Join([m + " " + (a + " " + extra)] + ops, ", ");
      Tokenise(line) == Tokens(m, [a] + ops) && line == m + line[|m|..]
  {
    var tail := a + " " + extra;
    var xs := [m + " " + tail] + ops;
    assert NoChar(tail, ',') by {
      NoCharConcat(a, " ", ',');
      NoCharConcat(a + " ", extra, ',');
    }
    assert tail[|tail| - 1] == extra[|extra| - 1];
    SegmentsOfLine(m, tail, ops);
    WordsOfHead(m, a, extra);
    assert xs[1..] == ops;
    TokeniseOf(Join(xs, ", "), xs, SplitWhitespace(xs[0]));
    LineStartsWithMnemonic(m, tail, ops);
  }

  /** A line whose first segment is `m tail` starts with `m`. */
  lemma LineStartsWithMnemonic(m: string, tail: string, ops: seq<string>)
    ensures var line := Join([m + " " + tail] + ops, ", ");
      line == m + line[|m|..]
  {
    var head := m + " " + tail;
    var xs := [head] + ops;
    JoinHead(xs, ", ");
    assert head[..|m|] == m;
    StartsWithTransitive(Join(xs, ", "), head, m);
  }

  /** `m tail, ops...` splits on commas into `m tail` and the operands. */
  lemma SegmentsOfLine(m: string, tail: string, ops: seq<string>)
    requires IsIdentifier(m)
    requires |tail| > 0 && NoChar(tail, ',') && !IsSpace(tail[|tail| - 1])
    requires forall k :: 0 <= k < |ops| ==> NoChar(ops[k], ',') && Trimmed(ops[k])
    ensures SplitComma(Join([m + " " + tail] + ops, ", ")) == [m + " " + tail] + ops
  {
    var xs := [m + " " + tail] + ops;
    SpacedPairIsSegment(m, tail);
    assert forall k :: 0 <= k < |xs| ==> NoChar(xs[k], ',') && Trimmed(xs[k]) by {
      forall k | 0 <= k < |xs| ensures NoChar(xs[k], ',') && Trimmed(xs[k]) {
        if k > 0 { assert xs[k] == ops[k - 1]; }
      }
    }
    SplitCommaJoin(xs);
  }

  /** The first two words of `m a extra` are `m` and `a`. */
  lemma WordsOfHead(m: string, a: string, extra: string)
    requires IsIdentifier(m)
    requires |a| > 0 && NoSpace(a)
    requires |extra| > 0 && !IsSpace(extra[0])
    ensures var words := SplitWhitespace(m + " " + (a + " " + extra));
      |words| >= 2 && words[0] == m && words[1] == a
  {
    IdentifierIsPlainWord(m);
    SplitWhitespaceCons(a, extra);
    SplitWhitespaceCons(m, a + " " + extra);
  }

  /** A string that starts with `p` is `p` followed by the rest. */
  lemma StartsWithTransitive(s: string, q: string, p: string)
    requires StartsWith(s, q) && StartsWith(q, p)
    ensures s == p + s[|p|..]
  {
    assert s[..|p|] == q[..|p|];
  }

  /**
   * Only the first two words of the first comma segment are kept: a third
   * word there is dropped without a trace.
   */
  lemma ParseDropsExtraWords(regs: RegTable, ft: FunctTable, codec: RawCodec, m: string, a: string, extra: string, ops: seq<string>)
    requires IsIdentifier(m)
    requires |a| > 0 && NoSpace(a) && NoChar(a, ',')
    requires |extra| > 0 && NoChar(extra, ',') && Trimmed(extra)
    requires forall k :: 0 <= k < |ops| ==> NoChar(ops[k], ',') && Trimmed(ops[k])
    ensures ParsePartialInstruction(regs, ft, codec, Join([m + " " + (a + " " + extra)] + ops, ", "))
            == ParsePartialInstruction(regs, ft, codec, m + " " + Join([a] + ops, ", "))
  {
    var line := Join([m + " " + (a + " " + extra)] + ops, ", ");
    TokeniseExtraWords(m, a, extra, ops);
    MnemonicLineIsText(m, line[|m|..]);
    assert DropHexPrefix(line) == line && !IsHexWord(line);
    assert Tokenise(DropHexPrefix(line)) == Tokens(m, [a] + ops);
    var ops' := [a] + ops;
    assert forall k :: 0 <= k < |ops'| ==> NoChar(ops'[k], ',') && Trimmed(ops'[k]) by {
      forall k | 0 <= k < |ops'| ensures NoChar(ops'[k], ',') && Trimmed(ops'[k]) {
        if k > 0 { assert ops'[k] == ops[k - 1]; }
      }
    }
    ParseCanonical(regs, ft, codec, m, ops');
  }

  /** A single unknown word parses to `{}` without an error. */
  lemma UnknownWordIsEmpty(regs: RegTable, ft: FunctTable, codec: RawCodec, m: string)
    requires IsIdentifier(m) && PlanOf(ft, m) == NoPlan
    ensures ParsePartialInstruction(regs, ft, codec, m) == Returns(Empty)
  {
    IdentifierIsPlainWord(m);
    MnemonicLineIsText(m, "");
    assert m + "" == m;
    SplitCommaWord(m);
    SplitWhitespaceWord(m);
  }

  /**
   * An arithmetic line `add $a, $b, $c` parses to `REG` with the function's
   * code, `rd`, `rs` and `rt` from the three registers, and `shamt` set to 0.
   */
  lemma ParseArithmeticLine(regs: RegTable, ft: FunctTable, codec: RawCodec, m: string, a: string, b: string, c: string)
    requires regs.Valid() && ft.Valid()
    requires ft.NameInGroup(m, Arithmetic)
    requires a in regs.numberOf && b in regs.numberOf && c in regs.numberOf
    ensures ParsePartialInstruction(regs, ft, codec, m + " $" + a + ", $" + b + ", $" + c)
            == Returns(PartialInstruction(
                 op := Some(0), funct := Some(ft.codeOf[m]),
                 rs := Some(regs.numberOf[b]), rt := Some(regs.numberOf[c]), rd := Some(regs.numberOf[a]),
                 shamt := Some(0), imm := None))
  {
    var ops := ["$" + a, "$" + b, "$" + c];
    RegisterTokenIsWord(regs, a);
    RegisterTokenIsWord(regs, b);
    RegisterTokenIsWord(regs, c);
    assert ft.codeOf[m] in ft.nameOf && ft.nameOf[ft.codeOf[m]] == m;
    assert IsIdentifier(m);
    ThreeOperandLine(m, a, b, c);
    ParseCanonical(regs, ft, codec, m, ops);
    ArithmeticRecord(regs, ft, m, ops);
    assert Token(ops, 0) == "$" + a && Token(ops, 1) == "$" + b && Token(ops, 2) == "$" + c;
  }

  /** `m $a, $b, $c` is the mnemonic, a space, and the three register tokens joined by `, `. */
  lemma ThreeOperandLine(m: string, a: string, b: string, c: string)
    ensures m + " $" + a + ", $" + b + ", $" + c == m + " " + Join(["$" + a, "$" + b, "$" + c], ", ")
  {
    var ops := ["$" + a, "$" + b, "$" + c];
    assert ops[1..] == ["$" + b, "$" + c];
    assert ops[1..][1..] == ["$" + c];
    assert Join(ops[1..][1..], ", ") == "$" + c;
    var j2 := Join(ops[1..], ", ");
    assert j2 == "$" + b + ", " + ("$" + c);
    SeparatorThenToken(", ", "$", ", $", "$" + b, c);
    assert j2 == "$" + b + ", $" + c;
    SeparatorThenToken(", ", "$", ", $", "$" + a, b + ", $" + c);
    assert Join(ops, ", ") == "$" + a + ", $" + (b + ", $" + c);
    SeparatorThenToken(" ", "$", " $", m, a + ", $" + (b + ", $" + c));
    assert m + " " + Join(ops, ", ") == m + " $" + (a + ", $" + (b + ", $" + c));
  }

  /** Writing a separator and then a token prefix is writing their concatenation. */
  lemma SeparatorThenToken(sep: string, p: string, sp: string, x: string, y: string)
    requires sp == sep + p
    ensures x + sep + (p + y) == x + sp + y
  {
  }

  /** The record the arithmetic plan builds from the operand tokens. */
  lemma ArithmeticRecord(regs: RegTable, ft: FunctTable, m: string, ops: seq<string>)
    requires ft.NameInGroup(m, Arithmetic)
    ensures RunPlan(regs, ft, m, PlanOf(ft, m), ops)
            == PartialInstruction(
                 op := Some(0), funct := Some(ft.codeOf[m]),
                 rs := Resolved(regs, Rs, Token(ops, 1)), rt := Resolved(regs, Rt, Token(ops, 2)),
                 rd := Resolved(regs, Rd, Token(ops, 0)), shamt := Some(0), imm := None)
  {
    assert PlanOf(ft, m) == RegisterPlan([Rd, Rs, Rt]);
    RunRegisterPlan(regs, ft, m, [Rd, Rs, Rt], ops);
    RegisterThreeRecord(regs, ft.codeOf[m], ops);
  }

  /** The record `makeInstImpl` builds for a function with the role list `[rd, rs, rt]`. */
  lemma RegisterThreeRecord(regs: RegTable, code: int, ops: seq<string>)
    ensures MakeInst(regs, Op.Register, code, ops, [Rd, Rs, Rt])
            == PartialInstruction(
                 op := Some(0), funct := Some(code),
                 rs := Resolved(regs, Rs, Token(ops, 1)), rt := Resolved(regs, Rt, Token(ops, 2)),
                 rd := Resolved(regs, Rd, Token(ops, 0)), shamt := Some(0), imm := None)
  {
    RegisterThreeRoles(regs, code, ops, Rd, Rs, Rt);
  }

  /** The same with the roles passed as values, which keeps the record's definition folded. */
  lemma RegisterThreeRoles(regs: RegTable, code: int, ops: seq<string>, x: Role, y: Role, z: Role)
    requires x == Rd && y == Rs && z == Rt
    ensures MakeInst(regs, Op.Register, code, ops, [x, y, z])
            == PartialInstruction(
                 op := Some(0), funct := Some(code),
                 rs := Resolved(regs, y, Token(ops, 1)), rt := Resolved(regs, z, Token(ops, 2)),
                 rd := Resolved(regs, x, Token(ops, 0)), shamt := Some(0), imm := None)
  {
    MakeInstThree(regs, Op.Register, code, ops, x, y, z);
    var r := MakeInst(regs, Op.Register, code, ops, [x, y, z]);
    FieldsOfGet(r);
    assert r.Get(Shamt) == Some(0) && r.Get(Imm) == None by {
      assert Shamt in FamilyRoles(Op.Register) && Imm !in FamilyRoles(Op.Register);
    }
  }

  /** Each role's field, read through `Get`. */
  lemma FieldsOfGet(r: PartialInstruction)
    ensures r.rd == r.Get(Rd) && r.rs == r.Get(Rs) && r.rt == r.Get(Rt)
    ensures r.shamt == r.Get(Shamt) && r.imm == r.Get(Imm)
  {
  }

  /** A register plan runs `makeInstImpl` with the function's code. */
  lemma RunRegisterPlan(regs: RegTable, ft: FunctTable, m: string, keys: seq<Role>, ops: seq<string>)
    requires m in ft.codeOf
    ensures RunPlan(regs, ft, m, RegisterPlan(keys), ops) == MakeInst(regs, Op.Register, ft.codeOf[m], ops, keys)
  {
  }

  /**
   * `makeInstImpl` with three distinct roles: they take tokens 0, 1 and 2,
   * and every other role is 0 when its family has it, else missing.
   */
  lemma MakeInstThree(regs: RegTable, f: Op.Family, code: int, ops: seq<string>, x: Role, y: Role, z: Role)
    requires x != y && y != z && x != z
    ensures MakeInst(regs, f, code, ops, [x, y, z]).op == if f == Op.Register then Some(0) else Some(code)
    ensures MakeInst(regs, f, code, ops, [x, y, z]).funct == if f == Op.Register then Some(code) else None
    ensures MakeInst(regs, f, code, ops, [x, y, z]).Get(x) == Resolved(regs, x, Token(ops, 0))
    ensures MakeInst(regs, f, code, ops, [x, y, z]).Get(y) == Resolved(regs, y, Token(ops, 1))
    ensures MakeInst(regs, f, code, ops, [x, y, z]).Get(z) == Resolved(regs, z, Token(ops, 2))
    ensures forall w :: w != x && w != y && w != z ==>
              MakeInst(regs, f, code, ops, [x, y, z]).Get(w) == if w in FamilyRoles(f) then Some(0) else None
  {
    var keys := [x, y, z];
    assert Distinct(keys);
    MakeInstFields(regs, f, code, ops, keys);
    assert keys[0] == x && keys[1] == y && keys[2] == z;
    var r := MakeInst(regs, f, code, ops, keys);
    assert r.Get(keys[0]) == Resolved(regs, x, Token(ops, 0));
    assert r.Get(keys[1]) == Resolved(regs, y, Token(ops, 1));
    assert r.Get(keys[2]) == Resolved(regs, z, Token(ops, 2));
    forall w | w != x && w != y && w != z
      ensures r.Get(w) == if w in FamilyRoles(f) then Some(0) else None
    {
      assert w !in keys;
    }
  }

  /**
   * With only two operand tokens, the load/store plan keeps them as they are:
   * `rt` from the first, `imm` from the second, and `rs` never set.
   */
  lemma LoadStoreTwoTokens(regs: RegTable, ft: FunctTable, m: string, ops: seq<string>)
    requires ft.Valid() && Op.NamesImmediateGroup(m, Op.LoadStore) && |ops| == 2
    ensures RunPlan(regs, ft, m, PlanOf(ft, m), ops)
            == PartialInstruction(
                 op := Some(Op.Value(Op.FromName(m).value)), funct := None,
                 rs := None, rt := Resolved(regs, Rt, ops[0]), rd := None, shamt := None,
                 imm := Resolved(regs, Imm, ops[1]))
  {
    LoadStorePlanOf(ft, m);
    LoadStoreTwoRecord(regs, m, ops);
  }

  /** A load/store mnemonic is dispatched to `makeLS`. */
  lemma LoadStorePlanOf(ft: FunctTable, m: string)
    requires ft.Valid() && Op.NamesImmediateGroup(m, Op.LoadStore)
    ensures PlanOf(ft, m) == LoadStorePlan
  {
    OpcodeNameIsNoFunction(ft, m);
    var o := Op.FromName(m).value;
    assert Op.ImmediateGroupOf(o) == Some(Op.LoadStore);
    assert !Op.NamesImmediateGroup(m, Op.Arithmetic) && !Op.NamesImmediateGroup(m, Op.Load);
    assert !Op.NamesImmediateGroup(m, Op.Branch) && !Op.NamesImmediateGroup(m, Op.BranchZ);
  }

  /** An opcode's name is never a function's name. */
  lemma OpcodeNameIsNoFunction(ft: FunctTable, m: string)
    requires ft.Valid() && Op.FromName(m).Some?
    ensures m !in ft.codeOf
  {
  }

  /** `makeLS` on exactly two tokens. */
  lemma LoadStoreTwoRecord(regs: RegTable, m: string, ops: seq<string>)
    requires Op.NamesImmediateGroup(m, Op.LoadStore) && |ops| == 2
    ensures MakeLS(regs, m, ops)
            == PartialInstruction(
                 op := Some(Op.Value(Op.FromName(m).value)), funct := None,
                 rs := None, rt := Resolved(regs, Rt, ops[0]), rd := None, shamt := None,
                 imm := Resolved(regs, Imm, ops[1]))
  {
    LoadStoreFields(regs, m, ops);
    assert Token(ops, 0) == ops[0] && Token(ops, 1) == ops[1] && Token(ops, 2) == "";
    assert BaseSource("") == "";
  }

  /** `4` followed by a parenthesis or a space reads as four in base ten. */
  lemma FourThen(t: string)
    requires |t| > 1 && t[0] == '4' && t[1] in "( "
    ensures ParseNumber(t) == Some(4)
  {
    assert t[..2] != "0x" by { assert t[..2][0] == '4'; }
    assert AllDigits("4", 10) && DigitsValue("4", 10) == 4 by {
      assert "4"[..0] == "";
    }
    assert t == "4" + t[1..];
    ParseIntDigitPrefix("4", t[1..], 10);
  }

  /**
   * `lw $a, 4($b)` and `lw $a, 4 ($b)` both come out with `rt` and `imm` set
   * and no base register: the split on commas leaves two operand tokens, and
   * the address rewriting only looks at a third one. `parseInt` stops at the
   * parenthesis, so the offset is read as written.
   */
  lemma ParseLoadStoreLine(regs: RegTable, ft: FunctTable, codec: RawCodec, o: Op.Opcode, a: string, b: string, spaced: bool)
    requires regs.Valid() && ft.Valid()
    requires Op.ImmediateGroupOf(o) == Some(Op.LoadStore)
    requires a in regs.numberOf && b in regs.numberOf
    ensures var address := if spaced then "4 ($" + b + ")" else "4($" + b + ")";
      ParsePartialInstruction(regs, ft, codec, Op.Name(o) + " $" + a + ", " + address)
      == Returns(PartialInstruction(
           op := Some(Op.Value(o)), funct := None,
           rs := None, rt := Some(regs.numberOf[a]), rd := None, shamt := None, imm := Some(4)))
  {
    var m := Op.Name(o);
    var address := if spaced then "4 ($" + b + ")" else "4($" + b + ")";
    var ops := ["$" + a, address];
    Op.FromNameOfName(o);
    LoadStoreLineShape(regs, o, a, b, spaced);
    ParseCanonical(regs, ft, codec, m, ops);
    LoadStoreTwoTokens(regs, ft, m, ops);
    assert Resolved(regs, Rt, ops[0]) == Some(regs.numberOf[a]) by {
      RegisterTokenIsWord(regs, a);
    }
    assert Resolved(regs, Imm, ops[1]) == Some(4) by {
      AddressIsOperand(regs, b, spaced);
      FourThen(address);
    }
  }

  /** A load/store line is its mnemonic, a space, and the two operand tokens joined by commas. */
  lemma LoadStoreLineShape(regs: RegTable, o: Op.Opcode, a: string, b: string, spaced: bool)
    requires regs.Valid() && o != Op.Reg
    requires a in regs.numberOf && b in regs.numberOf
    ensures var address := if spaced then "4 ($" + b + ")" else "4($" + b + ")";
      var ops := ["$" + a, address];
      && IsIdentifier(Op.Name(o))
      && |ops| >= 1 && |ops[0]| > 0 && NoSpace(ops[0])
      && (forall k :: 0 <= k < |ops| ==> NoChar(ops[k], ',') && Trimmed(ops[k]))
      && Op.Name(o) + " $" + a + ", " + address == Op.Name(o) + " " + Join(ops, ", ")
  {
    var m := Op.Name(o);
    var address := if spaced then "4 ($" + b + ")" else "4($" + b + ")";
    var ops := ["$" + a, address];
    RegisterTokenIsWord(regs, a);
    AddressIsOperand(regs, b, spaced);
    TwoOperandLine(m, a, address);
  }

  lemma TwoOperandLine(m: string, a: string, address: string)
    ensures m + " $" + a + ", " + address == m + " " + Join(["$" + a, address], ", ")
  {
    var ops := ["$" + a, address];
    assert ops[1..] == [address];
    assert Join(ops, ", ") == "$" + a + ", " + address;
    SeparatorThenToken(" ", "$", " $", m, a + ", " + address);
  }

  /** The address operand is one comma-free trimmed token. */
  lemma AddressIsOperand(regs: RegTable, b: string, spaced: bool)
    requires regs.Valid() && b in regs.numberOf
    ensures var address := if spaced then "4 ($" + b + ")" else "4($" + b + ")";
      NoChar(address, ',') && Trimmed(address) && address[0] == '4' && address[1] in "( "
  {
    IdentifierIsPlainWord(b);
    var address := if spaced then "4 ($" + b + ")" else "4($" + b + ")";
    var pre := if spaced then "4 ($" else "4($";
    assert address == pre + b + ")";
    NoCharConcat(pre, b, ',');
    NoCharConcat(pre + b, ")", ',');
    assert address[|address| - 1] == ')';
  }
}
