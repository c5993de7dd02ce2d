/**
 * The translator service: the function-code converters, the hexadecimal
 * rendering of a parsed line, the display of a decoded word as a mnemonic
 * line, the binary/hexadecimal digit converters and the line-by-line batch
 * translators.
 */
module Translator {
  import opened Wrappers
  import opened JsString
  import opened JsNumber
  import Op
  import opened Instruction
  import opened Funct
  import opened Reg
  import Args
  import Parse

  // ---------------------------------------------------------------------
  // Function codes
  // ---------------------------------------------------------------------

  /** `getFunctCode`: a known function's code in binary, padded to six digits, else `unknown`. */
  function GetFunctCode(ft: FunctTable, name: string): (r: string)
    ensures r == "unknown" <==> name !in ft.codeOf
  {
    if name in ft.codeOf then
      CodeTextIsNotUnknown(ft.codeOf[name]);
      PadStart(NumberToString(ft.codeOf[name], 2), 6, '0')
    else "unknown"
  }

  /** No number's six-digit binary text reads `unknown`. */
  lemma CodeTextIsNotUnknown(c: int)
    ensures PadStart(NumberToString(c, 2), 6, '0') != "unknown"
  {
    var t := NumberToString(c, 2);
    BinaryTextHead(c);
    var r := PadStart(t, 6, '0');
    assert r[0] != 'u' by {
      if |t| < 6 {
        assert r == Repeat('0', 6 - |t|) + t;
      }
    }
    assert r[0] != "unknown"[0];
  }

  /** A number's binary text starts with a minus sign or a binary digit, never a `u`. */
  lemma BinaryTextHead(c: int)
    ensures |NumberToString(c, 2)| >= 1 && NumberToString(c, 2)[0] != 'u'
  {
    if c >= 0 {
      ToRadixDigits(c, 2);
      assert IsDigit(ToRadix(c, 2)[0], 2);
      assert !IsDigit('u', 2);
    }
  }

  /**
   * `convertFunctToName`: the binary text is read with `parseInt(_, 2)`, then
   * looked up among the function codes first and the opcodes second.
   */
  function ConvertFunctToName(ft: FunctTable, bits: string): (r: string)
    ensures r == "unknown" || r in ft.nameOf.Values || exists o :: Op.Name(o) == r
  {
    match ParseInt(bits, 2)
    case None => "unknown"
    case Some(n) =>
      if n in ft.nameOf then ft.nameOf[n]
      else if Op.FromValue(n).Some? then Op.Name(Op.FromValue(n).value)
      else "unknown"
  }

  /** A known function's code is exactly six binary digits whose value is the code; any other name gives `unknown`. */
  lemma FunctCodeDigits(ft: FunctTable, name: string)
    requires ft.Valid()
    ensures name in ft.codeOf ==>
              var s := GetFunctCode(ft, name);
              |s| == 6 && AllBinary(s) && AllDigits(s, 2) && DigitsValue(s, 2) == ft.codeOf[name]
    ensures GetFunctCode(ft, name) == "unknown" <==> name !in ft.codeOf
  {
    if name in ft.codeOf {
      var code := ft.codeOf[name];
      assert Pow(2, 6) == 64 by { PowersOfTwo(); }
      PaddedDigits(code, 2, 6);
      BinaryDigitsAreBits(GetFunctCode(ft, name));
    }
  }

  /** Converting a function's code back gives its name: the two converters are inverse on known functions. */
  lemma FunctCodeRoundTrip(ft: FunctTable, name: string)
    requires ft.Valid() && name in ft.codeOf
    ensures ConvertFunctToName(ft, GetFunctCode(ft, name)) == name
  {
    var s := GetFunctCode(ft, name);
    FunctCodeDigits(ft, name);
    assert s + "" == s;
    ParseIntDigitPrefix(s, "", 2);
  }

  /**
   * The converter always answers with a known function name, a known opcode
   * name or `unknown`; where a number is both a function code and an opcode,
   * the function name wins.
   */
  lemma ConvertFunctToNameKnown(ft: FunctTable, bits: string)
    requires ft.Valid()
    ensures var r := ConvertFunctToName(ft, bits);
      r == "unknown" || r in ft.codeOf || Op.FromName(r).Some?
    ensures ParseInt(bits, 2).Some? && ParseInt(bits, 2).value in ft.nameOf ==>
              ConvertFunctToName(ft, bits) == ft.nameOf[ParseInt(bits, 2).value]
    ensures ParseInt(bits, 2).None? ==> ConvertFunctToName(ft, bits) == "unknown"
  {
    match ParseInt(bits, 2)
    case None =>
    case Some(n) =>
      if n !in ft.nameOf && Op.FromValue(n).Some? {
        Op.FromNameOfName(Op.FromValue(n).value);
      }
  }

  // ---------------------------------------------------------------------
  // Mnemonic line to hexadecimal
  // ---------------------------------------------------------------------

  /** `hex.toString(16).toUpperCase().padStart(8, '0')`. */
  function HexText(w: int): string {
    PadStart(ToUpper(NumberToString(w, 16)), 8, '0')
  }

  /**
   * `translateInstructionToHex`: the parsed record is encoded and the word
   * rendered; a parse that throws makes the translation throw.
   */
  function TranslateInstructionToHex(regs: RegTable, ft: FunctTable, codec: RawCodec, line: string): (r: Outcome<string>)
    ensures r.Throws? ==> Parse.IsHexWord(Parse.DropHexPrefix(line))
    ensures r.Returns? ==> |r.value| >= 8 && NoChar(r.value, '\n')
  {
    match Parse.ParsePartialInstruction(regs, ft, codec, line)
    case Throws => Throws
    case Returns(p) =>
      HexTextHasNoNewline(codec.encode(p));
      Returns(HexText(codec.encode(p)))
  }

  lemma UpperHexIsDigit(s: string)
    requires AllUpperHex(s)
    ensures AllDigits(s, 16)
  {
    forall i | 0 <= i < |s| ensures IsDigit(s[i], 16) {
      assert IsUpperHexDigit(s[i]);
    }
  }

  lemma PadZerosUpperHex(s: string, w: nat)
    requires AllUpperHex(s)
    ensures AllUpperHex(PadStart(s, w, '0'))
  {
    var r := PadStart(s, w, '0');
    var k := |r| - |s|;
    forall i | 0 <= i < |r| ensures IsUpperHexDigit(r[i]) {
      if i >= k { assert r[i] == s[i - k]; }
    }
  }

  /** A non-negative word renders as at least eight upper-case hexadecimal digits; a 32-bit word as exactly eight, worth the word. */
  lemma HexTextShape(w: int)
    requires w >= 0
    ensures |HexText(w)| >= 8 && AllUpperHex(HexText(w))
    ensures w < Pow(2, WordBits) ==> |HexText(w)| == 8 && DigitsValue(HexText(w), 16) == w
  {
    ToRadixDigits(w, 16);
    UpperHexDigits(ToRadix(w, 16));
    PadZerosUpperHex(ToUpper(ToRadix(w, 16)), 8);
    if w < Pow(2, WordBits) {
      assert Pow(16, 8) == Pow(2, 32) by {
        PowersOfTwo();
        assert Pow(16, 2) == 256;
        assert Pow(16, 4) == 65536;
        assert Pow(16, 8) == 4294967296;
      }
      PaddedHex(w, 8);
    }
  }

  /** `q * 16 + d` determines `q` and `d` when `d` is a hexadecimal digit value. */
  lemma HexPlaceUnique(q1: int, d1: int, q2: int, d2: int)
    requires 0 <= d1 < 16 && 0 <= d2 < 16 && q1 * 16 + d1 == q2 * 16 + d2
    ensures q1 == q2 && d1 == d2
  {
    assert (q1 - q2) * 16 == d2 - d1;
  }

  /** An upper-case hexadecimal digit is determined by its value. */
  lemma UpperHexDigitUnique(x: char, y: char)
    requires IsUpperHexDigit(x) && IsUpperHexDigit(y) && DigitOf(x) == DigitOf(y)
    ensures x == y
  {
    assert x as int == y as int;
  }

  /** Two upper-case hexadecimal strings of one length and one value are the same string. */
  lemma {:induction false} UpperHexUnique(a: string, b: string)
    requires |a| == |b| && AllUpperHex(a) && AllUpperHex(b)
    requires AllDigits(a, 16) && AllDigits(b, 16) && DigitsValue(a, 16) == DigitsValue(b, 16)
    ensures a == b
    decreases |a|
  {
    if |a| > 0 {
      var n := |a| - 1;
      var a', b' := a[..n], b[..n];
      assert AllUpperHex(a') && AllUpperHex(b') && AllDigits(a', 16) && AllDigits(b', 16);
      assert DigitsValue(a, 16) == DigitsValue(a', 16) * 16 + DigitOf(a[n]);
      assert DigitsValue(b, 16) == DigitsValue(b', 16) * 16 + DigitOf(b[n]);
      assert IsDigit(a[n], 16) && IsDigit(b[n], 16);
      HexPlaceUnique(DigitsValue(a', 16), DigitOf(a[n]), DigitsValue(b', 16), DigitOf(b[n]));
      UpperHexUnique(a', b');
      UpperHexDigitUnique(a[n], b[n]);
      assert a == a' + [a[n]] && b == b' + [b[n]];
    }
  }

  /** Eight upper-case hexadecimal digits render back as themselves. */
  lemma HexTextOfDigits(s: string)
    requires |s| == 8 && AllUpperHex(s)
    ensures AllDigits(s, 16) && HexText(DigitsValue(s, 16)) == s
  {
    UpperHexIsDigit(s);
    var w := DigitsValue(s, 16);
    assert w < Pow(2, WordBits) by {
      assert Pow(16, 8) == Pow(2, 32) by {
        PowersOfTwo();
        assert Pow(16, 2) == 256;
        assert Pow(16, 4) == 65536;
        assert Pow(16, 8) == 4294967296;
      }
      DigitsBelowPower(s, 16);
    }
    HexTextShape(w);
    UpperHexIsDigit(HexText(w));
    UpperHexUnique(HexText(w), s);
  }

  /** A string of `n` digits is worth less than `radix` to the `n`. */
  lemma {:induction false} DigitsBelowPower(s: string, radix: Radix)
    requires AllDigits(s, radix)
    ensures DigitsValue(s, radix) < Pow(radix, |s|)
    decreases |s|
  {
    if |s| > 0 {
      var n := |s| - 1;
      assert AllDigits(s[..n], radix);
      DigitsBelowPower(s[..n], radix);
      assert IsDigit(s[n], radix);
      var q := DigitsValue(s[..n], radix);
      var p := Pow(radix, n);
      assert DigitsValue(s, radix) == q * radix + DigitOf(s[n]);
      assert Pow(radix, |s|) == p * radix;
      MulMono(q + 1, p, radix);
      MulSucc(q, radix);
      assert DigitsValue(s, radix) < (q + 1) * radix;
    }
  }

  lemma MulSucc(a: int, c: int)
    ensures (a + 1) * c == a * c + c
  {
  }

  lemma MulMono(a: int, b: int, c: nat)
    requires a <= b
    ensures a * c <= b * c
  {
  }

  /**
   * An upper-case hexadecimal word of one to eight digits that the codec
   * decodes translates to itself padded to eight digits, with or without the
   * `0x` prefix.
   */
  lemma HexWordRoundTrip(regs: RegTable, ft: FunctTable, codec: RawCodec, s: string, prefixed: bool)
    requires codec.Valid(ft)
    requires Parse.IsHexWord(s)
    requires codec.decode(Parse.RawWord(s)).Some?
    ensures TranslateInstructionToHex(regs, ft, codec, if prefixed then "0x" + s else s) == Returns(PadStart(s, 8, '0'))
  {
    Parse.ParseHexLine(regs, ft, codec, s, prefixed);
    var w := Parse.RawWord(s);
    assert codec.encode(ToPartial(codec.decode(w).value)) == w;
    HexTextOfHexWord(s);
  }

  /** The value of a word of one to eight hexadecimal digits renders as the word padded to eight. */
  lemma HexTextOfHexWord(s: string)
    requires 1 <= |s| <= 8 && AllUpperHex(s)
    ensures AllDigits(s, 16) && HexText(DigitsValue(s, 16)) == PadStart(s, 8, '0')
  {
    UpperHexIsDigit(s);
    PaddedHexWord(s);
    HexTextOfDigits(PadStart(s, 8, '0'));
  }

  /** Padding an upper-case hex word with zeros to eight digits keeps its value. */
  lemma PaddedHexWord(s: string)
    requires 1 <= |s| <= 8 && AllUpperHex(s)
    ensures |PadStart(s, 8, '0')| == 8 && AllUpperHex(PadStart(s, 8, '0'))
    ensures AllDigits(s, 16) && DigitsValue(PadStart(s, 8, '0'), 16) == DigitsValue(s, 16)
  {
    UpperHexIsDigit(s);
    assert PadStart(s, 8, '0') == Repeat('0', 8 - |s|) + s;
    DigitsValueZeros(8 - |s|, s, 16);
    PadZerosUpperHex(s, 8);
  }

  // ---------------------------------------------------------------------
  // Display of a record as a mnemonic line
  // ---------------------------------------------------------------------

  /** `$${Register[v]}`: the register's name, or `$undefined` for a missing or unknown number. */
  function RegisterText(regs: RegTable, v: Option<int>): string {
    if v.Some? && v.value in regs.nameOf then "$" + regs.nameOf[v.value] else "$undefined"
  }

  /** `0x${v.toString(16).padStart(width, '0').toUpperCase()}`; reading a missing field throws. */
  function HexField(v: Option<int>, width: nat): Outcome<string> {
    match v
    case None => Throws
    case Some(n) => Returns("0x" + ToUpper(PadStart(NumberToString(n, 16), width, '0')))
  }

  /** One pushed operand: the role rendered in hexadecimal is `hexRole`, every other role is a register. */
  function RoleText(regs: RegTable, p: PartialInstruction, role: Role, hexRole: Role, width: nat): Outcome<string> {
    if role == hexRole then HexField(p.Get(role), width) else Returns(RegisterText(regs, p.Get(role)))
  }

  /** Outcomes gathered in order: the first one that throws makes the whole throw. */
  function Collect(outs: seq<Outcome<string>>): (r: Outcome<seq<string>>)
    ensures r.Returns? <==> forall k :: 0 <= k < |outs| ==> outs[k].Returns?
    ensures r.Returns? ==> |r.value| == |outs| && forall k :: 0 <= k < |outs| ==> r.value[k] == outs[k].value
  {
    if outs == [] then Returns([])
    else
      match outs[0]
      case Throws => Throws
      case Returns(first) =>
        match Collect(outs[1..])
        case Throws => Throws
        case Returns(rest) => Returns([first] + rest)
  }

  /** The operands pushed for `roles`, in order; the first one that throws stops the display. */
  function OperandTexts(regs: RegTable, p: PartialInstruction, roles: seq<Role>, hexRole: Role, width: nat)
    : (r: Outcome<seq<string>>)
    ensures r.Returns? <==> forall k :: 0 <= k < |roles| ==> RoleText(regs, p, roles[k], hexRole, width).Returns?
    ensures r.Returns? ==> |r.value| == |roles|
    ensures r.Returns? ==> forall k :: 0 <= k < |roles| ==> r.value[k] == RoleText(regs, p, roles[k], hexRole, width).value
  {
    var outs := seq(|roles|, k requires 0 <= k < |roles| => RoleText(regs, p, roles[k], hexRole, width));
    assert forall k :: 0 <= k < |roles| ==> outs[k] == RoleText(regs, p, roles[k], hexRole, width);
    Collect(outs)
  }

  /** `FunctionCode[inst.funct]`, which `join` writes as the empty string when it is undefined. */
  function FunctText(ft: FunctTable, funct: Option<int>): string {
    if funct.Some? && funct.value in ft.nameOf then ft.nameOf[funct.value] else ""
  }

  /** `ImmediateInstructionOpcode[inst.op]`, written as the empty string when it is undefined. */
  function ImmOpText(op: Option<int>): string {
    if op.Some? && Op.IsImmediateOpcode(op.value) then Op.Name(Op.FromValue(op.value).value) else ""
  }

  /** `JumpInstructionOpcode[inst.op]` inside a template, which writes `undefined` for a missing name. */
  function JumpOpText(op: Option<int>): string {
    if op.Some? && Op.IsJumpOpcode(op.value) then Op.Name(Op.FromValue(op.value).value) else "undefined"
  }

  /** What `makeRDisplay` returns: the function name and the operands, joined by spaces. */
  function RDisplay(regs: RegTable, ft: FunctTable, p: PartialInstruction, roles: seq<Role>): Outcome<string> {
    match OperandTexts(regs, p, roles, Shamt, 2)
    case Throws => Throws
    case Returns(texts) => Returns(Join([FunctText(ft, p.funct)] + texts, " "))
  }

  /** What `makeIDisplay` returns: the opcode name and the operands, joined by spaces. */
  function IDisplay(regs: RegTable, p: PartialInstruction, roles: seq<Role>): Outcome<string> {
    match OperandTexts(regs, p, roles, Imm, 4)
    case Throws => Throws
    case Returns(texts) => Returns(Join([ImmOpText(p.op)] + texts, " "))
  }

  /** `makeJDisplay`: the jump's name, a space, and the target in seven hexadecimal digits. */
  function JDisplay(p: PartialInstruction): (r: Outcome<string>)
    ensures r.Throws? <==> p.imm.None?
  {
    match HexField(p.imm, 7)
    case Throws => Throws
    case Returns(t) => Returns(JumpOpText(p.op) + " " + t)
  }

  /** Texts pushed one per role, each the role's own text, are what `OperandTexts` collects. */
  lemma OperandTextsOf(regs: RegTable, p: PartialInstruction, roles: seq<Role>, hexRole: Role, width: nat, texts: seq<string>)
    requires |texts| == |roles|
    requires forall k :: 0 <= k < |roles| ==> RoleText(regs, p, roles[k], hexRole, width) == Returns(texts[k])
    ensures OperandTexts(regs, p, roles, hexRole, width) == Returns(texts)
  {
    var r := OperandTexts(regs, p, roles, hexRole, width);
    assert r.Returns?;
    assert r.value == texts;
  }

  /** Pushing the next role's text keeps `texts` the texts of the roles so far. */
  lemma OperandTextsPush(regs: RegTable, p: PartialInstruction, roles: seq<Role>, hexRole: Role, width: nat,
                         texts: seq<string>, text: string)
    requires |texts| < |roles|
    requires forall k :: 0 <= k < |texts| ==> RoleText(regs, p, roles[k], hexRole, width) == Returns(texts[k])
    requires RoleText(regs, p, roles[|texts|], hexRole, width) == Returns(text)
    ensures forall k :: 0 <= k < |texts| + 1 ==> RoleText(regs, p, roles[k], hexRole, width) == Returns((texts + [text])[k])
  {
    forall k | 0 <= k < |texts| + 1
      ensures RoleText(regs, p, roles[k], hexRole, width) == Returns((texts + [text])[k])
    {
      if k < |texts| {
        assert (texts + [text])[k] == texts[k];
      }
    }
  }

  /** One operand that throws makes the whole display throw. */
  lemma OperandTextsThrow(regs: RegTable, p: PartialInstruction, roles: seq<Role>, hexRole: Role, width: nat, i: nat)
    requires i < |roles| && RoleText(regs, p, roles[i], hexRole, width).Throws?
    ensures OperandTexts(regs, p, roles, hexRole, width) == Throws
  {
  }

  /** An operand that throws makes the register display throw. */
  lemma RDisplayThrows(regs: RegTable, ft: FunctTable, p: PartialInstruction, roles: seq<Role>, i: nat)
    requires i < |roles| && RoleText(regs, p, roles[i], Shamt, 2).Throws?
    ensures RDisplay(regs, ft, p, roles) == Throws
  {
    OperandTextsThrow(regs, p, roles, Shamt, 2, i);
  }

  /** Texts pushed one per role, each the role's own text, make the register display. */
  lemma RDisplayOf(regs: RegTable, ft: FunctTable, p: PartialInstruction, roles: seq<Role>, texts: seq<string>)
    requires |texts| == |roles|
    requires forall k :: 0 <= k < |roles| ==> RoleText(regs, p, roles[k], Shamt, 2) == Returns(texts[k])
    ensures RDisplay(regs, ft, p, roles) == Returns(Join([FunctText(ft, p.funct)] + texts, " "))
  {
    OperandTextsOf(regs, p, roles, Shamt, 2, texts);
  }

  /** `makeRDisplay`: pushes one text per role onto `vals` and joins them with spaces. */
  method MakeRDisplay(regs: RegTable, ft: FunctTable, p: PartialInstruction, roles: seq<Role>) returns (r: Outcome<string>)
    ensures r == RDisplay(regs, ft, p, roles)
  {
    var head := FunctText(ft, p.funct);
    var vals := [head];
    ghost var texts := [];
    for i := 0 to |roles|
      invariant vals == [head] + texts && |texts| == i
      invariant forall k :: 0 <= k < i ==> RoleText(regs, p, roles[k], Shamt, 2) == Returns(texts[k])
    {
      var pushed := RoleText(regs, p, roles[i], Shamt, 2);
      if pushed.Throws? {
        RDisplayThrows(regs, ft, p, roles, i);
        r := Throws;
        return;
      }
      var text := pushed.value;
      OperandTextsPush(regs, p, roles, Shamt, 2, texts, text);
      vals := vals + [text];
      texts := texts + [text];
    }
    RDisplayOf(regs, ft, p, roles, texts);
    r := Returns(Join(vals, " "));
  }

  /** An operand that throws makes the immediate display throw. */
  lemma IDisplayThrows(regs: RegTable, p: PartialInstruction, roles: seq<Role>, i: nat)
    requires i < |roles| && RoleText(regs, p, roles[i], Imm, 4).Throws?
    ensures IDisplay(regs, p, roles) == Throws
  {
    OperandTextsThrow(regs, p, roles, Imm, 4, i);
  }

  /** Texts pushed one per role, each the role's own text, make the immediate display. */
  lemma IDisplayOf(regs: RegTable, p: PartialInstruction, roles: seq<Role>, texts: seq<string>)
    requires |texts| == |roles|
    requires forall k :: 0 <= k < |roles| ==> RoleText(regs, p, roles[k], Imm, 4) == Returns(texts[k])
    ensures IDisplay(regs, p, roles) == Returns(Join([ImmOpText(p.op)] + texts, " "))
  {
    OperandTextsOf(regs, p, roles, Imm, 4, texts);
  }

  /** `makeIDisplay`: pushes one text per role onto `vals` and joins them with spaces. */
  method MakeIDisplay(regs: RegTable, p: PartialInstruction, roles: seq<Role>) returns (r: Outcome<string>)
    ensures r == IDisplay(regs, p, roles)
  {
    var head := ImmOpText(p.op);
    var vals := [head];
    ghost var texts := [];
    for i := 0 to |roles|
      invariant vals == [head] + texts && |texts| == i
      invariant forall k :: 0 <= k < i ==> RoleText(regs, p, roles[k], Imm, 4) == Returns(texts[k])
    {
      var pushed := RoleText(regs, p, roles[i], Imm, 4);
      if pushed.Throws? {
        IDisplayThrows(regs, p, roles, i);
        r := Throws;
        return;
      }
      var text := pushed.value;
      OperandTextsPush(regs, p, roles, Imm, 4, texts, text);
      vals := vals + [text];
      texts := texts + [text];
    }
    IDisplayOf(regs, p, roles, texts);
    r := Returns(Join(vals, " "));
  }

  /** The operands `translateInstructionToMIPS` shows for a register record, by function group. */
  function RegisterDisplayRoles(ft: FunctTable, funct: Option<int>): seq<Role> {
    if ft.CodeInGroup(funct, Arithmetic) then [Rd, Rs, Rt]
    else if ft.CodeInGroup(funct, Multiplication) then [Rs, Rt]
    else if ft.CodeInGroup(funct, Shift) then [Rd, Rt, Shamt]
    else if ft.CodeInGroup(funct, ShiftV) then [Rd, Rt, Rs]
    else if ft.CodeInGroup(funct, MoveTo) then [Rs]
    else if ft.CodeInGroup(funct, MoveFrom) then [Rd]
    else if funct == Some(ft.jalr) then [Rd, Rs]
    else [Rs]
  }

  /** The operands `translateInstructionToMIPS` shows for an immediate record, by opcode group. */
  function ImmediateDisplayRoles(op: Option<int>): seq<Role> {
    if op.Some? && Op.ValueInImmediateGroup(op.value, Op.Arithmetic) then [Rt, Rs, Imm]
    else if op.Some? && Op.ValueInImmediateGroup(op.value, Op.Load) then [Rt, Imm]
    else if op.Some? && Op.ValueInImmediateGroup(op.value, Op.Branch) then [Rs, Rt, Imm]
    else if op.Some? && Op.ValueInImmediateGroup(op.value, Op.BranchZ) then [Rs, Imm]
    else [Rt, Imm, Rs]
  }

  /**
   * `translateInstructionToMIPS`: `0x` is stripped, the rest parsed, and the
   * record displayed by its family: register, then jump, then immediate.
   */
  function TranslateInstructionToMIPS(regs: RegTable, ft: FunctTable, codec: RawCodec, text: string): (r: Outcome<string>)
    ensures regs.Valid() && ft.Valid() && r.Returns? ==> NoChar(r.value, '\n')
  {
    match Parse.ParsePartialInstruction(regs, ft, codec, Parse.DropHexPrefix(text))
    case Throws => Throws
    case Returns(p) => Display(regs, ft, p)
  }

  /** The display of a record by its family: register, then jump, then immediate. It never holds a line break. */
  function Display(regs: RegTable, ft: FunctTable, p: PartialInstruction): (r: Outcome<string>)
    ensures regs.Valid() && ft.Valid() && r.Returns? ==> NoChar(r.value, '\n')
  {
    DisplayBranchesNoNewline(regs, ft, p);
    if IsReg(p) then RDisplay(regs, ft, p, RegisterDisplayRoles(ft, p.funct))
    else if IsJump(p) then JDisplay(p)
    else IDisplay(regs, p, ImmediateDisplayRoles(p.op))
  }

  // ---------------------------------------------------------------------
  // Properties of the display
  // ---------------------------------------------------------------------

  /**
   * The register display lists agree with the operand schema for every
   * function group, except that `jalr` also shows `rd`; a code in no group
   * shows `rs` alone.
   */
  lemma RegisterDisplayRolesAgree(ft: FunctTable, code: int)
    requires ft.Valid()
    ensures code in ft.groupOf && code != ft.jalr ==>
              RegisterDisplayRoles(ft, Some(code)) == Args.FunctGroupRoles(ft.groupOf[code])
    ensures RegisterDisplayRoles(ft, Some(ft.jalr)) == [Rd, Rs]
    ensures code !in ft.groupOf ==> RegisterDisplayRoles(ft, Some(code)) == [Rs]
  {
  }

  /** The immediate display lists agree with the operand schema; an opcode in no group shows `rt imm rs`. */
  lemma ImmediateDisplayRolesAgree(op: Option<int>)
    ensures forall g :: op.Some? && Op.ValueInImmediateGroup(op.value, g) ==>
              ImmediateDisplayRoles(op) == Args.ImmediateGroupRoles(g)
    ensures (op.None? || forall g :: !Op.ValueInImmediateGroup(op.value, g)) ==>
              ImmediateDisplayRoles(op) == [Rt, Imm, Rs]
  {
  }

  /** A present field of `n` below 16 to the `width` shows as `0x` and exactly `width` upper-case digits worth `n`. */
  lemma HexFieldDigits(n: int, width: nat)
    requires width >= 1 && 0 <= n < Pow(16, width)
    ensures HexField(Some(n), width).Returns?
    ensures var t := HexField(Some(n), width).value;
      |t| == width + 2 && t[..2] == "0x" && AllUpperHex(t[2..]) && AllDigits(t[2..], 16)
      && DigitsValue(t[2..], 16) == n
  {
    PaddedHex(n, width);
    var t := HexField(Some(n), width).value;
    assert t[2..] == ToUpper(PadStart(ToRadix(n, 16), width, '0'));
  }

  /** A missing `shamt` or `imm` makes the display throw; registers never do. */
  lemma RoleTextThrows(regs: RegTable, p: PartialInstruction, role: Role, hexRole: Role, width: nat)
    ensures RoleText(regs, p, role, hexRole, width).Throws? <==> role == hexRole && p.Get(role).None?
  {
  }

  /**
   * The display of a hexadecimal operand does not read back: the parser takes
   * the digits after `0x` in base eight, so a shift amount of sixteen, shown
   * as `0x10`, is read as eight.
   */
  lemma HexOperandReadsAsOctal()
    ensures HexField(Some(16), 2) == Returns("0x10")
    ensures Parse.ParseNumber("0x10") == Some(8)
  {
    var ten := ToRadix(16, 16);
    assert ten == ToRadix(1, 16) + [DigitChar(0)];
    assert ten == "10";
    assert NumberToString(16, 16) == ten;
    assert PadStart(ten, 2, '0') == ten;
    var up := ToUpper(ten);
    assert up[0] == '1' && up[1] == '0';
    assert up == "10";
    assert HexField(Some(16), 2) == Returns("0x" + up);
    assert "0x" + up == "0x10";
    Parse.ParseNumberRadix();
  }

  /** A register number the table names shows as a token the parser reads back as that number. */
  lemma RegisterTextParses(regs: RegTable, n: int)
    requires regs.Valid() && 0 <= n < 32
    ensures Parse.TryParseRegister(regs, RegisterText(regs, Some(n))) == Some(n)
  {
    var t := RegisterText(regs, Some(n));
    assert t[1..] == regs.nameOf[n];
  }

  /**
   * A word the codec decodes always displays: the decoded record carries
   * every field its shape shows.
   */
  lemma DecodedWordDisplays(regs: RegTable, ft: FunctTable, codec: RawCodec, s: string, prefixed: bool)
    requires codec.Valid(ft) && Parse.IsHexWord(s)
    requires codec.decode(Parse.RawWord(s)).Some?
    ensures TranslateInstructionToMIPS(regs, ft, codec, if prefixed then "0x" + s else s).Returns?
  {
    Parse.ParseHexLine(regs, ft, codec, s, prefixed);
    Parse.ParseHexLine(regs, ft, codec, s, false);
    DecodedShape(codec, ft, Parse.RawWord(s));
    DecodedRecordDisplays(regs, ft, codec.decode(Parse.RawWord(s)).value);
  }

  /** A record built from a raw instruction whose shape matches its family always displays. */
  lemma DecodedRecordDisplays(regs: RegTable, ft: FunctTable, i: Instruction)
    requires IsReg(ToPartial(i)) <==> i.RegisterInstruction?
    requires IsJump(ToPartial(i)) <==> i.JumpInstruction?
    ensures Display(regs, ft, ToPartial(i)).Returns?
  {
    var p := ToPartial(i);
    if IsReg(p) {
      var roles := RegisterDisplayRoles(ft, p.funct);
      forall k | 0 <= k < |roles| ensures RoleText(regs, p, roles[k], Shamt, 2).Returns? {
        RoleTextThrows(regs, p, roles[k], Shamt, 2);
      }
    } else if !IsJump(p) {
      var roles := ImmediateDisplayRoles(p.op);
      forall k | 0 <= k < |roles| ensures RoleText(regs, p, roles[k], Imm, 4).Returns? {
        RoleTextThrows(regs, p, roles[k], Imm, 4);
      }
    }
  }

  /** A record the parser leaves empty (`{}`) makes the display throw on its missing immediate. */
  lemma EmptyRecordThrows(regs: RegTable, ft: FunctTable, codec: RawCodec, text: string)
    requires Parse.ParsePartialInstruction(regs, ft, codec, Parse.DropHexPrefix(text)) == Returns(Empty)
    ensures TranslateInstructionToMIPS(regs, ft, codec, text) == Throws
  {
    assert ImmediateDisplayRoles(None) == [Rt, Imm, Rs];
    RoleTextThrows(regs, Empty, Imm, Imm, 4);
    assert [Rt, Imm, Rs][1] == Imm;
  }

  /** In particular, a lone word that names nothing makes the display throw. */
  lemma UnknownWordThrows(regs: RegTable, ft: FunctTable, codec: RawCodec, m: string)
    requires IsIdentifier(m) && Parse.PlanOf(ft, m) == Parse.NoPlan
    ensures TranslateInstructionToMIPS(regs, ft, codec, m) == Throws
  {
    Parse.MnemonicLineIsText(m, "");
    assert m + "" == m;
    Parse.UnknownWordIsEmpty(regs, ft, codec, m);
    EmptyRecordThrows(regs, ft, codec, m);
  }

  // ---------------------------------------------------------------------
  // The words of a display
  // ---------------------------------------------------------------------

  /** The characters `toString` writes are not white space, and neither are their upper-case forms. */
  lemma NumberCharIsPlain(c: char)
    requires c == '-' || DigitOf(c) >= 0
    ensures !IsSpace(UpperChar(c))
  {
  }

  /** `n.toString(16)` is a sign and digits. */
  lemma SignedDigits(n: int)
    ensures forall i :: 0 <= i < |NumberToString(n, 16)| ==>
              NumberToString(n, 16)[i] == '-' || DigitOf(NumberToString(n, 16)[i]) >= 0
  {
    var digits := NumberToString(n, 16);
    if n < 0 {
      ToRadixDigits(-n, 16);
      forall i | 0 <= i < |digits| ensures digits[i] == '-' || DigitOf(digits[i]) >= 0 {
        if i > 0 { assert digits[i] == ToRadix(-n, 16)[i - 1]; }
      }
    } else {
      ToRadixDigits(n, 16);
    }
  }

  /** A hexadecimal operand is one word: `0x`, then digits, letters or a sign. */
  lemma HexFieldIsWord(n: int, width: nat)
    ensures var t := HexField(Some(n), width).value; |t| > 0 && NoSpace(t)
  {
    var digits := NumberToString(n, 16);
    SignedDigits(n);
    var padded := PadStart(digits, width, '0');
    var pad := |padded| - |digits|;
    assert forall j :: 0 <= j < |padded| ==> padded[j] == '-' || DigitOf(padded[j]) >= 0 by {
      forall j | 0 <= j < |padded| ensures padded[j] == '-' || DigitOf(padded[j]) >= 0 {
        if j >= pad { assert padded[j] == digits[j - pad]; }
      }
    }
    var up := ToUpper(padded);
    forall j | 0 <= j < |up| ensures !IsSpace(up[j]) {
      NumberCharIsPlain(padded[j]);
    }
    var t := "0x" + up;
    assert HexField(Some(n), width).value == t;
    forall i | 0 <= i < |t| ensures !IsSpace(t[i]) {
      if i >= 2 { assert t[i] == up[i - 2]; }
    }
  }

  lemma RegisterNameIsWord(regs: RegTable, n: int)
    requires regs.Valid() && n in regs.nameOf
    ensures NoSpace("$" + regs.nameOf[n])
  {
    var name := regs.nameOf[n];
    assert name in regs.numberOf;
    IdentifierIsPlainWord(name);
    assert forall i :: 1 <= i < |"$" + name| ==> ("$" + name)[i] == name[i - 1];
  }

  /** Every operand a display pushes is one word. */
  lemma RoleTextIsWord(regs: RegTable, p: PartialInstruction, role: Role, hexRole: Role, width: nat)
    requires regs.Valid()
    requires RoleText(regs, p, role, hexRole, width).Returns?
    ensures var t := RoleText(regs, p, role, hexRole, width).value; |t| > 0 && NoSpace(t)
  {
    if role == hexRole {
      HexFieldIsWord(p.Get(role).value, width);
    } else {
      var v := p.Get(role);
      if v.Some? && v.value in regs.nameOf {
        RegisterNameIsWord(regs, v.value);
      }
    }
  }

  lemma FunctNameIsWord(ft: FunctTable, c: int)
    requires ft.Valid() && c in ft.nameOf
    ensures NoSpace(ft.nameOf[c])
  {
    assert ft.nameOf[c] in ft.codeOf;
    IdentifierIsPlainWord(ft.nameOf[c]);
  }

  /** The name a display starts with has no white space: a function or opcode name, or nothing. */
  lemma HeadIsWord(ft: FunctTable, p: PartialInstruction)
    requires ft.Valid()
    ensures NoSpace(FunctText(ft, p.funct)) && NoSpace(ImmOpText(p.op)) && NoSpace(JumpOpText(p.op))
  {
    if p.funct.Some? && p.funct.value in ft.nameOf {
      FunctNameIsWord(ft, p.funct.value);
    }
    OpcodeTextIsWord(p.op);
  }

  /** The opcode names the displays write, and their fallbacks, hold no white space. */
  lemma OpcodeTextIsWord(op: Option<int>)
    ensures NoSpace(ImmOpText(op)) && NoSpace(JumpOpText(op))
  {
    if op.Some? && (Op.IsImmediateOpcode(op.value) || Op.IsJumpOpcode(op.value)) {
      var o := Op.FromValue(op.value).value;
      assert o != Op.Reg;
      IdentifierIsPlainWord(Op.Name(o));
    }
    UndefinedIsWord();
  }

  lemma UndefinedIsWord()
    ensures NoSpace("undefined")
  {
    IdentifierIsPlainWord("undefined");
  }

  lemma SpaceFree(s: string)
    requires NoSpace(s)
    ensures NoChar(s, ' ')
  {
    assert IsSpace(' ');
  }

  /** Splitting a space-join of words on spaces gives the words back. */
  lemma SpaceJoinSplits(head: string, texts: seq<string>)
    requires NoSpace(head) && forall k :: 0 <= k < |texts| ==> NoSpace(texts[k])
    ensures SplitOnChar(Join([head] + texts, " "), ' ') == [head] + texts
  {
    var xs := [head] + texts;
    assert " " == [' '];
    forall k | 0 <= k < |xs| ensures NoChar(xs[k], ' ') {
      if k > 0 { assert xs[k] == texts[k - 1]; }
      SpaceFree(xs[k]);
    }
    SplitOnCharJoin(xs, ' ');
  }

  /** A space-join of words holds no line break. */
  lemma SpaceJoinNoNewline(head: string, texts: seq<string>)
    requires NoSpace(head) && forall k :: 0 <= k < |texts| ==> NoSpace(texts[k])
    ensures NoChar(Join([head] + texts, " "), '\n')
  {
    var xs := [head] + texts;
    assert IsSpace('\n');
    forall k | 0 <= k < |xs| ensures NoChar(xs[k], '\n') {
      if k > 0 { assert xs[k] == texts[k - 1]; }
    }
    JoinNoChar(xs, " ", '\n');
  }

  /** A register display is its function name and one word per role, separated by single spaces. */
  lemma RDisplayWords(regs: RegTable, ft: FunctTable, p: PartialInstruction, roles: seq<Role>)
    requires regs.Valid() && ft.Valid()
    requires RDisplay(regs, ft, p, roles).Returns?
    ensures var texts := OperandTexts(regs, p, roles, Shamt, 2).value;
      SplitOnChar(RDisplay(regs, ft, p, roles).value, ' ') == [FunctText(ft, p.funct)] + texts
      && |texts| == |roles| && forall k :: 0 <= k < |texts| ==> |texts[k]| > 0
    ensures NoChar(RDisplay(regs, ft, p, roles).value, '\n')
  {
    var texts := OperandTexts(regs, p, roles, Shamt, 2).value;
    forall k | 0 <= k < |texts| ensures NoSpace(texts[k]) && |texts[k]| > 0 {
      RoleTextIsWord(regs, p, roles[k], Shamt, 2);
    }
    HeadIsWord(ft, p);
    SpaceJoinSplits(FunctText(ft, p.funct), texts);
    SpaceJoinNoNewline(FunctText(ft, p.funct), texts);
  }

  /** An immediate display is its opcode name and one word per role, separated by single spaces. */
  lemma IDisplayWords(regs: RegTable, ft: FunctTable, p: PartialInstruction, roles: seq<Role>)
    requires regs.Valid() && ft.Valid()
    requires IDisplay(regs, p, roles).Returns?
    ensures var texts := OperandTexts(regs, p, roles, Imm, 4).value;
      SplitOnChar(IDisplay(regs, p, roles).value, ' ') == [ImmOpText(p.op)] + texts
      && |texts| == |roles| && forall k :: 0 <= k < |texts| ==> |texts[k]| > 0
    ensures NoChar(IDisplay(regs, p, roles).value, '\n')
  {
    var texts := OperandTexts(regs, p, roles, Imm, 4).value;
    forall k | 0 <= k < |texts| ensures NoSpace(texts[k]) && |texts[k]| > 0 {
      RoleTextIsWord(regs, p, roles[k], Imm, 4);
    }
    HeadIsWord(ft, p);
    SpaceJoinSplits(ImmOpText(p.op), texts);
    SpaceJoinNoNewline(ImmOpText(p.op), texts);
  }

  /** A jump display is two words: the jump's name and its target. */
  lemma JDisplayWords(ft: FunctTable, p: PartialInstruction)
    requires ft.Valid()
    requires JDisplay(p).Returns?
    ensures SplitOnChar(JDisplay(p).value, ' ') == [JumpOpText(p.op), HexField(p.imm, 7).value]
    ensures NoChar(JDisplay(p).value, '\n')
  {
    HeadIsWord(ft, p);
    HexFieldIsWord(p.imm.value, 7);
    var xs := [JumpOpText(p.op), HexField(p.imm, 7).value];
    assert Join(xs, " ") == JDisplay(p).value by {
      assert xs[1..] == [HexField(p.imm, 7).value];
    }
    SpaceJoinSplits(JumpOpText(p.op), [HexField(p.imm, 7).value]);
    SpaceJoinNoNewline(JumpOpText(p.op), [HexField(p.imm, 7).value]);
    assert [JumpOpText(p.op)] + [HexField(p.imm, 7).value] == xs;
  }

  // ---------------------------------------------------------------------
  // A three-register arithmetic line, there and back
  // ---------------------------------------------------------------------

  /** `m $a $b $c` is the four words joined by single spaces. */
  lemma SpacedLine(m: string, a: string, b: string, c: string)
    ensures Join([m, "$" + a, "$" + b, "$" + c], " ") == m + " $" + a + " $" + b + " $" + c
  {
    var xs := [m, "$" + a, "$" + b, "$" + c];
    assert xs[1..][1..][1..] == ["$" + c];
    assert Join(xs[1..][1..], " ") == "$" + b + " " + ("$" + c);
    Parse.SeparatorThenToken(" ", "$", " $", "$" + b, c);
    assert Join(xs[1..], " ") == "$" + a + " " + ("$" + b + " $" + c);
    Parse.SeparatorThenToken(" ", "$", " $", "$" + a, b + " $" + c);
    assert Join(xs, " ") == m + " " + ("$" + a + " $" + (b + " $" + c));
    Parse.SeparatorThenToken(" ", "$", " $", m, a + " $" + (b + " $" + c));
  }

  /** A register number shows as the name it was read from. */
  lemma RegisterTextOfName(regs: RegTable, a: string)
    requires regs.Valid() && a in regs.numberOf
    ensures RegisterText(regs, Some(regs.numberOf[a])) == "$" + a
  {
  }

  /** The register display of an arithmetic record shows the function name and `rd rs rt`. */
  lemma ArithmeticRecordDisplay(regs: RegTable, ft: FunctTable, m: string, a: string, b: string, c: string)
    requires regs.Valid() && ft.Valid()
    requires ft.NameInGroup(m, Arithmetic)
    requires a in regs.numberOf && b in regs.numberOf && c in regs.numberOf
    ensures var p := PartialInstruction(
              op := Some(0), funct := Some(ft.codeOf[m]),
              rs := Some(regs.numberOf[b]), rt := Some(regs.numberOf[c]), rd := Some(regs.numberOf[a]),
              shamt := Some(0), imm := None);
            RDisplay(regs, ft, p, RegisterDisplayRoles(ft, p.funct)) == Returns(m + " $" + a + " $" + b + " $" + c)
  {
    var p := PartialInstruction(
      op := Some(0), funct := Some(ft.codeOf[m]),
      rs := Some(regs.numberOf[b]), rt := Some(regs.numberOf[c]), rd := Some(regs.numberOf[a]),
      shamt := Some(0), imm := None);
    assert RegisterDisplayRoles(ft, p.funct) == [Rd, Rs, Rt];
    assert FunctText(ft, p.funct) == m;
    RegisterTextOfName(regs, a);
    RegisterTextOfName(regs, b);
    RegisterTextOfName(regs, c);
    ThreeRegisterDisplay(regs, ft, p, Rd, Rs, Rt);
    SpacedLine(m, a, b, c);
  }

  /** A register display of three register roles: the function name and the three registers. */
  lemma ThreeRegisterDisplay(regs: RegTable, ft: FunctTable, p: PartialInstruction, x: Role, y: Role, z: Role)
    requires x != Shamt && y != Shamt && z != Shamt
    ensures RDisplay(regs, ft, p, [x, y, z])
            == Returns(Join([FunctText(ft, p.funct), RegisterText(regs, p.Get(x)),
                             RegisterText(regs, p.Get(y)), RegisterText(regs, p.Get(z))], " "))
  {
    var roles := [x, y, z];
    var texts := OperandTexts(regs, p, roles, Shamt, 2);
    assert texts.Returns?;
    assert texts.value == [RegisterText(regs, p.Get(x)), RegisterText(regs, p.Get(y)), RegisterText(regs, p.Get(z))];
  }

  /** `m $a, $b, $c` with an arithmetic function `m` displays as `m $a $b $c`. */
  lemma ArithmeticLineDisplay(regs: RegTable, ft: FunctTable, codec: RawCodec, m: string, a: string, b: string, c: string)
    requires regs.Valid() && ft.Valid()
    requires ft.NameInGroup(m, Arithmetic)
    requires a in regs.numberOf && b in regs.numberOf && c in regs.numberOf
    ensures TranslateInstructionToMIPS(regs, ft, codec, m + " $" + a + ", $" + b + ", $" + c)
            == Returns(m + " $" + a + " $" + b + " $" + c)
  {
    var line := m + " $" + a + ", $" + b + ", $" + c;
    assert IsIdentifier(m);
    assert line == m + line[|m|..];
    Parse.MnemonicLineIsText(m, line[|m|..]);
    Parse.ParseArithmeticLine(regs, ft, codec, m, a, b, c);
    ArithmeticRecordDisplay(regs, ft, m, a, b, c);
  }

  /**
   * The display does not read back: `m $a $b $c` is one comma segment, of
   * which the parser keeps two words, so only `rd` is recovered.
   */
  lemma ArithmeticDisplayReparse(regs: RegTable, ft: FunctTable, codec: RawCodec, m: string, a: string, b: string, c: string)
    requires regs.Valid() && ft.Valid()
    requires ft.NameInGroup(m, Arithmetic)
    requires a in regs.numberOf && b in regs.numberOf && c in regs.numberOf
    ensures Parse.ParsePartialInstruction(regs, ft, codec, m + " $" + a + " $" + b + " $" + c)
            == Returns(PartialInstruction(
                 op := Some(0), funct := Some(ft.codeOf[m]),
                 rs := None, rt := None, rd := Some(regs.numberOf[a]),
                 shamt := Some(0), imm := None))
  {
    assert IsIdentifier(m);
    Parse.RegisterTokenIsWord(regs, a);
    var extra := "$" + b + " $" + c;
    ExtraWords(regs, b, c);
    DisplayLineSplits(m, a, b, c);
    Parse.ParseDropsExtraWords(regs, ft, codec, m, "$" + a, extra, []);
    OneOperandArithmetic(regs, ft, codec, m, a);
  }

  /** `m $a $b $c` is the first piece `m` + ` ` + (`$a` + ` ` + `$b $c`), alone in its comma-join. */
  lemma DisplayLineSplits(m: string, a: string, b: string, c: string)
    ensures Join([m + " " + ("$" + a + " " + ("$" + b + " $" + c))] + [], ", ") == m + " $" + a + " $" + b + " $" + c
    ensures m + " " + Join(["$" + a] + [], ", ") == m + " $" + a
  {
    assert [m + " " + ("$" + a + " " + ("$" + b + " $" + c))] + [] == [m + " " + ("$" + a + " " + ("$" + b + " $" + c))];
    assert ["$" + a] + [] == ["$" + a];
    Parse.SeparatorThenToken(" ", "$", " $", "$" + a, b + " $" + c);
    Parse.SeparatorThenToken(" ", "$", " $", m, a + " $" + b + " $" + c);
    Parse.SeparatorThenToken(" ", "$", " $", m, a);
  }

  /** `m $a` with an arithmetic function `m` fills `rd` alone. */
  lemma OneOperandArithmetic(regs: RegTable, ft: FunctTable, codec: RawCodec, m: string, a: string)
    requires regs.Valid() && ft.Valid()
    requires ft.NameInGroup(m, Arithmetic) && a in regs.numberOf
    ensures Parse.ParsePartialInstruction(regs, ft, codec, m + " $" + a)
            == Returns(PartialInstruction(
                 op := Some(0), funct := Some(ft.codeOf[m]),
                 rs := None, rt := None, rd := Some(regs.numberOf[a]),
                 shamt := Some(0), imm := None))
  {
    assert IsIdentifier(m);
    Parse.RegisterTokenIsWord(regs, a);
    var ops := ["$" + a];
    assert Join(ops, ", ") == "$" + a;
    Parse.SeparatorThenToken(" ", "$", " $", m, a);
    Parse.ParseCanonical(regs, ft, codec, m, ops);
    Parse.ArithmeticRecord(regs, ft, m, ops);
  }

  /** `$b $c` is a comma-free piece without white space at either end. */
  lemma ExtraWords(regs: RegTable, b: string, c: string)
    requires regs.Valid() && b in regs.numberOf && c in regs.numberOf
    ensures var extra := "$" + b + " $" + c; |extra| > 0 && NoChar(extra, ',') && Trimmed(extra)
  {
    Parse.RegisterTokenIsWord(regs, b);
    Parse.RegisterTokenIsWord(regs, c);
    var extra := "$" + b + " $" + c;
    assert extra == ("$" + b) + (" " + ("$" + c));
    assert NoChar(" " + ("$" + c), ',') by {
      NoCharConcat(" ", "$" + c, ',');
    }
    NoCharConcat("$" + b, " " + ("$" + c), ',');
    assert extra[|extra| - 1] == ("$" + c)[|"$" + c| - 1];
  }

  // ---------------------------------------------------------------------
  // Binary and hexadecimal strings
  // ---------------------------------------------------------------------

  /** The zeros `binaryToHex` prepends: the fewest that make the length a multiple of four. */
  function PadCount(n: nat): (k: nat)
    ensures k < 4 && (n + k) % 4 == 0
  {
    (4 - n % 4) % 4
  }

  /** No smaller count of zeros reaches a multiple of four. */
  lemma PadCountLeast(n: nat, k: nat)
    requires k <= PadCount(n)
    ensures (n + k) % 4 == 0 <==> k == PadCount(n)
  {
  }

  /** `parseInt(chunk, 2).toString(16)`: the chunk's value in hexadecimal, or `NaN`. */
  function ChunkDigit(chunk: string): string {
    match ParseInt(chunk, 2)
    case None => "NaN"
    case Some(v) => NumberToString(v, 16)
  }

  /** The text the chunk loop appends for a string whose length is a multiple of four. */
  function HexChunks(s: string): string
    requires |s| % 4 == 0
    decreases |s|
  {
    if |s| == 0 then "" else HexChunks(s[..|s| - 4]) + ChunkDigit(s[|s| - 4..])
  }

  /** What `binaryToHex` returns: `0x` and the upper-cased digits of the zero-padded string. */
  function HexOfBinary(bits: string): string {
    "0x" + ToUpper(HexChunks(Repeat('0', PadCount(|bits|)) + bits))
  }

  lemma PadOneMore(k: nat, s: string)
    ensures "0" + (Repeat('0', k) + s) == Repeat('0', k + 1) + s
  {
  }

  lemma FourMore(i: int, n: int)
    requires i % 4 == 0 && n % 4 == 0 && 0 <= i < n
    ensures i + 4 <= n && (i + 4) % 4 == 0
  {
  }

  lemma HexChunksStep(s: string, i: nat)
    requires i % 4 == 0 && i + 4 <= |s|
    ensures HexChunks(s[..i + 4]) == HexChunks(s[..i]) + ChunkDigit(s[i..i + 4])
  {
    assert s[..i + 4][..i] == s[..i];
    assert s[..i + 4][i..] == s[i..i + 4];
  }

  /** `binaryToHex`: pads with zeros on the left, then converts four bits at a time. */
  method BinaryToHex(binaryString: string) returns (r: string)
    ensures r == HexOfBinary(binaryString)
  {
    var padded := binaryString;
    while |padded| % 4 != 0
      invariant |binaryString| <= |padded| <= |binaryString| + PadCount(|binaryString|)
      invariant padded == Repeat('0', |padded| - |binaryString|) + binaryString
      decreases |binaryString| + PadCount(|binaryString|) - |padded|
    {
      PadCountLeast(|binaryString|, |padded| - |binaryString|);
      PadOneMore(|padded| - |binaryString|, binaryString);
      padded := "0" + padded;
    }
    PadCountLeast(|binaryString|, |padded| - |binaryString|);
    ghost var zeros := Repeat('0', PadCount(|binaryString|));
    assert padded == zeros + binaryString;
    var hexString := "";
    var i := 0;
    while i < |padded|
      invariant 0 <= i <= |padded| && i % 4 == 0
      invariant padded == zeros + binaryString && |padded| % 4 == 0
      invariant hexString == HexChunks(padded[..i])
    {
      FourMore(i, |padded|);
      var binaryChunk := padded[i..i + 4];
      var hexDigit := ChunkDigit(binaryChunk);
      HexChunksStep(padded, i);
      hexString := hexString + hexDigit;
      i := i + 4;
    }
    assert padded[..i] == padded;
    assert hexString == HexChunks(zeros + binaryString);
    r := "0x" + ToUpper(hexString);
  }

  /** `parseInt(c, 16).toString(2).padStart(4, '0')` for one character. */
  function NibbleBits(c: char): string {
    var bin := match ParseInt([c], 16) case None => "NaN" case Some(v) => NumberToString(v, 2);
    PadStart(bin, 4, '0')
  }

  /** What `hexToBinary` returns: four bits per character. */
  function BinaryOfHex(hex: string): string
    decreases |hex|
  {
    if |hex| == 0 then "" else BinaryOfHex(hex[..|hex| - 1]) + NibbleBits(hex[|hex| - 1])
  }

  /** `hexToBinary`: appends the padded binary form of each character in turn. */
  method HexToBinary(hex: string) returns (binary: string)
    ensures binary == BinaryOfHex(hex)
  {
    binary := "";
    for i := 0 to |hex|
      invariant binary == BinaryOfHex(hex[..i])
    {
      assert hex[..i + 1][..i] == hex[..i];
      var bin := NibbleBits(hex[i]);
      binary := binary + bin;
    }
    assert hex[..|hex|] == hex;
  }

  // ---------------------------------------------------------------------
  // Properties of the converters
  // ---------------------------------------------------------------------

  /** A string of digits of radix 2 is a string of `0` and `1`. */
  lemma BinaryDigitsAreBits(s: string)
    requires AllDigits(s, 2)
    ensures AllBinary(s)
  {
    forall i | 0 <= i < |s| ensures IsBinaryDigit(s[i]) {
      assert 0 <= DigitOf(s[i]) < 2;
    }
  }

  /** A string of `0` and `1` is a string of digits of radix 2. */
  lemma BitsAreBinaryDigits(s: string)
    requires AllBinary(s)
    ensures AllDigits(s, 2)
  {
  }

  /** A hexadecimal digit reads as its value. */
  lemma HexCharParses(c: char)
    requires IsDigit(c, 16)
    ensures ParseInt([c], 16) == Some(DigitOf(c))
  {
    ReadPlainDigits([c], 16);
    assert [c][..0] == "";
  }

  /** A hexadecimal digit becomes four bits worth its value. */
  lemma NibbleOfDigit(c: char)
    requires IsDigit(c, 16)
    ensures |NibbleBits(c)| == 4 && AllBinary(NibbleBits(c)) && AllDigits(NibbleBits(c), 2)
    ensures DigitsValue(NibbleBits(c), 2) == DigitOf(c)
  {
    HexCharParses(c);
    assert Pow(2, 4) == 16;
    PaddedDigits(DigitOf(c), 2, 4);
    BinaryDigitsAreBits(NibbleBits(c));
  }

  /** Four bits give one hexadecimal digit worth their value. */
  lemma ChunkOfBits(s: string)
    requires |s| == 4 && AllBinary(s)
    ensures AllDigits(s, 2) && DigitsValue(s, 2) < 16
    ensures ChunkDigit(s) == [DigitChar(DigitsValue(s, 2))]
  {
    BitsAreBinaryDigits(s);
    ReadPlainDigits(s, 2);
    DigitsBelowPower(s, 2);
    assert Pow(2, 4) == 16;
    var d := DigitsValue(s, 2);
    assert ParseInt(s, 2) == Some(d);
  }

  /** Appending four bits multiplies the value by sixteen and adds theirs. */
  lemma AppendFourBits(front: string, nibble: string)
    requires AllBinary(front) && AllBinary(nibble) && |nibble| == 4
    ensures AllBinary(front + nibble) && AllDigits(front + nibble, 2)
    ensures AllDigits(front, 2) && AllDigits(nibble, 2)
    ensures DigitsValue(front + nibble, 2) == DigitsValue(front, 2) * 16 + DigitsValue(nibble, 2)
  {
    BitsAreBinaryDigits(front);
    BitsAreBinaryDigits(nibble);
    DigitsValueConcat(front, nibble, 2);
    assert Pow(2, 4) == 16;
    BinaryDigitsAreBits(front + nibble);
  }

  /** The value of a digit string is the value of all but its last digit, times the radix, plus the last. */
  lemma LastDigit(h: string, radix: Radix)
    requires |h| > 0 && AllDigits(h, radix)
    ensures AllDigits(h[..|h| - 1], radix) && IsDigit(h[|h| - 1], radix)
    ensures DigitsValue(h, radix) == DigitsValue(h[..|h| - 1], radix) * radix + DigitOf(h[|h| - 1])
  {
  }

  /** The bits of all but the last digit, then four bits worth the last digit, are worth all the digits. */
  lemma HexDigitStep(h: string, front: string, nibble: string)
    requires |h| > 0 && AllDigits(h, 16)
    requires |front| == 4 * (|h| - 1) && AllBinary(front) && DigitsValue(front, 2) == DigitsValue(h[..|h| - 1], 16)
    requires |nibble| == 4 && AllBinary(nibble) && DigitsValue(nibble, 2) == DigitOf(h[|h| - 1])
    ensures |front + nibble| == 4 * |h| && AllBinary(front + nibble) && AllDigits(front + nibble, 2)
    ensures DigitsValue(front + nibble, 2) == DigitsValue(h, 16)
  {
    LastDigit(h, 16);
    AppendFourBits(front, nibble);
  }

  /** The number of binary digits `hexToBinary` writes, their value and their kind. */
  lemma {:induction false} BinaryOfHexDigits(h: string)
    requires AllDigits(h, 16)
    ensures |BinaryOfHex(h)| == 4 * |h|
    ensures AllBinary(BinaryOfHex(h)) && AllDigits(BinaryOfHex(h), 2)
    ensures DigitsValue(BinaryOfHex(h), 2) == DigitsValue(h, 16)
    decreases |h|
  {
    if |h| > 0 {
      var n := |h| - 1;
      BinaryOfHexDigits(h[..n]);
      NibbleOfDigit(h[n]);
      HexDigitStep(h, BinaryOfHex(h[..n]), NibbleBits(h[n]));
    } else {
      assert DigitsValue(BinaryOfHex(h), 2) == 0;
    }
  }

  /** Cutting four bits off the end of a string whose length is a multiple of four. */
  lemma CutFourBits(s: string)
    requires |s| % 4 == 0 && |s| > 0 && AllBinary(s)
    ensures var front, chunk := s[..|s| - 4], s[|s| - 4..];
      s == front + chunk && |front| % 4 == 0 && |chunk| == 4 && AllBinary(front) && AllBinary(chunk)
  {
    var front, chunk := s[..|s| - 4], s[|s| - 4..];
    assert s == front + chunk;
  }

  /** The number of hexadecimal digits the chunk loop writes, their value and their kind. */
  lemma {:induction false} HexChunksDigits(s: string)
    requires |s| % 4 == 0 && AllBinary(s)
    ensures |HexChunks(s)| == |s| / 4
    ensures AllDigits(HexChunks(s), 16) && AllDigits(s, 2)
    ensures DigitsValue(HexChunks(s), 16) == DigitsValue(s, 2)
    decreases |s|
  {
    BitsAreBinaryDigits(s);
    if |s| > 0 {
      CutFourBits(s);
      var front, chunk := s[..|s| - 4], s[|s| - 4..];
      HexChunksDigits(front);
      ChunkOfBits(chunk);
      DigitsValueSnoc(HexChunks(front), DigitsValue(chunk, 2), 16);
      AppendFourBits(front, chunk);
    }
  }

  /** Zeros padded on the left keep a bit string binary and keep its value. */
  lemma PaddedBits(bits: string, k: nat)
    requires AllBinary(bits)
    ensures AllBinary(Repeat('0', k) + bits) && AllDigits(bits, 2)
    ensures AllDigits(Repeat('0', k) + bits, 2)
    ensures DigitsValue(Repeat('0', k) + bits, 2) == DigitsValue(bits, 2)
  {
    BitsAreBinaryDigits(bits);
    DigitsValueZeros(k, bits, 2);
    BinaryDigitsAreBits(Repeat('0', k) + bits);
  }

  /** `0x` and the upper-cased digits: upper-case hexadecimal worth the digits' value. */
  lemma PrefixedUpperHex(h: string)
    requires AllDigits(h, 16)
    ensures var r := "0x" + ToUpper(h);
      |r| == 2 + |h| && r[..2] == "0x" && r[2..] == ToUpper(h)
      && AllUpperHex(r[2..]) && AllDigits(r[2..], 16) && DigitsValue(r[2..], 16) == DigitsValue(h, 16)
  {
    DigitsValueUpper(h, 16);
    UpperHexDigits(h);
    var r := "0x" + ToUpper(h);
    assert r[2..] == ToUpper(h);
  }

  /**
   * `binaryToHex` on a string of bits: `0x`, then one upper-case digit per
   * four bits after padding, worth the value of the bits.
   */
  lemma BinaryToHexValue(bits: string)
    requires AllBinary(bits)
    ensures var r := HexOfBinary(bits);
      |r| == 2 + (|bits| + PadCount(|bits|)) / 4 && r[..2] == "0x"
      && AllUpperHex(r[2..]) && AllDigits(r[2..], 16) && AllDigits(bits, 2)
      && DigitsValue(r[2..], 16) == DigitsValue(bits, 2)
  {
    var k := PadCount(|bits|);
    var padded := Repeat('0', k) + bits;
    PaddedBits(bits, k);
    assert |padded| == |bits| + k && (|bits| + k) % 4 == 0;
    HexChunksDigits(padded);
    PrefixedUpperHex(HexChunks(padded));
  }

  /** Two bit strings of one length and one value are the same string. */
  lemma {:induction false} BinaryUnique(a: string, b: string)
    requires |a| == |b| && AllBinary(a) && AllBinary(b)
    requires AllDigits(a, 2) && AllDigits(b, 2) && DigitsValue(a, 2) == DigitsValue(b, 2)
    ensures a == b
    decreases |a|
  {
    if |a| > 0 {
      var n := |a| - 1;
      var a', b' := a[..n], b[..n];
      LastDigit(a, 2);
      LastDigit(b, 2);
      HalvesAndBits(DigitsValue(a', 2), DigitsValue(b', 2), DigitOf(a[n]), DigitOf(b[n]));
      assert AllBinary(a') && AllBinary(b');
      BinaryUnique(a', b');
      assert a[n] == b[n] by {
        assert IsBinaryDigit(a[n]) && IsBinaryDigit(b[n]);
      }
      assert a == a' + [a[n]] && b == b' + [b[n]];
    }
  }

  /** Twice a number plus a bit determines both. */
  lemma HalvesAndBits(x: int, y: int, d: int, e: int)
    requires 0 <= d < 2 && 0 <= e < 2 && x * 2 + d == y * 2 + e
    ensures x == y && d == e
  {
  }

  /** Hexadecimal to binary and back gives `0x` and the digits, upper-cased. */
  lemma HexBinaryRoundTrip(h: string)
    requires AllDigits(h, 16)
    ensures HexOfBinary(BinaryOfHex(h)) == "0x" + ToUpper(h)
  {
    BinaryOfHexDigits(h);
    HexOfBits(BinaryOfHex(h), h);
  }

  lemma FourTimes(k: nat)
    ensures PadCount(4 * k) == 0 && (4 * k) / 4 == k
  {
  }

  /** Bits worth the value of some hexadecimal digits, four per digit, convert to those digits. */
  lemma HexOfBits(bits: string, h: string)
    requires AllDigits(h, 16) && AllBinary(bits) && AllDigits(bits, 2)
    requires |bits| == 4 * |h| && DigitsValue(bits, 2) == DigitsValue(h, 16)
    ensures HexOfBinary(bits) == "0x" + ToUpper(h)
  {
    BinaryToHexValue(bits);
    var r := HexOfBinary(bits);
    FourTimes(|h|);
    DigitsValueUpper(h, 16);
    UpperHexDigits(h);
    UpperHexUnique(r[2..], ToUpper(h));
    assert r == r[..2] + r[2..];
  }

  /** Binary to hexadecimal and back gives the bits, with the padding zeros in front. */
  lemma BinaryHexRoundTrip(bits: string)
    requires AllBinary(bits)
    ensures BinaryOfHex(HexOfBinary(bits)[2..]) == Repeat('0', PadCount(|bits|)) + bits
  {
    var padded := Repeat('0', PadCount(|bits|)) + bits;
    BinaryToHexValue(bits);
    var h := HexOfBinary(bits)[2..];
    BinaryOfHexDigits(h);
    BitsAreBinaryDigits(bits);
    DigitsValueZeros(PadCount(|bits|), bits, 2);
    assert AllBinary(padded) by {
      BinaryDigitsAreBits(padded);
    }
    BinaryUnique(BinaryOfHex(h), padded);
  }

  // ---------------------------------------------------------------------
  // Whole texts, line by line
  // ---------------------------------------------------------------------

  /**
   * `textInput.trim().split('\n')`, each line trimmed: at least one line,
   * every one trimmed and free of line breaks.
   */
  function Lines(textInput: string): (lines: seq<string>)
    ensures |lines| >= 1
    ensures forall k :: 0 <= k < |lines| ==> Trimmed(lines[k]) && NoChar(lines[k], '\n')
  {
    var raw := SplitOnChar(Trim(textInput), '\n');
    var lines := seq(|raw|, k requires 0 <= k < |raw| => Trim(raw[k]));
    assert forall k :: 0 <= k < |raw| ==> NoChar(lines[k], '\n') by {
      forall k | 0 <= k < |raw| ensures NoChar(lines[k], '\n') {
        TrimNoChar(raw[k], '\n');
      }
    }
    lines
  }

  /**
   * Trimmed lines without line breaks, joined by newlines, split back into
   * the same lines, provided the first and last are not empty when there are
   * several (an empty end line would be trimmed away with its newline).
   */
  lemma LinesOfJoin(xs: seq<string>)
    requires |xs| >= 1
    requires forall k :: 0 <= k < |xs| ==> Trimmed(xs[k]) && NoChar(xs[k], '\n')
    requires |xs| > 1 ==> xs[0] != "" && xs[|xs| - 1] != ""
    ensures Lines(Join(xs, "\n")) == xs
  {
    var s := Join(xs, "\n");
    JoinTrimmed(xs, "\n");
    TrimOfTrimmed(s);
    SplitOnCharJoin(xs, '\n');
    LinesOfPieces(s, xs);
  }

  /** The lines of a text whose trimmed pieces are already trimmed are those pieces. */
  lemma LinesOfPieces(s: string, xs: seq<string>)
    requires SplitOnChar(Trim(s), '\n') == xs
    requires forall k :: 0 <= k < |xs| ==> Trimmed(xs[k])
    ensures Lines(s) == xs
  {
    forall k | 0 <= k < |xs| ensures Lines(s)[k] == xs[k] {
      TrimOfTrimmed(xs[k]);
    }
  }

  /** `textInput.trim().split('\\n').map(translate).join('\\n')`, with each line trimmed first. */
  function MapLines(textInput: string, translate: string -> Outcome<string>): Outcome<string> {
    TranslateEach(Lines(textInput), translate)
  }

  /** `lines.map(translate).join('\\n')`. */
  function TranslateEach(lines: seq<string>, translate: string -> Outcome<string>): Outcome<string> {
    match Collect(seq(|lines|, k requires 0 <= k < |lines| => translate(lines[k])))
    case Throws => Throws
    case Returns(translated) => Returns(Join(translated, "\n"))
  }

  /** `translateHextoMIPS`: each trimmed line displayed, the results joined by newlines. */
  function TranslateHexToMIPS(regs: RegTable, ft: FunctTable, codec: RawCodec, textInput: string): (r: Outcome<string>)
    ensures r.Returns? <==> forall k :: 0 <= k < |Lines(textInput)| ==>
              TranslateInstructionToMIPS(regs, ft, codec, Lines(textInput)[k]).Returns?
  {
    var translate := line => TranslateInstructionToMIPS(regs, ft, codec, line);
    TranslateEachReturns(Lines(textInput), translate);
    MapLines(textInput, translate)
  }

  /** `translateMIPStoHex`: each trimmed line encoded, the results joined by newlines. */
  function TranslateMIPSToHex(regs: RegTable, ft: FunctTable, codec: RawCodec, textInput: string): (r: Outcome<string>)
    ensures r.Returns? <==> forall k :: 0 <= k < |Lines(textInput)| ==>
              TranslateInstructionToHex(regs, ft, codec, Lines(textInput)[k]).Returns?
  {
    var translate := line => TranslateInstructionToHex(regs, ft, codec, line);
    TranslateEachReturns(Lines(textInput), translate);
    MapLines(textInput, translate)
  }

  /** No branch of the display writes a line break. */
  lemma DisplayBranchesNoNewline(regs: RegTable, ft: FunctTable, p: PartialInstruction)
    ensures regs.Valid() && ft.Valid() && IsReg(p) && RDisplay(regs, ft, p, RegisterDisplayRoles(ft, p.funct)).Returns? ==>
              NoChar(RDisplay(regs, ft, p, RegisterDisplayRoles(ft, p.funct)).value, '\n')
    ensures regs.Valid() && ft.Valid() && IsJump(p) && JDisplay(p).Returns? ==> NoChar(JDisplay(p).value, '\n')
    ensures regs.Valid() && ft.Valid() && IDisplay(regs, p, ImmediateDisplayRoles(p.op)).Returns? ==>
              NoChar(IDisplay(regs, p, ImmediateDisplayRoles(p.op)).value, '\n')
  {
    if regs.Valid() && ft.Valid() {
      if IsReg(p) && RDisplay(regs, ft, p, RegisterDisplayRoles(ft, p.funct)).Returns? {
        RDisplayWords(regs, ft, p, RegisterDisplayRoles(ft, p.funct));
      }
      if IsJump(p) && JDisplay(p).Returns? {
        JDisplayWords(ft, p);
      }
      if IDisplay(regs, p, ImmediateDisplayRoles(p.op)).Returns? {
        IDisplayWords(regs, ft, p, ImmediateDisplayRoles(p.op));
      }
    }
  }

  /** A rendered word never holds a line break. */
  lemma HexTextHasNoNewline(w: int)
    ensures NoChar(HexText(w), '\n')
  {
    var digits := NumberToString(w, 16);
    SignedDigits(w);
    var up := ToUpper(digits);
    forall j | 0 <= j < |up| ensures up[j] != '\n' {
      NumberCharIsPlain(digits[j]);
    }
    var t := HexText(w);
    var pad := |t| - |up|;
    forall i | 0 <= i < |t| ensures t[i] != '\n' {
      if i >= pad { assert t[i] == up[i - pad]; }
    }
  }

  /**
   * A translation of every line that never writes a line break: the text
   * translates exactly when every line does, into one line per input line,
   * in order.
   */
  lemma MapLinesLines(textInput: string, translate: string -> Outcome<string>)
    requires forall line :: translate(line).Returns? ==> NoChar(translate(line).value, '\n')
    ensures var lines := Lines(textInput);
      (MapLines(textInput, translate).Returns?) <==> forall k :: 0 <= k < |lines| ==> translate(lines[k]).Returns?
    ensures var lines := Lines(textInput);
      MapLines(textInput, translate).Returns? ==>
        var out := SplitOnChar(MapLines(textInput, translate).value, '\n');
        |out| == |lines| && forall k :: 0 <= k < |lines| ==> out[k] == translate(lines[k]).value
  {
    TranslateEachLines(Lines(textInput), translate);
  }

  /** `TranslateEach` returns exactly when every line translates. */
  lemma TranslateEachReturns(lines: seq<string>, translate: string -> Outcome<string>)
    ensures (TranslateEach(lines, translate).Returns?) <==> forall k :: 0 <= k < |lines| ==> translate(lines[k]).Returns?
  {
    var outs := seq(|lines|, k requires 0 <= k < |lines| => translate(lines[k]));
    assert forall k :: 0 <= k < |lines| ==> outs[k] == translate(lines[k]);
  }

  /** `TranslateEach` on a non-empty list of lines writes one line per line, in order. */
  lemma TranslateEachLines(lines: seq<string>, translate: string -> Outcome<string>)
    requires |lines| >= 1
    requires forall line :: translate(line).Returns? ==> NoChar(translate(line).value, '\n')
    ensures (TranslateEach(lines, translate).Returns?) <==> forall k :: 0 <= k < |lines| ==> translate(lines[k]).Returns?
    ensures TranslateEach(lines, translate).Returns? ==>
        var out := SplitOnChar(TranslateEach(lines, translate).value, '\n');
        |out| == |lines| && forall k :: 0 <= k < |lines| ==> out[k] == translate(lines[k]).value
  {
    TranslateEachReturns(lines, translate);
    var outs := seq(|lines|, k requires 0 <= k < |lines| => translate(lines[k]));
    assert forall k :: 0 <= k < |lines| ==> outs[k] == translate(lines[k]);
    if Collect(outs).Returns? {
      var translated := Collect(outs).value;
      assert forall k :: 0 <= k < |translated| ==> NoChar(translated[k], '\n');
      assert "\n" == ['\n'];
      SplitOnCharJoin(translated, '\n');
    }
  }

  /**
   * `translateHextoMIPS` translates every line or none, and what it returns
   * has one line per input line, each the display of that line, in order.
   */
  lemma HexToMIPSLines(regs: RegTable, ft: FunctTable, codec: RawCodec, textInput: string)
    requires regs.Valid() && ft.Valid()
    ensures var lines := Lines(textInput);
      (TranslateHexToMIPS(regs, ft, codec, textInput).Returns?)
        <==> forall k :: 0 <= k < |lines| ==> TranslateInstructionToMIPS(regs, ft, codec, lines[k]).Returns?
    ensures var lines := Lines(textInput);
      TranslateHexToMIPS(regs, ft, codec, textInput).Returns? ==>
        var out := SplitOnChar(TranslateHexToMIPS(regs, ft, codec, textInput).value, '\n');
        |out| == |lines| && forall k :: 0 <= k < |lines| ==> out[k] == TranslateInstructionToMIPS(regs, ft, codec, lines[k]).value
  {
    var translate := line => TranslateInstructionToMIPS(regs, ft, codec, line);
    assert forall line :: translate(line).Returns? ==> NoChar(translate(line).value, '\n');
    MapLinesLines(textInput, translate);
  }

  /**
   * `translateMIPStoHex` encodes every line or none, and what it returns has
   * one line per input line, each the word of that line, in order.
   */
  lemma MIPSToHexLines(regs: RegTable, ft: FunctTable, codec: RawCodec, textInput: string)
    ensures var lines := Lines(textInput);
      (TranslateMIPSToHex(regs, ft, codec, textInput).Returns?)
        <==> forall k :: 0 <= k < |lines| ==> TranslateInstructionToHex(regs, ft, codec, lines[k]).Returns?
    ensures var lines := Lines(textInput);
      TranslateMIPSToHex(regs, ft, codec, textInput).Returns? ==>
        var out := SplitOnChar(TranslateMIPSToHex(regs, ft, codec, textInput).value, '\n');
        |out| == |lines| && forall k :: 0 <= k < |lines| ==> out[k] == TranslateInstructionToHex(regs, ft, codec, lines[k]).value
  {
    var translate := line => TranslateInstructionToHex(regs, ft, codec, line);
    assert forall line :: translate(line).Returns? ==> NoChar(translate(line).value, '\n');
    MapLinesLines(textInput, translate);
  }

  /** A text whose every line is a word the codec decodes translates to mnemonics. */
  lemma DecodedTextDisplays(regs: RegTable, ft: FunctTable, codec: RawCodec, textInput: string)
    requires codec.Valid(ft)
    requires forall k :: 0 <= k < |Lines(textInput)| ==>
               Parse.IsHexWord(Lines(textInput)[k]) && codec.decode(Parse.RawWord(Lines(textInput)[k])).Some?
    ensures TranslateHexToMIPS(regs, ft, codec, textInput).Returns?
  {
    var lines := Lines(textInput);
    var translate := line => TranslateInstructionToMIPS(regs, ft, codec, line);
    forall k | 0 <= k < |lines| ensures translate(lines[k]).Returns? {
      DecodedWordDisplays(regs, ft, codec, lines[k], false);
    }
    TranslateEachReturns(lines, translate);
  }
}
