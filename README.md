# MIPS translator — a Dafny model of its core

The MIPS translator converts between MIPS assembly lines (`add $t0, $t1, $t2`) and
32-bit machine words written in hexadecimal (`012A4020`). This project models its core:

- the opcode enumeration and its families (`op.ts`);
- the instruction shapes (`instruction.ts`);
- the operand schema of every operation (`args.ts`);
- the line parser (`parse.ts`);
- the translator service (`translator.service.ts`). It holds the function-code
  converters, the hexadecimal rendering of a parsed line, the display of a decoded
  word as a mnemonic line, the binary and hexadecimal digit converters, and the
  line-by-line batch translators.

JavaScript behaviour the code relies on is written out explicitly:

- `parseInt` reads the longest digit prefix after blanks and a sign. When no digit
  is read, it gives NaN, which the model writes as `None`.
- `toString(radix)`, `padStart`, `toUpperCase`, `trim` and the two regular-expression
  splits of the parser.

Several tables are not part of this model, so each is a parameter with a `Valid()`
predicate stating what the translator relies on:

- the register enumeration (`Reg.RegTable`);
- the function-code enumeration and its groups (`Funct.FunctTable`);
- the raw word codec, `encodeRawInstruction` and `encodeInstruction` (`Instruction.RawCodec`).

Where a call throws (reading a field of an absent record, or a word the decoder
rejects), the model returns `Outcome.Throws`.

The model follows the code as written wherever the code and its own descriptions differ:

- An `imm` or `shamt` operand written with a `0x` prefix is read in radix 8, not 16
  (`Parse.ParseNumberRadix`, `Translator.HexOperandReadsAsOctal`).
- The load/store address form `imm(rs)` is looked for in the third token, not the second.
- Only the first two whitespace-separated words of the first comma segment are kept
  (`Parse.ParseDropsExtraWords`).
- Move-from functions are parsed with the keys `rd rt shamt`, but the operand schema and
  the display use `rd` alone (`Parse.ParserAgreesWithSchema`).
- A hexadecimal word the decoder rejects makes the parser throw: the parser does not
  catch the error (`Parse.ParseFailsOnlyOnBadWord`).

Loops of the source are methods proved equal to a specification function:

- `Parse.MakeInstImpl`;
- `Translator.MakeRDisplay` and `Translator.MakeIDisplay`;
- `Translator.BinaryToHex` and `Translator.HexToBinary`.

The properties are proved about those functions.

## Model

| member | source | states |
|---|---|---|
| Op.FromValueOfValue | app/src/Shared/lib/mips/op.ts:4-35 | Looking up an opcode's numeric value gives back that opcode. |
| Op.ValuesDistinctSixBit | app/src/Shared/lib/mips/op.ts:4-35 | Every opcode value fits in six bits. Distinct opcodes have distinct values. The value lookup inverts `Value`. |
| Op.FromNameOfName | app/src/Shared/lib/mips/op.ts:4-35 | Looking up an opcode's name gives back that opcode. |
| Op.Value | app/src/Shared/lib/mips/op.ts:4-35 | Every opcode's value fits in six bits. |
| Op.Name | app/src/Shared/lib/mips/op.ts:4-35 | Every member name other than `REG` is a lower-case identifier: a lower-case letter, then lower-case letters and digits. |
| Op.FromValue | app/src/Shared/lib/mips/op.ts:4-35 | The opcode found for a value has that value. |
| Op.FromName | app/src/Shared/lib/mips/op.ts:4-35 | The opcode found for a string has that string as its name. |
| Op.FamilyOf | app/src/Shared/lib/mips/op.ts:40-56 | An opcode is in the register family iff its value is 0, and in the jump family iff its value is 2, 3 or 26. |
| Op.NameValueBijection | app/src/Shared/lib/mips/op.ts:4-35 | Names and values are two bijective views of the same enumeration. |
| Op.RegisterFamilyIsZero | app/src/Shared/lib/mips/op.ts:40 | A value is the register opcode iff it is 0. |
| Op.JumpFamilyValues | app/src/Shared/lib/mips/op.ts:45-48 | A value is a jump opcode iff it is 2, 3 or 26 (`j`, `jal`, `trap`). |
| Op.ImmediateFamilyValues | app/src/Shared/lib/mips/op.ts:53-56 | A value is an immediate opcode iff it is known and neither register nor jump. This is the exact value set 4-14, 24, 25, 32, 33, 35-37, 40, 41, 43. |
| Op.FamiliesPartition | app/src/Shared/lib/mips/op.ts:40-56 | A value is a known opcode iff it lies in one of the three families. The families are pairwise disjoint. |
| Op.UnsupportedValues | app/src/Shared/lib/mips/op.ts:4-35 | The six-bit values that name no opcode are exactly 1, 15-23, 27-31, 34, 38, 39, 42 and 44-63. |
| Op.ImmediateGroupsPartition | app/src/Shared/lib/mips/op.ts:53-56 | An opcode lies in an immediate operand group iff it is in the immediate family. |
| Reg.ValidTableIsBijection | app/src/Shared/lib/mips/parse.ts:31-41 | Register names are unique per number. The numbered registers are exactly 0 to 31. |
| Funct.GroupsDisjoint | app/src/Shared/lib/mips/parse.ts:204-226 | A function name lies in at most one group, and it is never an opcode name. |
| Instruction.WidthsFillWord | app/src/Shared/lib/mips/instruction.ts:14-79 | The field widths of every shape add up to the 32-bit word, one width per field. |
| Instruction.WellFormedFieldsFit | app/src/Shared/lib/mips/instruction.ts:14-79 | In a well-formed instruction every field fits its documented width, and so does the opcode. |
| Instruction.ShapeDeterminedByFamily | app/src/Shared/lib/mips/instruction.ts:24-79 | A well-formed instruction has the register, immediate or jump shape exactly when its opcode is in that family. Register instructions have opcode 0. |
| Instruction.PartialInstruction.With | app/src/Shared/lib/mips/parse.ts:87-89 | Setting one field changes that field and leaves every other field, the opcode and the function untouched. |
| Instruction.ToPartial | app/src/Shared/lib/mips/instruction.ts:14-79 | The record of a decoded instruction carries its opcode. It has a function code iff it is a register instruction. Exactly the fields of its family are present. |
| Instruction.DecodedShape | app/src/Shared/lib/mips/instruction.ts:24-79 | For a decoded word, the record tests as a register instruction iff the decoded shape is register. It tests as a jump iff the shape is jump. |
| Args.RequiredImmArguments | app/src/Shared/lib/mips/args.ts:54-76 | Any role list returned is a valid immediate schema: distinct roles drawn from `rs rt imm`. |
| Args.ImmArgumentsExactlyImmediate | app/src/Shared/lib/mips/args.ts:54-76 | A schema is returned iff the operation is an immediate opcode. Each immediate group gets its own list, e.g. branch `rs rt imm` and load/store `rt imm rs`. |
| Args.RequiredJumpArguments | app/src/Shared/lib/mips/args.ts:84-98 | Any role list returned is a valid jump schema. |
| Args.JumpArgumentsExactlyJump | app/src/Shared/lib/mips/args.ts:84-98 | The schema is `[imm]` exactly for jump opcodes (values 2, 3 and 26), and is absent otherwise. |
| Args.RequiredFunctArguments | app/src/Shared/lib/mips/args.ts:106-124 | Any role list returned is a valid register schema. |
| Args.FunctArgumentsExactlyFunctions | app/src/Shared/lib/mips/args.ts:106-124 | A schema is returned iff the operation is a known function. Each function group gets its own list. |
| Args.RequiredArguments | app/src/Shared/lib/mips/args.ts:133-152 | The returned family and role list are consistent with each other. |
| Args.RequiredArgumentsFamily | app/src/Shared/lib/mips/args.ts:133-152 | The result is absent iff the name is neither a jump, an immediate opcode nor a function. Jump is tried first, then immediate, then function. |
| Args.RegHasNoArguments | app/src/Shared/lib/mips/args.ts:133-152 | The register opcode `REG` has no operand schema. |
| Parse.TryParseRegister | app/src/Shared/lib/mips/parse.ts:31-41 | With a valid register table, a token read as register `n` has `n` in 0 to 31 and is `$` followed by that register's name. |
| Parse.RegisterTokenIff | app/src/Shared/lib/mips/parse.ts:31-41 | A token reads as register `n` iff `n` is in 0 to 31 and the token is `$` followed by that register's name. |
| Parse.ParseNumber | app/src/Shared/lib/mips/parse.ts:105-114 | Decimal digits without `0x` read as their decimal value. `0x` followed by octal digits reads as their octal value. |
| Parse.ParseNumberRadix | app/src/Shared/lib/mips/parse.ts:105-114 | `0x10` reads as 8 (radix 8 after the prefix), `10` reads as 10, and `0x9` is NaN. |
| Parse.GetSkipped | app/src/Shared/lib/mips/parse.ts:56-66 | A role is skipped iff it belongs to the family and is not among the keys. |
| Parse.Without | app/src/Shared/lib/mips/parse.ts:56-66 | The skipped roles are the family's roles not among the keys. |
| Parse.ZeroAll | app/src/Shared/lib/mips/parse.ts:87-89 | Exactly the skipped roles are set to 0; the rest of the record is unchanged. |
| Parse.FillFields | app/src/Shared/lib/mips/parse.ts:91-120 | Filling keys from tokens leaves the opcode, the function and every other field unchanged. Key `k` takes the value read from token `k`, unless that token is empty. |
| Parse.MakeInstFields | app/src/Shared/lib/mips/parse.ts:68-123 | The built record has opcode 0 and the code as function for the register family, and the code as opcode otherwise. Skipped family roles are 0, other roles are absent, and key `k` holds what token `k` reads as. |
| Parse.MakeInstImpl | app/src/Shared/lib/mips/parse.ts:68-123 | The loop over the keys builds exactly the record `MakeInst` describes. |
| Parse.MakeR | app/src/Shared/lib/mips/parse.ts:125-131 | The record has opcode 0 and the named function's code. |
| Parse.MakeI | app/src/Shared/lib/mips/parse.ts:133-139 | The record carries the named opcode, which is an immediate opcode, and no function. |
| Parse.MakeJ | app/src/Shared/lib/mips/parse.ts:169-175 | The record carries the named opcode, which is a jump opcode, and no function. |
| Parse.MakeLS | app/src/Shared/lib/mips/parse.ts:141-167 | The record carries the load/store opcode and no function. |
| Parse.LoadStoreOperands | app/src/Shared/lib/mips/parse.ts:141-167 | The rewritten tokens keep tokens 0 and 1. Token 2 becomes the part of the old token 2 before any `(`. |
| Parse.LoadStoreFields | app/src/Shared/lib/mips/parse.ts:141-167 | `rt` comes from token 0 and `imm` from token 1. `rs` comes from the base register, which is looked for in token 2. `rd` and `shamt` are absent. |
| Parse.Tokenise | app/src/Shared/lib/mips/parse.ts:196-198 | After the first word there is one operand token per comma segment. |
| Parse.PlanOf | app/src/Shared/lib/mips/parse.ts:204-252 | The plan chosen for a mnemonic names the right table. A function gets its group's operand schema as keys, except move-from, which gets `rd rt shamt`. An immediate opcode gets its group's schema, and a jump gets the jump schema. |
| Parse.RawWord | app/src/Shared/lib/mips/parse.ts:191-193 | A hexadecimal word is read as the non-negative number `parseInt(_, 16)` gives. |
| Parse.ParsePartialInstruction | app/src/Shared/lib/mips/parse.ts:183-253 | The parser throws only for a hexadecimal word, with or without `0x`, that the decoder rejects. |
| Parse.ParseHexLine | app/src/Shared/lib/mips/parse.ts:186-193 | A hexadecimal word, with or without `0x`, goes straight to the decoder. The result is the decoded record, or a throw when the decoder rejects the word. |
| Parse.ParseFailsOnlyOnBadWord | app/src/Shared/lib/mips/parse.ts:183-253 | The parser throws iff the line is a hexadecimal word the decoder rejects. An accepted word yields the well-formed decoded record, whose function code, if it has one, is named in the function table. |
| Parse.EncodedWordParses | app/src/Shared/lib/mips/parse.ts:186-193 | The hexadecimal text of an encoded supported instruction, with or without `0x`, parses back to that instruction's record. |
| Parse.UnknownMnemonicIsEmpty | app/src/Shared/lib/mips/parse.ts:200-252 | A non-hex line whose first word is empty or names no operation gives the empty record. |
| Parse.NoPlanIffUnknown | app/src/Shared/lib/mips/parse.ts:204-252 | The parser has no case for a word iff it is neither a function, an immediate opcode nor a jump opcode. |
| Parse.BlankStartIsEmpty | app/src/Shared/lib/mips/parse.ts:196-202 | An empty line, or one starting with whitespace, gives the empty record. |
| Parse.ParsedOpcode | app/src/Shared/lib/mips/parse.ts:204-252 | A function name gives opcode 0 with its code. Any other known mnemonic gives its own immediate or jump opcode and no function. |
| Parse.ParserAgreesWithSchema | app/src/Shared/lib/mips/parse.ts:204-252 | The parser's key list for every mnemonic is the operand schema of that operation. The one exception is move-from, parsed as `rd rt shamt` while the schema says `rd`. |
| Parse.ParseCanonical | app/src/Shared/lib/mips/parse.ts:196-198 | A line written `m op1, op2, …` is parsed with the mnemonic `m` and exactly those operand tokens. |
| Parse.ParseDropsExtraWords | app/src/Shared/lib/mips/parse.ts:196-198 | Words after the second word of the first comma segment are discarded. |
| Parse.UnknownWordIsEmpty | app/src/Shared/lib/mips/parse.ts:252 | A single unknown identifier gives the empty record. |
| Parse.ParseArithmeticLine | app/src/Shared/lib/mips/parse.ts:204-206 | `m $a, $b, $c` for an arithmetic function gives `rd=a`, `rs=b`, `rt=c`, `shamt=0`, opcode 0 and the function's code. |
| Parse.ParseLoadStoreLine | app/src/Shared/lib/mips/parse.ts:141-167 | Both `lw $a, 4($b)` and `lw $a, 4 ($b)` give `rt=a` and `imm=4`. `rs` stays absent, because the address form is looked for in the third token. |
| Translator.GetFunctCode | app/src/Shared/Services/Translator/translator.service.ts:38-43 | The answer is `unknown` iff the name is not a function name. |
| Translator.FunctCodeDigits | app/src/Shared/Services/Translator/translator.service.ts:38-43 | A known function's code is six binary digits whose value is the code. `unknown` is returned exactly for unknown names. |
| Translator.FunctCodeRoundTrip | app/src/Shared/Services/Translator/translator.service.ts:38-54 | Converting a function's binary code back gives its name. |
| Translator.ConvertFunctToName | app/src/Shared/Services/Translator/translator.service.ts:45-54 | The answer is `unknown`, a function name or an opcode name. |
| Translator.ConvertFunctToNameKnown | app/src/Shared/Services/Translator/translator.service.ts:45-54 | The answer is a function name, an opcode name or `unknown`. A function code wins over an opcode of the same value. Text from which `parseInt(_, 2)` reads no digit gives `unknown`. Otherwise the number `parseInt` reads, from the leading binary digits, is what is looked up. |
| Translator.TranslateInstructionToHex | app/src/Shared/Services/Translator/translator.service.ts:56-61 | It throws only for a hexadecimal word. A result has at least eight characters and no newline. |
| Translator.HexTextShape | app/src/Shared/Services/Translator/translator.service.ts:60 | The rendering has at least eight upper-case hex digits. A 32-bit word renders as exactly eight digits worth the word. |
| Translator.HexTextOfDigits | app/src/Shared/Services/Translator/translator.service.ts:60 | Eight upper-case hex digits render back as themselves. |
| Translator.HexWordRoundTrip | app/src/Shared/Services/Translator/translator.service.ts:56-61 | A decodable word of one to eight upper-case hex digits, with or without `0x`, translates to hex as itself padded with zeros to eight digits. |
| Translator.OperandTexts | app/src/Shared/Services/Translator/translator.service.ts:63-91 | The operand texts are produced iff no role throws. There is one text per role, in order. |
| Translator.MakeRDisplay | app/src/Shared/Services/Translator/translator.service.ts:63-76 | The push loop yields the function name followed by the operand texts, joined by spaces. |
| Translator.MakeIDisplay | app/src/Shared/Services/Translator/translator.service.ts:78-91 | The push loop yields the opcode name followed by the operand texts, joined by spaces. |
| Translator.JDisplay | app/src/Shared/Services/Translator/translator.service.ts:93-98 | A jump display throws iff the target field is absent. |
| Translator.TranslateInstructionToMIPS | app/src/Shared/Services/Translator/translator.service.ts:100-159 | With valid tables, a translated mnemonic line has no newline. |
| Translator.Display | app/src/Shared/Services/Translator/translator.service.ts:106-158 | With valid tables, a displayed record has no newline. |
| Translator.RegisterDisplayRolesAgree | app/src/Shared/Services/Translator/translator.service.ts:106-135 | Register display operands equal the operand schema of the function's group. `jalr` shows `rd rs`; a code in no group shows `rs`. |
| Translator.ImmediateDisplayRolesAgree | app/src/Shared/Services/Translator/translator.service.ts:141-158 | Immediate display operands equal the schema of the opcode's group. Any other opcode shows `rt imm rs`. |
| Translator.HexFieldDigits | app/src/Shared/Services/Translator/translator.service.ts:70-71 | A field below 16^width shows as `0x` and exactly `width` upper-case hex digits worth the field. |
| Translator.RoleTextThrows | app/src/Shared/Services/Translator/translator.service.ts:69-73 | An operand throws iff it is the hexadecimal role and that field is absent. Register roles never throw. |
| Translator.HexOperandReadsAsOctal | app/src/Shared/Services/Translator/translator.service.ts:70-71 | The display writes shift amount 16 as `0x10`, which the parser reads back as 8. |
| Translator.RegisterTextParses | app/src/Shared/Services/Translator/translator.service.ts:72 | A displayed register reads back as the same register number. |
| Translator.DecodedWordDisplays | app/src/Shared/Services/Translator/translator.service.ts:100-159 | Every decodable hexadecimal word, with or without `0x`, displays without throwing. |
| Translator.DecodedRecordDisplays | app/src/Shared/Services/Translator/translator.service.ts:100-159 | A record built from a raw instruction whose shape matches its family always displays: every field its display shows is present. |
| Translator.EmptyRecordThrows | app/src/Shared/Services/Translator/translator.service.ts:100-159 | Displaying the empty record throws. |
| Translator.UnknownWordThrows | app/src/Shared/Services/Translator/translator.service.ts:100-159 | A single unknown identifier throws when displayed. |
| Translator.RDisplayWords | app/src/Shared/Services/Translator/translator.service.ts:63-76 | A register display splits on spaces into the function name and one non-empty word per operand. It has no newline. |
| Translator.IDisplayWords | app/src/Shared/Services/Translator/translator.service.ts:78-91 | An immediate display splits on spaces into the opcode name and one non-empty word per operand. It has no newline. |
| Translator.JDisplayWords | app/src/Shared/Services/Translator/translator.service.ts:93-98 | A jump display is exactly two words, the name and the seven-digit target. It has no newline. |
| Translator.ArithmeticLineDisplay | app/src/Shared/Services/Translator/translator.service.ts:100-108 | `m $a, $b, $c` for an arithmetic function displays as `m $a $b $c`. |
| Translator.ArithmeticDisplayReparse | app/src/Shared/lib/mips/parse.ts:196-206 | Reparsing the displayed `m $a $b $c` keeps only `rd=a`. The display is not a parser input that round-trips. |
| Translator.PadCount | app/src/Shared/Services/Translator/translator.service.ts:162-164 | The padding is below 4 and makes the length a multiple of 4. |
| Translator.PadCountLeast | app/src/Shared/Services/Translator/translator.service.ts:162-164 | The padding is the least count that reaches a multiple of 4. |
| Translator.BinaryToHex | app/src/Shared/Services/Translator/translator.service.ts:161-172 | The padding loop and the chunk loop compute `HexOfBinary`. |
| Translator.BinaryToHexValue | app/src/Shared/Services/Translator/translator.service.ts:161-172 | For binary input, the result is `0x` and one upper-case hex digit per padded nibble, worth the same number as the input. |
| Translator.BinaryHexRoundTrip | app/src/Shared/Services/Translator/translator.service.ts:161-181 | Converting binary to hex and back gives the zero-padded input. |
| Translator.HexToBinary | app/src/Shared/Services/Translator/translator.service.ts:174-181 | The digit loop computes `BinaryOfHex`. |
| Translator.BinaryOfHexDigits | app/src/Shared/Services/Translator/translator.service.ts:174-181 | For hex digits, the result is four bits per digit, worth the same number. |
| Translator.HexChunksDigits | app/src/Shared/Services/Translator/translator.service.ts:166-170 | Each four-bit chunk becomes one hex digit, and the value is kept. |
| Translator.HexBinaryRoundTrip | app/src/Shared/Services/Translator/translator.service.ts:161-181 | Converting hex digits to binary and back gives `0x` and the digits in upper case. |
| Translator.UpperHexUnique | app/src/Shared/Services/Translator/translator.service.ts:60 | Two upper-case hex strings of equal length and equal value are equal. |
| Translator.BinaryUnique | app/src/Shared/Services/Translator/translator.service.ts:174-181 | Two bit strings of equal length and equal value are equal. |
| Translator.Collect | app/src/Shared/Services/Translator/translator.service.ts:185-188 | The batch returns iff every line returns. The results keep the lines' order and count. |
| Translator.Lines | app/src/Shared/Services/Translator/translator.service.ts:184-186 | There is at least one line, and every line is trimmed and holds no newline. |
| Translator.LinesOfJoin | app/src/Shared/Services/Translator/translator.service.ts:184-186 | Joining trimmed, newline-free lines with newlines and splitting again gives the lines back, when the first and last lines are non-empty. |
| Translator.TranslateEachReturns | app/src/Shared/Services/Translator/translator.service.ts:183-199 | A batch returns iff every line translates. |
| Translator.TranslateEachLines | app/src/Shared/Services/Translator/translator.service.ts:183-199 | Splitting a successful batch on newlines gives back the per-line results, in order. |
| Translator.TranslateHexToMIPS | app/src/Shared/Services/Translator/translator.service.ts:183-190 | Hex-to-MIPS returns iff every line of the input translates. |
| Translator.TranslateMIPSToHex | app/src/Shared/Services/Translator/translator.service.ts:192-199 | MIPS-to-hex returns iff every line of the input translates. |
| Translator.HexToMIPSLines | app/src/Shared/Services/Translator/translator.service.ts:183-190 | Hex-to-MIPS returns iff every line translates. Its output lines are the lines' translations, in order. |
| Translator.MIPSToHexLines | app/src/Shared/Services/Translator/translator.service.ts:192-199 | MIPS-to-hex returns iff every line parses. Its output lines are the lines' hex words, in order. |
| Translator.DecodedTextDisplays | app/src/Shared/Services/Translator/translator.service.ts:183-190 | A text whose every line is a decodable hex word translates without throwing. |

## Left out

- The register enumeration, the function-code enumeration and the raw word codec are not part of this model. Each is a parameter constrained by `Valid()`, so no property depends on their concrete values. The codec's `Valid` takes the function table: a register word decodes only when the table names its function code, and only such supported instructions must survive encoding and decoding.
- `isReg`, `isJump`, `encodeRawInstruction` and `encodeInstruction` are imported from `instruction.ts`, but `instruction.ts` declares only the instruction types. Their bodies are not part of this model. `isReg` and `isJump` are modelled by the record's opcode field, and the two encoders by the codec parameter.
- The immediate operand groups (arithmetic, load, branch, branch-on-zero, load/store) are imported from `op.ts` by `parse.ts`, `args.ts` and the translator, but `op.ts` does not define them. The model takes them as a partition of the immediate opcodes that follows the blocks of `op.ts`.
- TypeScript enums also map numbers back to names, and `in` also sees keys such as `"5"` and keys inherited from `Object.prototype` such as `constructor`. None of these is modelled: a numeric mnemonic or register name, or a mnemonic such as `constructor`, gives the empty record in the model. The code instead takes `constructor` as an arithmetic function and builds a register record whose function code is not a number.
- Translator.HexField: the code zero-pads `NaN.toString(16)` to the field width and upper-cases it. A NaN shift amount therefore displays as `0xNAN`, a NaN immediate as `0x0NAN` and a NaN jump target as `0x0000NAN`, as for `addi $t0, $t1, foo` or `j foo`. The model writes NaN as an absent field, so each of these displays throws instead.
- Translator.ChunkDigit: a chunk holding characters other than `0` and `1` is read by `parseInt`'s digit-prefix rule, as in the code, but the converter lemmas cover binary input only. The same holds for `Translator.NibbleBits` and non-hex input.
- Translator.HexTextShape: numbers are unbounded integers. A negative encoded word, where `toString(16)` would print a `-` sign, is outside the proved range.
- Translator.TranslateInstructionToHex: the encoded value of a partial record is whatever the codec parameter returns, so only decodable words round-trip.
- Numbers are exact integers rather than IEEE doubles, so `parseInt` on more than 15 significant digits is not rounded.
- Case conversion covers ASCII letters only.
- Angular dependency injection and the `TranslatorService` class shell hold no state, so they are not modelled.
