/**
 * The function-code enumeration (`FunctionCode`) and its operation groups
 * (`ArithmeticFunctionCode`, `MultiplicationFunctionCode`, `ShiftFunctionCode`,
 * `ShiftVFunctionCode`, `JumpFunctionCode`, `MoveToFunctionCode`,
 * `MoveFromFunctionCode`). Their concrete values are not part of this model,
 * so the table is a parameter and `Valid` states what the translator relies on.
 */
module Funct {
  import opened Wrappers
  import opened JsString
  import Op

  datatype FunctGroup = Arithmetic | Multiplication | Shift | ShiftV | JumpReg | MoveTo | MoveFrom

  /**
   * `codeOf` and `nameOf` are the enumeration's two lookups; `groupOf` gives the
   * group of a code (a code lies in at most one group); `jalr` is the code of the
   * jump-and-link-register function.
   */
  datatype FunctTable = FunctTable(
    codeOf: map<string, int>,
    nameOf: map<int, string>,
    groupOf: map<int, FunctGroup>,
    jalr: int)
  {
    predicate Valid() {
      && (forall name :: name in codeOf ==>
            0 <= codeOf[name] < 64 && codeOf[name] in nameOf && nameOf[codeOf[name]] == name)
      && (forall c :: c in nameOf ==> nameOf[c] in codeOf && codeOf[nameOf[c]] == c)
      && (forall c :: c in groupOf ==> c in nameOf)
      && jalr in groupOf && groupOf[jalr] == JumpReg
      && (forall name :: name in codeOf ==> IsIdentifier(name) && Op.FromName(name).None?)
    }

    /** `inEnum(name, XxxFunctionCode)`: `name` names a function of group `g`. */
    predicate NameInGroup(name: string, g: FunctGroup) {
      name in codeOf && codeOf[name] in groupOf && groupOf[codeOf[name]] == g
    }

    /** `inEnum(code, XxxFunctionCode)` on a numeric function code. */
    predicate CodeInGroup(code: Option<int>, g: FunctGroup) {
      code.Some? && code.value in groupOf && groupOf[code.value] == g
    }
  }

  /** The groups are disjoint, and a function name is never an opcode name. */
  lemma GroupsDisjoint(t: FunctTable, name: string, g1: FunctGroup, g2: FunctGroup)
    requires t.Valid()
    requires t.NameInGroup(name, g1) && t.NameInGroup(name, g2)
    ensures g1 == g2
    ensures Op.FromName(name).None?
  {
  }
}
