/**
 * The register enumeration (`Register`): 32 names, each naming a distinct
 * number 0..31. Its concrete names are not part of this model, so the table
 * is a parameter and `Valid` states what the translator relies on.
 */
module Reg {
  import opened Wrappers
  import opened JsString

  datatype RegTable = RegTable(numberOf: map<string, int>, nameOf: map<int, string>) {

    /** The two lookups invert each other, cover 0..31 and use identifier names. */
    predicate Valid() {
      && (forall name :: name in numberOf ==>
            0 <= numberOf[name] < 32 && numberOf[name] in nameOf && nameOf[numberOf[name]] == name)
      && (forall n :: n in nameOf ==> nameOf[n] in numberOf && numberOf[nameOf[n]] == n)
      && (forall n :: 0 <= n < 32 ==> n in nameOf)
      && (forall name :: name in numberOf ==> IsIdentifier(name))
    }
  }

  /** The name lookup is injective and the number lookup covers exactly 0..31. */
  lemma ValidTableIsBijection(t: RegTable)
    requires t.Valid()
    ensures forall a, b :: a in t.numberOf && b in t.numberOf && t.numberOf[a] == t.numberOf[b] ==> a == b
    ensures forall n :: n in t.nameOf <==> 0 <= n < 32
  {
  }
}
