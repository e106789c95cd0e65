/**
 * A profile row as the directory page reads it, JavaScript truthiness of its
 * fields, and the `value || fallback` defaulting the page applies to them.
 */
module Profiles {

  /** One column of a row: absent (`undefined`/`null`) or a text value. */
  datatype Field = Missing | Present(text: string)

  /** JavaScript truthiness of a field: absent and the empty string are falsy. */
  predicate Truthy(f: Field) {
    f.Present? && f.text != ""
  }

  /** `value || fallback` on a field. */
  function OrDefault(f: Field, fallback: string): string {
    if Truthy(f) then f.text else fallback
  }

  /** A directory row: name (`नाव`), `Area`, native place (`मुळगाव`),
      mobile number (`मोबाईल नंबर`) and the stored `Image` path. */
  datatype Profile = Profile(
    name: Field,
    area: Field,
    nativePlace: Field,
    phone: Field,
    image: Field)

  const Uncategorized: string := "Uncategorized"

  /** The grouping key of a row: its `Area` when truthy, else "Uncategorized". */
  function AreaOf(p: Profile): string {
    OrDefault(p.area, Uncategorized)
  }

  /** A row is filed under its own area when that is truthy and under
      "Uncategorized" otherwise; the key is never empty. */
  lemma AreaOfDefaults(p: Profile)
    ensures Truthy(p.area) ==> AreaOf(p) == p.area.text
    ensures !Truthy(p.area) ==> AreaOf(p) == "Uncategorized"
    ensures AreaOf(p) != ""
  {
  }
}
