/** Identifiers of the LwM2M data model and the result codes shared by the modules. */
module Ids {

  /** The 16-bit identifiers: Object, Instance, Resource, Resource Instance and Short Server IDs. */
  type Id = x: int | 0 <= x <= 0xFFFF

  const ID_INVALID: Id := 0xFFFF

  const OID_SECURITY: Id := 0
  const OID_SERVER: Id := 1
  const OID_ACCESS_CONTROL: Id := 2

  const SSID_ANY: Id := 0
  const SSID_BOOTSTRAP: Id := 0xFFFF

  // Result codes: 0 is success, everything else is an error.
  const OK: int := 0
  const ERR: int := -1

  // The LwM2M error codes are negated CoAP codes (4.00, 4.04, 4.05, 4.06, 5.00, 5.01).
  const ERR_BAD_REQUEST: int := -0x80
  const ERR_NOT_FOUND: int := -0x84
  const ERR_METHOD_NOT_ALLOWED: int := -0x85
  const ERR_NOT_ACCEPTABLE: int := -0x86
  const ERR_INTERNAL: int := -0xA0
  const ERR_NOT_IMPLEMENTED: int := -0xA1

  /** Class and detail of each code: a code `c.dd` is the byte `32 c + dd`. */
  lemma CodesAreCoap()
    ensures ERR_BAD_REQUEST == -(32 * 4 + 0) && ERR_NOT_FOUND == -(32 * 4 + 4) && ERR_METHOD_NOT_ALLOWED == -(32 * 4 + 5)
    ensures ERR_NOT_ACCEPTABLE == -(32 * 4 + 6) && ERR_INTERNAL == -(32 * 5 + 0) && ERR_NOT_IMPLEMENTED == -(32 * 5 + 1)
  {
  }

  ghost predicate Ascending(s: seq<Id>) {
    forall i, j :: 0 <= i < j < |s| ==> s[i] < s[j]
  }

  lemma FirstIsIn<T>(s: seq<T>)
    ensures s == [] || s[0] in s
  {
  }

  function Least(a: nat, b: nat): nat { if a < b then a else b }

  datatype Option<+T> = None | Some(value: T)
}
