/** Types and constants that several modules share. */
module Common {

  datatype Option<T> = None | Some(value: T)

  type Byte = b: nat | b < 256

  /** The number of values of a 64-bit word. */
  const MOD64: nat := 0x1_0000_0000_0000_0000

  ghost predicate Distinct<T>(s: seq<T>) { forall i, j :: 0 <= i < j < |s| ==> s[i] != s[j] }
}
