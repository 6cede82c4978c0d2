// What several components share: 32-bit words, bytes, options and list surgery.
module Common {
  const WORD: nat := 0x1_0000_0000
  const NUL: char := '\0'

  type Byte = b: int | 0 <= b < 256

  datatype Option<T> = None | Some(value: T)

  function Min(a: nat, b: nat): nat {
    if a < b then a else b
  }

  ghost predicate Distinct<T>(s: seq<T>) {
    forall i, j :: 0 <= i < j < |s| ==> s[i] != s[j]
  }

  // The sequence without its element `k`.
  function Remove<T>(s: seq<T>, k: nat): seq<T>
    requires k < |s|
  {
    s[..k] + s[k + 1..]
  }
}
