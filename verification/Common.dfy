/** Words, pages and small sequence operations that several components share. */
module Common {
  const WORD32: nat := 0x1_0000_0000
  const WORD64: nat := 0x1_0000_0000_0000_0000
  const PAGE: nat := 0x1000

  function Min(a: nat, b: nat): nat { if a <= b then a else b }

  function Max(a: nat, b: nat): nat { if a >= b then a else b }

  ghost predicate Distinct<T>(s: seq<T>) {
    forall i, j :: 0 <= i < j < |s| ==> s[i] != s[j]
  }

  /** memcpy of `chunk` into `bytes` at offset `at`. */
  function Overlay<T>(bytes: seq<T>, at: nat, chunk: seq<T>): seq<T>
    requires at + |chunk| <= |bytes|
  {
    bytes[..at] + chunk + bytes[at + |chunk|..]
  }
}
