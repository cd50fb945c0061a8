/** Strings in fixed-size fields; no string here holds a NUL. */
module CStrings {

  function First(s: string, n: nat): (r: string)
    ensures |r| <= n
  {
    if |s| <= n then s else s[..n]
  }

  /** strncmp over `n` characters finds no difference. */
  predicate SameWithin(a: string, b: string, n: nat) {
    First(a, n) == First(b, n)
  }
}
