// What several components share.
module Common {

  datatype Option<T> = None | Some(value: T)

  type byte = bv8

  const TWO_32: nat := 0x1_0000_0000
  const TWO_64: nat := 0x1_0000_0000_0000_0000

  /** Names of files and directories are kept in 128 bytes, NUL included. */
  const MAX_NAME: nat := 127

  /** Calls number from up to to do not fail. */
  ghost predicate NoFault(faulty: nat -> bool, from: nat, to: nat) { forall t | from <= t < to :: !faulty(t) }

  /** The first index below n at which f holds, or n. */
  ghost function FirstTrue(f: nat -> bool, n: nat): (k: nat)
    ensures k <= n && (k < n ==> f(k)) && forall i: nat | i < k :: !f(i)
  {
    if n == 0 then 0
    else
      var k := FirstTrue(f, n - 1);
      if k < n - 1 || f(n - 1) then k else n
  }

  /** No element occurs twice. */
  ghost predicate Injective<T>(s: seq<T>) { forall i, j | 0 <= i < j < |s| :: s[i] != s[j] }

  function Min(a: nat, b: nat): nat { if a <= b then a else b }
}
