/** Decimal byte counts: printing one into a header, and machine parsing of a declared one. */
module Decimal {
  import opened Wrappers
  import opened Text

  /** `usize::MAX` on a 64-bit target. No proof depends on its value. */
  const USIZE_MAX: nat := 0xFFFF_FFFF_FFFF_FFFF

  predicate AllDigits(s: bytes) {
    forall i :: 0 <= i < |s| ==> 48 <= s[i] <= 57
  }

  /** The number a digit string denotes, unbounded. */
  function Value(s: bytes): nat
    requires AllDigits(s)
    decreases |s|
  {
    if s == [] then 0 else 10 * Value(s[..|s| - 1]) + (s[|s| - 1] - 48)
  }

  /** `parse::<usize>` on digits: a checked multiply and a checked add per digit, left to right. */
  function ParseUsize(s: bytes): Option<nat>
    requires AllDigits(s)
    decreases |s|
  {
    if s == [] then Some(0)
    else
      match ParseUsize(s[..|s| - 1])
      case None => None
      case Some(acc) =>
        if 10 * acc > USIZE_MAX then None
        else if 10 * acc + (s[|s| - 1] - 48) > USIZE_MAX then None
        else Some(10 * acc + (s[|s| - 1] - 48))
  }

  /** Machine parsing yields the denoted number, and fails only when that number does not fit. */
  lemma {:induction false} ParseUsizeIsValue(s: bytes)
    requires AllDigits(s)
    ensures ParseUsize(s) == if Value(s) <= USIZE_MAX then Some(Value(s)) else None
    decreases |s|
  {
    if s != [] {
      ParseUsizeIsValue(s[..|s| - 1]);
    }
  }

  /** The decimal form of `n`, as `format!("{n}")` prints it. */
  function Print(n: nat): (s: bytes)
    ensures s != [] && AllDigits(s)
  {
    if n < 10 then [48 + n] else Print(n / 10) + [48 + n % 10]
  }

  /** Printing then reading a number gives the number back. */
  lemma {:induction false} PrintValue(n: nat)
    ensures Value(Print(n)) == n
  {
    if n >= 10 {
      PrintValue(n / 10);
      var s := Print(n);
      assert s[..|s| - 1] == Print(n / 10);
    }
  }
}
