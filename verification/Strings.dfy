/** Text, as the Java side handles it. */
module Strings {
  /** Removes characters up to the blank from both ends. */
  function Trim(s: string): string
    decreases |s|
  {
    if s == "" then ""
    else if s[0] <= ' ' then Trim(s[1..])
    else if s[|s| - 1] <= ' ' then Trim(s[..|s| - 1])
    else s
  }

  /** Every character is at most the blank. */
  predicate Blank(s: string) {
    forall i | 0 <= i < |s| :: s[i] <= ' '
  }

  /** What is removed is blank, and what is left is empty or begins and ends with something visible. */
  lemma {:induction false} TrimIsExact(s: string) returns (a: string, b: string)
    ensures Blank(a) && Blank(b) && s == a + Trim(s) + b
    ensures Trim(s) != "" ==> Trim(s)[0] > ' ' && Trim(s)[|Trim(s)| - 1] > ' '
    decreases |s|
  {
    if s == "" {
      a, b := "", "";
    } else if s[0] <= ' ' {
      a, b := TrimIsExact(s[1..]);
      a := [s[0]] + a;
      assert s == [s[0]] + s[1..];
    } else if s[|s| - 1] <= ' ' {
      a, b := TrimIsExact(s[..|s| - 1]);
      b := b + [s[|s| - 1]];
      assert s == s[..|s| - 1] + [s[|s| - 1]];
    } else {
      a, b := "", "";
    }
  }
}
