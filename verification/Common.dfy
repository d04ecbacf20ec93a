/** What several parts of the client share. */
module Common {

  datatype Option<+T> = None | Some(value: T)

  /** A system call's answer, or an exception that leaves the hook. */
  datatype Answer = Returned(value: int) | Raised

  const EBADF := 9
  const EINVAL := 22

  /** How many values an `unsigned int` has. */
  const UINT_RANGE: nat := 0x1_0000_0000

  newtype Byte = x: int | 0 <= x < 256

  function Min(a: int, b: int): int {
    if a < b then a else b
  }

  function Sum(s: seq<nat>): nat {
    if s == [] then 0 else s[0] + Sum(s[1..])
  }

  predicate Distinct<T(==)>(s: seq<T>) {
    forall i, j :: 0 <= i < j < |s| ==> s[i] != s[j]
  }

  /** `isspace` */
  predicate IsSpace(c: char) {
    c == ' ' || 9 <= c as int <= 13
  }

  /** The C string at the front of some text: what comes before the first NUL. */
  function CString<T(==)>(nul: T, s: seq<T>): (c: seq<T>)
    ensures |c| <= |s| && c == s[..|c|] && nul !in c
    ensures |c| < |s| ==> s[|c|] == nul
    ensures c == s <==> nul !in s
  {
    if s == [] || s[0] == nul then [] else
      assert s == [s[0]] + s[1..];
      [s[0]] + CString(nul, s[1..])
  }

  lemma {:induction false} CStringUnique<T>(nul: T, s: seq<T>, c: seq<T>)
    requires |c| < |s| && c == s[..|c|] && nul !in c && s[|c|] == nul
    ensures CString(nul, s) == c
  {
  }
}
