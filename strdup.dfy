/** `my_strdup` of the debugging exercise: a copy of a NUL-terminated string. */
module Strdup {

  /** `strlen`: the index of the first NUL of `s`. */
  function Strlen(s: seq<char>): (n: nat)
    requires '\0' in s
    ensures n < |s| && s[n] == '\0'
    ensures forall i :: 0 <= i < n ==> s[i] != '\0'
  {
    if s[0] == '\0' then 0 else 1 + Strlen(s[1..])
  }

  /** Two strings that agree up to and including the first NUL of one have the same
      length. */
  lemma {:induction false} StrlenOfPrefix(s: seq<char>, t: seq<char>)
    requires '\0' in s && Strlen(s) < |t|
    requires forall i :: 0 <= i <= Strlen(s) ==> t[i] == s[i]
    ensures '\0' in t && Strlen(t) == Strlen(s)
  {
    assert t[Strlen(s)] == '\0';
    if s[0] != '\0' {
      StrlenOfPrefix(s[1..], t[1..]);
    }
  }

  /** Allocates `strlen(original) + 1` characters and copies the string with its
      terminator into them; `original` is left as it was. */
  method MyStrdup(original: array<char>) returns (copy: array<char>)
    requires '\0' in original[..]
    ensures fresh(copy)
    ensures copy.Length == Strlen(original[..]) + 1
    ensures forall i :: 0 <= i < copy.Length ==> copy[i] == original[i]
    ensures '\0' in copy[..] && Strlen(copy[..]) == Strlen(original[..])
  {
    var length := Strlen(original[..]) + 1;
    copy := new char[length];
    for i := 0 to length
      invariant forall j :: 0 <= j < i ==> copy[j] == original[j]
    {
      copy[i] := original[i];
    }
    StrlenOfPrefix(original[..], copy[..]);
  }
}
