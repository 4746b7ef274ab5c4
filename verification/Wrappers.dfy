/** Small value types shared by the models. */
module Wrappers {

  datatype Option<+T> = None | Some(value: T)

  /** One byte of C memory; C compares bytes by equality only, so its sign is immaterial. */
  type byte = x: int | 0 <= x < 256

  const NUL: byte := 0

  /** A block that ends with its first NUL: indexing it at all stays before or at the NUL. */
  predicate IsCString(s: seq<byte>) {
    && s != []
    && s[|s| - 1] == NUL
    && forall i :: 0 <= i < |s| - 1 ==> s[i] != NUL
  }

  /** The characters of a C string, without the terminator. */
  function Chars(s: seq<byte>): seq<byte>
    requires IsCString(s)
  {
    s[..|s| - 1]
  }

  /** No entry of s occurs twice. */
  ghost predicate Distinct<T>(s: seq<T>) {
    forall i, j :: 0 <= i < j < |s| ==> s[i] != s[j]
  }

  /** s with its k-th entry taken out. */
  function Without<T>(s: seq<T>, k: nat): seq<T>
    requires k < |s|
  {
    s[..k] + s[k + 1..]
  }

  lemma DistinctWithout<T>(s: seq<T>, k: nat)
    requires Distinct(s) && k < |s|
    ensures Distinct(Without(s, k)) && s[k] !in Without(s, k)
  {
    var r := Without(s, k);
    forall i | 0 <= i < |r|
      ensures r[i] == s[if i < k then i else i + 1]
    {
    }
  }

  /** Concatenation is associative. */
  lemma Regroup<T>(a: seq<T>, b: seq<T>, c: seq<T>)
    ensures a + (b + c) == (a + b) + c
  {
  }
}
