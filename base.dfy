/** Shared vocabulary of the manifest model: bytes, C strings, Option and Result. */
module Base {

  newtype byte = x: int | 0 <= x < 256

  datatype Option<+T> = None | Some(value: T)

  datatype Result<+T, +E> = Ok(value: T) | Fail(error: E)

  /** The path separator '/' and the string terminator NUL, as bytes. */
  const Slash: byte := 0x2F
  const Nul: byte := 0

  /** A C string: a byte sequence without an embedded terminator. */
  predicate IsCString(s: seq<byte>) {
    Nul !in s
  }

  /** What strndup(data, length) keeps of a sized buffer: the bytes before the first NUL. */
  function UntilNul(s: seq<byte>): (r: seq<byte>)
    ensures |r| <= |s| && r == s[..|r|]
    ensures IsCString(r)
    ensures |r| < |s| ==> s[|r|] == Nul
    ensures IsCString(s) ==> r == s
  {
    if s == [] then []
    else if s[0] == Nul then []
    else [s[0]] + UntilNul(s[1..])
  }

  /** strrchr(s, c): the index of the last occurrence of c in s. */
  function LastIndexOf(s: seq<byte>, c: byte): (r: nat)
    requires c in s
    ensures r < |s| && s[r] == c
    ensures forall j :: r < j < |s| ==> s[j] != c
  {
    if s[|s| - 1] == c then |s| - 1 else LastIndexOf(s[..|s| - 1], c)
  }
}
