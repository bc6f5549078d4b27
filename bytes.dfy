/**
 * C characters and C strings, as the library sees them.
 *
 * A C `char` is one byte; a Dafny `char` below 256 stands for that byte.
 * The model fixes the platform's `char` to be signed (as on x86-64), which
 * is what decides how `buf_fgetc` turns a stored byte into an `int`.
 */
module Bytes {
  import opened Wrappers

  type Byte = c: char | c as int < 0x100 witness '\0'

  ghost predicate NoNul(s: seq<Byte>) {
    forall i | 0 <= i < |s| :: s[i] != '\0'
  }

  /** A C string: the bytes before its terminating NUL. */
  type CStr = s: seq<Byte> | NoNul(s) witness []

  /** The value of stdio's `EOF`. */
  const EOF: int := -1

  /** `(int) b` for a signed `char` b. */
  function Signed(b: Byte): (r: int)
    ensures -128 <= r < 128
    ensures r >= 0 <==> b as int < 128
    ensures ToByte(r) == b
  {
    if b as int < 128 then b as int else b as int - 256
  }

  /** `(char) n`: the conversion keeps the low eight bits. */
  function ToByte(n: int): Byte {
    (n % 256) as char
  }

  /** `isspace` in the C locale; negative arguments (EOF) are not spaces. */
  predicate IsSpace(c: int) {
    c == 32 || 9 <= c <= 13
  }

  /** `isspace(*p)` for a byte read through a signed `char` pointer. */
  predicate IsSpaceByte(b: Byte) {
    IsSpace(Signed(b))
  }

  /** `strcmp`: compares bytes as unsigned, a proper prefix sorts first. */
  function StrCmp(a: CStr, b: CStr): int
    decreases |a|
  {
    if a == [] && b == [] then 0
    else if a == [] then -1
    else if b == [] then 1
    else if a[0] != b[0] then a[0] as int - b[0] as int
    else StrCmp(a[1..], b[1..])
  }

  /** `strcmp` reports equality exactly for equal strings. */
  lemma {:induction false} StrCmpZeroIff(a: CStr, b: CStr)
    ensures StrCmp(a, b) == 0 <==> a == b
    decreases |a|
  {
    if a != [] && b != [] && a[0] == b[0] {
      StrCmpZeroIff(a[1..], b[1..]);
      assert a == [a[0]] + a[1..] && b == [b[0]] + b[1..];
    }
  }

  /** `strchr`: the index of the first occurrence of c, if any. */
  function IndexOf(s: seq<Byte>, c: Byte): (r: Option<nat>)
    ensures r.None? <==> c !in s
    ensures r.Some? ==> r.value < |s| && s[r.value] == c && c !in s[..r.value]
  {
    if s == [] then None
    else if s[0] == c then Some(0)
    else match IndexOf(s[1..], c)
      case None => None
      case Some(i) => assert s[1..][..i] == s[1..i + 1]; Some(i + 1)
  }

  /** `strrchr`: the index of the last occurrence of c, if any. */
  function LastIndexOf(s: seq<Byte>, c: Byte): (r: Option<nat>)
    ensures r.None? <==> c !in s
    ensures r.Some? ==> r.value < |s| && s[r.value] == c && c !in s[r.value + 1..]
  {
    if s == [] then None
    else if s[|s| - 1] == c then Some(|s| - 1)
    else match LastIndexOf(s[..|s| - 1], c)
      case None => None
      case Some(i) =>
        assert s[i + 1..] == s[..|s| - 1][i + 1..] + [s[|s| - 1]];
        Some(i)
  }
}
