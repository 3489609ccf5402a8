/** C strings as byte sequences. */
module CStrings {
  import opened Bytes

  /** A string without its terminating NUL. */
  type CString = s: seq<byte> | 0 !in s

  function UpToNul(s: seq<byte>): (r: CString)
    ensures |r| <= |s|
  {
    if s == [] || s[0] == 0 then [] else [s[0]] + UpToNul(s[1..])
  }

  lemma {:induction false} UpToNulStops(n: CString, z: seq<byte>)
    requires z != [] && z[0] == 0
    ensures UpToNul(n + z) == n
  {
    if n == [] {
      assert n + z == z;
    } else {
      assert (n + z)[1..] == n[1..] + z;
      UpToNulStops(n[1..], z);
    }
  }
}
