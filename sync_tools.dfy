/**
  The byte-array comparison of the test helpers (CompareByteArrays in
  Source/Test/SyncTools.cs). The test compares two MD5 digests with it; the
  digests themselves are not part of this model.
*/
module SyncTools {

  newtype Byte = b: int | 0 <= b < 256

  /** Two arrays compare exactly: a length mismatch answers false at once,
      otherwise the first differing index does. */
  method CompareByteArrays(x: array<Byte>, y: array<Byte>) returns (equal: bool)
    ensures equal <==> x[..] == y[..]
    ensures equal <==> x.Length == y.Length && forall i :: 0 <= i < x.Length ==> x[i] == y[i]
  {
    if x.Length != y.Length {
      assert |x[..]| != |y[..]|;
      return false;
    }
    for i := 0 to x.Length
      invariant forall j :: 0 <= j < i ==> x[j] == y[j]
    {
      if x[i] != y[i] {
        assert x[..][i] != y[..][i];
        return false;
      }
    }
    assert x[..] == y[..];
    return true;
  }
}
