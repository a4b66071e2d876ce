/** skunk_hash (include/skunk.h) as the loop the header writes, proved to
    compute the FNV-1 specification Hash. */
module SkunkHeader {
  import opened Bytes
  import opened SkunkFormat

  /** Fold every byte of `data` into the hash, first byte first: multiply
      by the FNV prime, then xor in the sign-extended byte, truncating to
      the 32-bit skunk_hash_t. */
  method SkunkHash(data: seq<byte>) returns (h: nat)
    ensures h == Hash(data) && h < TWO32
  {
    h := FNV_OFFSET;
    var i := 0;
    while i < |data|
      invariant i <= |data|
      invariant HashFrom(h, data[i..]) == Hash(data)
    {
      assert data[i..][1..] == data[i + 1..];
      h := Step(h, data[i]);
      i := i + 1;
    }
    assert data[i..] == [];
  }
}
