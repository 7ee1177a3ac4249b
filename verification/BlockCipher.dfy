/** The AES primitive as the constructions above it see it: a keyed permutation
    of 16-byte blocks, and the whole-block ECB pass over a byte string.
 */
module BlockCipher {
  import opened Common

  type Block = b: seq<bv8> | |b| == 16 witness seq(16, _ => 0)

  datatype Dir = Encrypt | Decrypt

  /** A raw key. `usable` is false when the platform has no cipher for the key's
      length; the two maps are the block cipher and its inverse under the key. */
  datatype Key = Key(usable: bool, encrypt: Block -> Block, decrypt: Block -> Block) {

    function Apply(dir: Dir, b: Block): Block {
      match dir
      case Encrypt => encrypt(b)
      case Decrypt => decrypt(b)
    }
  }

  ghost predicate IsPermutation(key: Key) {
    forall b: Block :: key.decrypt(key.encrypt(b)) == b && key.encrypt(key.decrypt(b)) == b
  }

  /** ECB: each whole block on its own. */
  function EcbBlocks(dir: Dir, key: Key, data: Bytes): (r: Bytes)
    requires |data| % 16 == 0
    ensures |r| == |data|
  {
    if data == [] then [] else key.Apply(dir, data[..16]) + EcbBlocks(dir, key, data[16..])
  }

  /** aesEcb: nothing to do succeeds whatever the key; otherwise the key must be
      usable and the data whole blocks (padding is off). */
  function Ecb(dir: Dir, key: Key, data: Bytes): Option<Bytes> {
    if data == [] then Some([])
    else if !key.usable || |data| % 16 != 0 then None
    else Some(EcbBlocks(dir, key, data))
  }

  lemma {:induction false} EcbBlocksAt(dir: Dir, key: Key, data: Bytes, i: nat)
    requires |data| % 16 == 0 && 16 * i < |data|
    ensures 16 * i + 16 <= |data|
    ensures EcbBlocks(dir, key, data)[16 * i..16 * i + 16] == key.Apply(dir, data[16 * i..16 * i + 16])
  {
    if i > 0 {
      EcbBlocksAt(dir, key, data[16..], i - 1);
      assert data[16..][16 * (i - 1)..16 * (i - 1) + 16] == data[16 * i..16 * i + 16];
      assert EcbBlocks(dir, key, data)[16..] == EcbBlocks(dir, key, data[16..]);
      assert EcbBlocks(dir, key, data)[16 * i..16 * i + 16]
          == EcbBlocks(dir, key, data)[16..][16 * (i - 1)..16 * (i - 1) + 16];
    } else {
      assert EcbBlocks(dir, key, data)[..16] == key.Apply(dir, data[..16]);
    }
  }

  function XorBytes(a: Bytes, b: Bytes): (r: Bytes)
    requires |a| <= |b|
    ensures |r| == |a|
  {
    seq(|a|, i requires 0 <= i < |a| => a[i] ^ b[i])
  }

  lemma XorBytesTwice(a: Bytes, b: Bytes)
    requires |a| <= |b|
    ensures XorBytes(XorBytes(a, b), b) == a
  {
  }

  lemma OrXorZero(d: bv8, x: bv8, y: bv8)
    ensures d | (x ^ y) == 0 <==> d == 0 && x == y
  {
  }

  /** The comparison that reads every byte whatever the ones before it were. */
  method Difference(a: Bytes, b: Bytes) returns (diff: bv8)
    requires |a| == |b|
    ensures diff == 0 <==> a == b
  {
    diff := 0;
    for k := 0 to |a|
      invariant diff == 0 <==> a[..k] == b[..k]
    {
      OrXorZero(diff, a[k], b[k]);
      diff := diff | (a[k] ^ b[k]);
      assert a[..k + 1] == a[..k] + [a[k]] && b[..k + 1] == b[..k] + [b[k]];
    }
    assert a[..|a|] == a && b[..|b|] == b;
  }
}
