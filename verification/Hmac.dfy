/** HMAC over the digest in pieces, as in section 2 of RFC 2104. */
module Hmac {
  import opened Word
  import Limbs
  import Bits
  import opened OctetXor
  import opened Digest

  const HMAC_IPAD_VALUE: uint8 := 0x36
  const HMAC_OPAD_VALUE: uint8 := 0x5C
  const HMAC_BLOCK: nat := 64
  const HMAC_KEY: nat := 64
  const HMAC_SIZE: nat := 32

  /** The engine as it is used here: blocks of 64 octets, digests of 32. */
  ghost predicate Sha256(sha: Sha) {
    sha.block == HMAC_BLOCK && forall h, tail, n :: |sha.finish(h, tail, n)| == HMAC_SIZE
  }

  predicate KeyOk(key: seq<uint8>) {
    0 < |key| <= 64
  }

  /** The key, filled up with zeros to one block. */
  function Filled(key: seq<uint8>): (r: seq<uint8>)
    requires |key| <= HMAC_BLOCK
    ensures |r| == HMAC_BLOCK
  {
    key + seq(HMAC_BLOCK - |key|, _ => 0)
  }

  function Repeated(v: uint8): (r: seq<uint8>)
    ensures |r| == HMAC_BLOCK
  {
    seq(HMAC_BLOCK, _ => v)
  }

  /** H(K xor opad, H(K xor ipad, text)). */
  function HmacOf(sha: Sha, key: seq<uint8>, text: seq<uint8>): seq<uint8>
    requires ShaOk(sha) && |key| <= HMAC_BLOCK
  {
    Hash(sha, XorWith(Filled(key), Repeated(HMAC_OPAD_VALUE)) +
              Hash(sha, XorWith(Filled(key), Repeated(HMAC_IPAD_VALUE)) + text))
  }

  /** The key, filled up with zeros, with every octet combined with `v`. */
  ghost predicate IsPad(pad: seq<uint8>, key: seq<uint8>, v: uint8) {
    |pad| == 64 && forall k :: 0 <= k < 64 ==> BitsDiffer(pad[k], if k < |key| then key[k] else 0, v)
  }

  lemma PadIs(key: seq<uint8>, v: uint8)
    requires |key| <= HMAC_BLOCK
    ensures IsPad(XorWith(Filled(key), Repeated(v)), key, v)
  {
    var pad := XorWith(Filled(key), Repeated(v));
    forall k | 0 <= k < 64
      ensures BitsDiffer(pad[k], if k < |key| then key[k] else 0, v)
    {
      XorOctetBits(Filled(key)[k], v);
    }
  }

  lemma PadUnique(p: seq<uint8>, q: seq<uint8>, key: seq<uint8>, v: uint8)
    requires IsPad(p, key, v) && IsPad(q, key, v)
    ensures p == q
  {
    assert Limbs.Pow2(8) == 256;
    forall k | 0 <= k < 64
      ensures p[k] == q[k]
    {
      Bits.SameBits(p[k], q[k], 8);
    }
  }

  /** The code by definition, as in section 2 of RFC 2104: two digests, with the pads 0x36 and 0x5C. */
  lemma HmacIs(sha: Sha, key: seq<uint8>, text: seq<uint8>, ipad: seq<uint8>, opad: seq<uint8>, inner: seq<uint8>,
               outer: seq<uint8>)
    requires ShaOk(sha) && |key| <= 64 && IsPad(ipad, key, 0x36) && IsPad(opad, key, 0x5C)
    requires IsDigest(sha, ipad + text, inner)
    ensures IsDigest(sha, opad + inner, outer) <==> outer == HmacOf(sha, key, text)
  {
    PadIs(key, 0x36);
    PadUnique(ipad, XorWith(Filled(key), Repeated(0x36)), key, 0x36);
    PadIs(key, 0x5C);
    PadUnique(opad, XorWith(Filled(key), Repeated(0x5C)), key, 0x5C);
    HashIsDigest(sha, ipad + text, inner);
    HashIsDigest(sha, opad + inner, outer);
  }

  /** The key xored with a pad, octet by octet in place. */
  method Pad(key: seq<uint8>, v: uint8) returns (pad: seq<uint8>)
    requires |key| <= HMAC_BLOCK
    ensures pad == XorWith(Filled(key), Repeated(v))
  {
    var buffer := new uint8[HMAC_BLOCK](i => if 0 <= i < |key| then key[i] else 0);
    ghost var filled := Filled(key);
    assert buffer[..] == filled;
    for i := 0 to HMAC_BLOCK
      invariant forall k :: 0 <= k < i ==> buffer[k] == XorOctet(filled[k], v)
      invariant forall k :: i <= k < HMAC_BLOCK ==> buffer[k] == filled[k]
    {
      buffer[i] := XorOctet(buffer[i], v);
    }
    pad := buffer[..];
  }

  class HmacCtx {
    const digest: DigestCtx
    var key: seq<uint8>

    constructor ()
      ensures fresh(digest) && fresh(digest.msgBlock) && digest.msgBlock.Length == MAX_BLOCK
    {
      digest := new DigestCtx();
      key := [];
    }

    /** The digest in progress is the inner one, over the padded key and the text so far. */
    ghost predicate Valid(sha: Sha, text: seq<uint8>)
      reads this, digest, digest.msgBlock
    {
      && KeyOk(key) && digest.Valid(sha)
      && digest.consumed == XorWith(Filled(key), Repeated(HMAC_IPAD_VALUE)) + text
    }

    method Init(sha: Sha, key: seq<uint8>) returns (status: Status)
      requires Sha256(sha) && digest.msgBlock.Length == MAX_BLOCK
      modifies this, digest, digest.msgBlock
      ensures !KeyOk(key) ==> status == InvalidParams
      ensures KeyOk(key) ==> status == Success || status == HalFailed
      ensures sha.reliable ==> status != HalFailed
      ensures status == Success ==> Valid(sha, []) && this.key == key
    {
      if |key| == 0 {
        return InvalidParams;
      }
      if |key| > HMAC_KEY {
        return InvalidParams;
      }
      var pad := Pad(key, HMAC_IPAD_VALUE);
      status := digest.Init(sha);
      if status != Success {
        return;
      }
      status := digest.Update(sha, pad);
      if status != Success {
        return;
      }
      assert [] + pad == pad && pad + [] == pad;
      this.key := key;
    }

    method Update(sha: Sha, data: seq<uint8>, ghost text: seq<uint8>) returns (status: Status)
      requires Valid(sha, text)
      modifies digest, digest.msgBlock
      ensures status == Success || status == HalFailed
      ensures sha.reliable ==> status != HalFailed
      ensures status == Success ==> Valid(sha, text + data)
    {
      ghost var pad := XorWith(Filled(key), Repeated(HMAC_IPAD_VALUE));
      status := digest.Update(sha, data);
      assert (pad + text) + data == pad + (text + data);
    }

    method Final(sha: Sha, ghost text: seq<uint8>) returns (status: Status, mac: seq<uint8>)
      requires Sha256(sha) && Valid(sha, text)
      modifies digest, digest.msgBlock
      ensures status == Success || status == HalFailed
      ensures sha.reliable ==> status != HalFailed
      ensures status == Success ==> mac == HmacOf(sha, key, text) && |mac| == HMAC_SIZE
    {
      mac := [];
      var pad := Pad(key, HMAC_OPAD_VALUE);
      var inner;
      status, inner := digest.Final(sha);
      if status != Success {
        return;
      }
      status := digest.Init(sha);
      if status != Success {
        return;
      }
      status := digest.Update(sha, pad + inner);
      if status != Success {
        return;
      }
      assert [] + (pad + inner) == pad + inner;
      status, mac := digest.Final(sha);
    }
  }

  /** The code of a message in one call. */
  method HmacSha256(sha: Sha, msg: seq<uint8>, key: seq<uint8>) returns (status: Status, mac: seq<uint8>)
    requires Sha256(sha)
    ensures |msg| == 0 || !KeyOk(key) ==> status == InvalidParams
    ensures |msg| > 0 && KeyOk(key) ==> status == Success || status == HalFailed
    ensures sha.reliable ==> status != HalFailed
    ensures status == Success ==> mac == HmacOf(sha, key, msg) && |mac| == HMAC_SIZE
  {
    mac := [];
    if |msg| == 0 || |key| == 0 {
      return InvalidParams, mac;
    }
    var ctx := new HmacCtx();
    status := ctx.Init(sha, key);
    if status != Success {
      return;
    }
    status := ctx.Update(sha, msg, []);
    if status != Success {
      return;
    }
    assert [] + msg == msg;
    status, mac := ctx.Final(sha, msg);
  }

  /** Compares two codes without branching on them. */
  method SecureCompare(left: seq<uint8>, right: seq<uint8>) returns (c: int)
    requires |left| == |right|
    ensures c == if left == right then 0 else 1
  {
    var result: uint8 := 0;
    for i := 0 to |left|
      invariant result == 0 <==> left[..i] == right[..i]
    {
      assert left[..i + 1] == left[..i] + [left[i]] && right[..i + 1] == right[..i] + [right[i]];
      result := OrOctet(result, XorOctet(left[i], right[i]));
    }
    assert left[..|left|] == left && right[..|right|] == right;
    return (result as int + 0xFF) / 256;
  }

  lemma {:induction false} OrBits(a: nat, b: nat, n: nat)
    requires a < Limbs.Pow2(n) && b < Limbs.Pow2(n)
    ensures BitOr(a, b) < Limbs.Pow2(n)
  {
    if n > 0 && (a != 0 || b != 0) {
      OrBits(a / 2, b / 2, n - 1);
    }
  }

  function OrOctet(a: uint8, b: uint8): (r: uint8)
    ensures r == 0 <==> a == 0 && b == 0
  {
    OrBits(a, b, 8);
    assert Limbs.Pow2(8) == 256;
    BitOr(a, b)
  }

  /** Accepts a message exactly when its code is the expected one. */
  method VerifyMsg(sha: Sha, msg: seq<uint8>, key: seq<uint8>, valid: seq<uint8>) returns (status: Status)
    requires Sha256(sha) && |valid| == HMAC_SIZE
    ensures |msg| == 0 || !KeyOk(key) ==> status == InvalidParams
    ensures |msg| > 0 && KeyOk(key) ==>
      (status == HalFailed && !sha.reliable) || status == if HmacOf(sha, key, msg) == valid then Success else BadMeasurement
  {
    var mac;
    status, mac := HmacSha256(sha, msg, key);
    if status != Success {
      return;
    }
    var c := SecureCompare(mac, valid);
    if c != 0 {
      status := BadMeasurement;
    }
  }
}
