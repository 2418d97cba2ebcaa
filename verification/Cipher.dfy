/** AES in counter mode, in pieces: whole blocks, and a last piece that is padded. */
module Cipher {
  import opened Word
  import opened OctetXor
  import opened Digest

  const AES_BLOCK: nat := 16

  /** The block cipher: the key stream block for a counter, and the next counter. The cipher itself is not modelled;
      its engine may fail at any time unless it is reliable. */
  datatype Aes = Aes(block: (seq<uint8>, seq<uint8>) -> seq<uint8>, next: seq<uint8> -> seq<uint8>,
                     reliable: bool)

  ghost predicate AesOk(aes: Aes) {
    forall key, iv :: |aes.block(key, iv)| == AES_BLOCK
  }

  /** Counter mode as in section 6.5 of NIST SP 800-38A: the data combined with the key stream. */
  ghost function Ctr(aes: Aes, key: seq<uint8>, iv: seq<uint8>, data: seq<uint8>): (r: seq<uint8>)
    requires AesOk(aes)
    ensures |r| == |data|
    decreases |data|
  {
    if |data| <= AES_BLOCK then XorWith(data, aes.block(key, iv))
    else XorWith(data[..AES_BLOCK], aes.block(key, iv)) + Ctr(aes, key, aes.next(iv), data[AES_BLOCK..])
  }

  /** The counter after `n` blocks. */
  function Counter(aes: Aes, iv: seq<uint8>, n: nat): seq<uint8>
    decreases n
  {
    if n == 0 then iv else Counter(aes, aes.next(iv), n - 1)
  }

  /** Decryption is encryption. */
  lemma {:induction false} CtrTwice(aes: Aes, key: seq<uint8>, iv: seq<uint8>, data: seq<uint8>)
    requires AesOk(aes)
    ensures Ctr(aes, key, iv, Ctr(aes, key, iv, data)) == data
    decreases |data|
  {
    var block := aes.block(key, iv);
    if |data| <= AES_BLOCK {
      XorWithTwice(data, block);
    } else {
      var first, rest := XorWith(data[..AES_BLOCK], block), Ctr(aes, key, aes.next(iv), data[AES_BLOCK..]);
      assert (first + rest)[..AES_BLOCK] == first && (first + rest)[AES_BLOCK..] == rest;
      XorWithTwice(data[..AES_BLOCK], block);
      CtrTwice(aes, key, aes.next(iv), data[AES_BLOCK..]);
      assert data[..AES_BLOCK] + data[AES_BLOCK..] == data;
    }
  }

  /** Whole blocks first and the rest later is the same as everything at once. */
  lemma {:induction false} CtrSplit(aes: Aes, key: seq<uint8>, iv: seq<uint8>, a: seq<uint8>, b: seq<uint8>, n: nat)
    requires AesOk(aes) && |a| == AES_BLOCK * n
    ensures Ctr(aes, key, iv, a + b) == Ctr(aes, key, iv, a) + Ctr(aes, key, Counter(aes, iv, n), b)
    decreases n
  {
    var block := aes.block(key, iv);
    if n == 0 {
      assert a == [] && a + b == b && Ctr(aes, key, iv, a) == [];
    } else {
      var first, rest := a[..AES_BLOCK], a[AES_BLOCK..];
      CtrSplit(aes, key, aes.next(iv), rest, b, n - 1);
      FirstBlock(aes, key, iv, first, rest);
      FirstBlock(aes, key, iv, first, rest + b);
      Rejoin(a, b, AES_BLOCK);
    }
  }

  lemma Rejoin<T>(a: seq<T>, b: seq<T>, k: nat)
    requires k <= |a|
    ensures a[..k] + a[k..] == a && a[..k] + (a[k..] + b) == a + b
  {
  }

  lemma FirstBlock(aes: Aes, key: seq<uint8>, iv: seq<uint8>, first: seq<uint8>, rest: seq<uint8>)
    requires AesOk(aes) && |first| == AES_BLOCK
    ensures Ctr(aes, key, iv, first + rest) == XorWith(first, aes.block(key, iv)) + Ctr(aes, key, aes.next(iv), rest)
  {
    var all := first + rest;
    if rest == [] {
      assert all == first && Ctr(aes, key, aes.next(iv), rest) == [];
    } else {
      assert all[..AES_BLOCK] == first && all[AES_BLOCK..] == rest;
    }
  }

  /** A last piece may be padded and the result cut. */
  lemma CtrPrefix(aes: Aes, key: seq<uint8>, iv: seq<uint8>, data: seq<uint8>, padding: seq<uint8>)
    requires AesOk(aes) && |data + padding| == AES_BLOCK
    ensures Ctr(aes, key, iv, data + padding)[..|data|] == Ctr(aes, key, iv, data)
  {
  }

  lemma {:induction false} OctetOfBlock(aes: Aes, key: seq<uint8>, iv: seq<uint8>, data: seq<uint8>, n: nat, j: nat)
    requires AesOk(aes) && j < 16 && 16 * n + j < |data|
    ensures Ctr(aes, key, iv, data)[16 * n + j] == XorOctet(data[16 * n + j], aes.block(key, Counter(aes, iv, n))[j])
    decreases n
  {
    if n > 0 {
      OctetOfBlock(aes, key, aes.next(iv), data[AES_BLOCK..], n - 1, j);
      assert data[AES_BLOCK..][16 * (n - 1) + j] == data[16 * n + j];
    }
  }

  /** Octet `i` of the data meets octet `i % 16` of key stream block `i / 16`, and no other. */
  lemma CtrAt(aes: Aes, key: seq<uint8>, iv: seq<uint8>, data: seq<uint8>, i: nat)
    requires AesOk(aes) && i < |data|
    ensures Ctr(aes, key, iv, data)[i] == XorOctet(data[i], aes.block(key, Counter(aes, iv, i / 16))[i % 16])
  {
    OctetOfBlock(aes, key, iv, data, i / 16, i % 16);
  }

  /** `out` is the data in counter mode, octet by octet and bit by bit. */
  ghost predicate IsCtr(aes: Aes, key: seq<uint8>, iv: seq<uint8>, data: seq<uint8>, out: seq<uint8>)
    requires AesOk(aes)
  {
    && |out| == |data|
    && forall i: nat :: i < |data| ==> BitsDiffer(out[i], data[i], aes.block(key, Counter(aes, iv, i / 16))[i % 16])
  }

  lemma CtrIs(aes: Aes, key: seq<uint8>, iv: seq<uint8>, data: seq<uint8>)
    requires AesOk(aes)
    ensures IsCtr(aes, key, iv, data, Ctr(aes, key, iv, data))
  {
    var out := Ctr(aes, key, iv, data);
    forall i: nat | i < |data|
      ensures BitsDiffer(out[i], data[i], aes.block(key, Counter(aes, iv, i / 16))[i % 16])
    {
      CtrAt(aes, key, iv, data, i);
      XorOctetBits(data[i], aes.block(key, Counter(aes, iv, i / 16))[i % 16]);
    }
  }

  datatype Mode = Decrypt | Encrypt | Invalid

  class CtrCtx {
    var counter: seq<uint8>
    var key: seq<uint8>
    var mode: Mode

    constructor ()
      ensures mode == Invalid
    {
      counter, key, mode := [], [], Invalid;
    }

    method Init(counter: seq<uint8>, key: seq<uint8>, mode: Mode) returns (status: Status)
      modifies this
      ensures status == if mode == Invalid then InvalidParams else Success
      ensures status == Success ==> this.counter == counter && this.key == key && this.mode == mode
    {
      if mode == Invalid {
        return InvalidParams;
      }
      this.counter, this.key, this.mode := counter, key, mode;
      return Success;
    }

    /** Whole blocks. The engine moves the counter on. */
    method Update(aes: Aes, src: seq<uint8>, room: nat) returns (status: Status, dest: seq<uint8>)
      requires AesOk(aes)
      modifies this`counter
      ensures |src| == 0 || |src| > room || mode == Invalid || |src| % AES_BLOCK != 0 ==> status == InvalidParams
      ensures |src| != 0 && |src| <= room && mode != Invalid && |src| % AES_BLOCK == 0 ==>
        status == Success || status == HalFailed
      ensures aes.reliable ==> status != HalFailed
      ensures status == Success ==>
        && dest == Ctr(aes, key, old(counter), src) && IsCtr(aes, key, old(counter), src, dest)
        && counter == Counter(aes, old(counter), |src| / AES_BLOCK)
    {
      dest := [];
      if |src| == 0 || room == 0 || |src| > room || mode == Invalid || |src| % AES_BLOCK != 0 {
        return InvalidParams, dest;
      }
      var ok := Attempt(aes.reliable);
      if !ok {
        return HalFailed, dest;
      }
      var iv := counter;
      var left := src;
      ghost var n := 0;
      while |left| > 0
        invariant |left| % AES_BLOCK == 0 && n * AES_BLOCK + |left| == |src|
        invariant counter == Counter(aes, iv, n)
        invariant dest + Ctr(aes, key, counter, left) == Ctr(aes, key, iv, src)
      {
        var first, rest := left[..AES_BLOCK], left[AES_BLOCK..];
        NextBlock(aes, key, iv, counter, n, dest, first, rest);
        assert first + rest == left;
        dest := dest + XorWith(first, aes.block(key, counter));
        counter := aes.next(counter);
        left := rest;
        n := n + 1;
      }
      assert Ctr(aes, key, counter, []) == [] && dest + [] == dest;
      CtrIs(aes, key, iv, src);
      status := Success;
    }

    /** The last piece, of any length. The context is wiped. */
    method Final(aes: Aes, src: seq<uint8>, room: nat) returns (status: Status, dest: seq<uint8>)
      requires AesOk(aes)
      modifies this
      ensures old(mode) == Invalid || (|src| > 0 && |src| > room) ==> status == InvalidParams
      ensures old(mode) != Invalid && |src| <= room ==> status == Success || status == HalFailed
      ensures aes.reliable ==> status != HalFailed
      ensures status == Success ==>
        dest == Ctr(aes, old(key), old(counter), src) && IsCtr(aes, old(key), old(counter), src, dest)
      ensures mode == Invalid && key == [] && counter == []
    {
      dest := [];
      CtrIs(aes, key, counter, src);
      if mode == Invalid {
        status := InvalidParams;
      } else if |src| == 0 {
        status := Success;
      } else if |src| > room {
        status := InvalidParams;
      } else if |src| % AES_BLOCK == 0 {
        status, dest := Update(aes, src, room);
      } else {
        status, dest := FinalTail(aes, src, room);
      }
      counter, key, mode := [], [], Invalid;
    }

    /** Whole blocks, then the rest padded with zeros to a block. */
    method FinalTail(aes: Aes, src: seq<uint8>, room: nat) returns (status: Status, dest: seq<uint8>)
      requires AesOk(aes) && mode != Invalid && 0 < |src| <= room && |src| % AES_BLOCK != 0
      modifies this`counter
      ensures status == Success || status == HalFailed
      ensures aes.reliable ==> status != HalFailed
      ensures status == Success ==> dest == Ctr(aes, key, old(counter), src)
    {
      var len := |src| - |src| % AES_BLOCK;
      var leftover := src[len..];
      ghost var iv, n := counter, len / AES_BLOCK;
      dest := [];
      if len != 0 {
        status, dest := Update(aes, src[..len], room);
        if status != Success {
          return;
        }
      }
      var zeros := seq(AES_BLOCK - |leftover|, _ => 0);
      ghost var at := counter;
      var block;
      status, block := Update(aes, leftover + zeros, AES_BLOCK);
      if status != Success {
        return;
      }
      CtrPrefix(aes, key, at, leftover, zeros);
      CtrSplit(aes, key, iv, src[..len], leftover, n);
      assert src[..len] + leftover == src;
      assert len == 0 ==> Ctr(aes, key, iv, src[..len]) == [] && dest == [];
      dest := dest + block[..|leftover|];
    }
  }

  /** One more block of a stream that is done up to `left`. */
  lemma NextBlock(aes: Aes, key: seq<uint8>, iv: seq<uint8>, at: seq<uint8>, n: nat, dest: seq<uint8>,
                  first: seq<uint8>, rest: seq<uint8>)
    requires AesOk(aes) && |first| == AES_BLOCK && at == Counter(aes, iv, n)
    ensures dest + Ctr(aes, key, at, first + rest) ==
            (dest + XorWith(first, aes.block(key, at))) + Ctr(aes, key, aes.next(at), rest)
    ensures aes.next(at) == Counter(aes, iv, n + 1)
  {
    FirstBlock(aes, key, at, first, rest);
    CounterStep(aes, iv, n);
  }

  lemma {:induction false} CounterStep(aes: Aes, iv: seq<uint8>, n: nat)
    ensures Counter(aes, iv, n + 1) == aes.next(Counter(aes, iv, n))
    decreases n
  {
    if n > 0 {
      CounterStep(aes, aes.next(iv), n - 1);
    }
  }
}
