/** Message digests in pieces: buffering of partial blocks around a block-wise hash engine. */
module Digest {
  import opened Word
  import opened Limbs

  datatype Status = Success | InvalidParams | HalFailed | BadMeasurement | InvalidCertificate

  /** The hash engine: its initial state, one block, and the final padded step, which is given the number of octets
      hashed before. The engine itself is not modelled; it may fail at any time unless it is reliable. */
  datatype Sha = Sha(block: nat, iv: seq<uint8>, compress: (seq<uint8>, seq<uint8>) -> seq<uint8>,
                     finish: (seq<uint8>, seq<uint8>, nat) -> seq<uint8>, reliable: bool)

  /** Whether a call of a hardware engine succeeds. */
  method Attempt(reliable: bool) returns (ok: bool)
    ensures reliable ==> ok
  {
    ok := *;
    ok := ok || reliable;
  }

  /** The engine takes in whole blocks, one after the other. */
  method Compress(sha: Sha, h: seq<uint8>, data: seq<uint8>) returns (r: seq<uint8>)
    requires ShaOk(sha) && Aligned(sha, |data|)
    ensures r == Fold(sha, h, data)
  {
    r := h;
    var at := 0;
    while at < |data|
      invariant at <= |data| && Aligned(sha, at) && Aligned(sha, |data| - at)
      invariant r == Fold(sha, h, data[..at])
    {
      NotShort(sha, |data| - at);
      ghost var done := data[..at];
      FoldSnoc(sha, h, done, data[at..at + sha.block]);
      assert done + data[at..at + sha.block] == data[..at + sha.block];
      OneBlock(sha);
      NextAligned(sha, at, |data|);
      r := sha.compress(r, data[at..at + sha.block]);
      at := at + sha.block;
    }
    assert data[..at] == data;
  }

  lemma NotShort(sha: Sha, n: nat)
    requires ShaOk(sha) && Aligned(sha, n) && n > 0
    ensures n >= sha.block
  {
  }

  lemma NextAligned(sha: Sha, at: nat, length: nat)
    requires ShaOk(sha) && Aligned(sha, at) && at + sha.block <= length && Aligned(sha, length - at)
    ensures Aligned(sha, at + sha.block) && Aligned(sha, length - (at + sha.block))
  {
    MoreBlocks(sha, at, sha.block);
    FewerBlocks(sha, length - at);
  }

  const MAX_BLOCK: nat := 128

  predicate ShaOk(sha: Sha) {
    sha.block == 64 || sha.block == 128
  }

  predicate Aligned(sha: Sha, length: nat)
    requires ShaOk(sha)
  {
    length % sha.block == 0
  }

  /** The engine's state after whole blocks. */
  function Fold(sha: Sha, h: seq<uint8>, data: seq<uint8>): seq<uint8>
    requires ShaOk(sha)
    decreases |data|
  {
    if |data| < sha.block then h else Fold(sha, sha.compress(h, data[..sha.block]), data[sha.block..])
  }

  /** The digest of a message in one go: its whole blocks, then the rest. */
  function Hash(sha: Sha, msg: seq<uint8>): seq<uint8>
    requires ShaOk(sha)
  {
    var n := |msg| - |msg| % sha.block;
    sha.finish(Fold(sha, sha.iv, msg[..n]), msg[n..], Wrap32(n))
  }

  lemma {:induction false} FoldConcat(sha: Sha, h: seq<uint8>, a: seq<uint8>, b: seq<uint8>)
    requires ShaOk(sha) && Aligned(sha, |a|)
    ensures Fold(sha, h, a + b) == Fold(sha, Fold(sha, h, a), b)
    decreases |a|
  {
    if |a| < sha.block {
      assert a == [] && a + b == b;
    } else {
      var first, rest := a[..sha.block], a[sha.block..];
      assert (a + b)[..sha.block] == first && (a + b)[sha.block..] == rest + b;
      FewerBlocks(sha, |a|);
      FoldConcat(sha, sha.compress(h, first), rest, b);
    }
  }

  /** No blocks leave the state; one more block at the end is one more compression. */
  lemma FoldSnoc(sha: Sha, h: seq<uint8>, a: seq<uint8>, b: seq<uint8>)
    requires ShaOk(sha) && Aligned(sha, |a|) && |b| == sha.block
    ensures Fold(sha, h, []) == h
    ensures Fold(sha, h, a + b) == sha.compress(Fold(sha, h, a), b)
  {
    FoldConcat(sha, h, a, b);
    assert b[..sha.block] == b && b[sha.block..] == [];
  }

  /** Block `i` of a message. */
  function BlockAt(sha: Sha, msg: seq<uint8>, i: nat): (b: seq<uint8>)
    requires sha.block * (i + 1) <= |msg|
    ensures |b| == sha.block
  {
    var at := sha.block * i;
    ProductStep(sha.block, i);
    msg[at..at + sha.block]
  }

  lemma ProductStep(b: nat, i: nat)
    ensures 0 <= b * i && b * (i + 1) == b * i + b
  {
  }

  /** The states of the engine over the first blocks of a message: each is the compression of the one before it and
      the next block. */
  ghost predicate IsChain(sha: Sha, states: seq<seq<uint8>>, msg: seq<uint8>) {
    && 0 < |states| && sha.block * (|states| - 1) <= |msg|
    && states[0] == sha.iv
    && forall i: nat :: i < |states| - 1 ==> ChainStep(sha, states, msg, i)
  }

  ghost predicate ChainStep(sha: Sha, states: seq<seq<uint8>>, msg: seq<uint8>, i: nat) {
    && i + 1 < |states| && sha.block * (i + 1) <= |msg|
    && states[i + 1] == sha.compress(states[i], BlockAt(sha, msg, i))
  }

  /** The digest of a message by definition: as many compressions in order as it has whole blocks, then the final step
      with the rest and the number of octets in the blocks. */
  ghost predicate IsDigest(sha: Sha, msg: seq<uint8>, digest: seq<uint8>) {
    exists states :: IsChain(sha, states, msg) && EndsWith(sha, states, msg, digest)
  }

  ghost predicate EndsWith(sha: Sha, states: seq<seq<uint8>>, msg: seq<uint8>, digest: seq<uint8>) {
    && 0 < |states| && 0 <= |msg| - sha.block * (|states| - 1) < sha.block
    && var n := sha.block * (|states| - 1);
       digest == sha.finish(states[|states| - 1], msg[n..], n % 0x1_0000_0000)
  }

  lemma BlockAfter(sha: Sha, msg: seq<uint8>, i: nat)
    requires ShaOk(sha) && sha.block * (i + 1) <= |msg|
    ensures 0 <= sha.block * i <= |msg| && Aligned(sha, sha.block * i)
    ensures msg[..sha.block * (i + 1)] == msg[..sha.block * i] + BlockAt(sha, msg, i)
    ensures forall h :: Fold(sha, h, msg[..sha.block * (i + 1)]) ==
                        sha.compress(Fold(sha, h, msg[..sha.block * i]), BlockAt(sha, msg, i))
  {
    ProductStep(sha.block, i);
    Multiple(sha, i);
    assert msg[..sha.block * (i + 1)] == msg[..sha.block * i] + BlockAt(sha, msg, i);
    forall h
      ensures Fold(sha, h, msg[..sha.block * (i + 1)]) ==
              sha.compress(Fold(sha, h, msg[..sha.block * i]), BlockAt(sha, msg, i))
    {
      FoldSnoc(sha, h, msg[..sha.block * i], BlockAt(sha, msg, i));
    }
  }

  lemma Multiple(sha: Sha, i: nat)
    requires ShaOk(sha)
    ensures Aligned(sha, sha.block * i)
  {
    if sha.block == 64 {
      assert 64 * i % 64 == 0;
    } else {
      assert 128 * i % 128 == 0;
    }
  }

  /** The states of a chain are those of the engine after so many blocks. */
  lemma {:induction false} ChainIsFold(sha: Sha, states: seq<seq<uint8>>, msg: seq<uint8>, i: nat)
    requires ShaOk(sha) && IsChain(sha, states, msg) && i < |states|
    ensures sha.block * i <= |msg| && states[i] == Fold(sha, sha.iv, msg[..sha.block * i])
  {
    if i > 0 {
      ChainIsFold(sha, states, msg, i - 1);
      assert ChainStep(sha, states, msg, i - 1);
      BlockAfter(sha, msg, i - 1);
    }
  }

  lemma QuotientOf(sha: Sha, length: nat, m: nat)
    requires ShaOk(sha) && 0 <= length - sha.block * m < sha.block
    ensures length - length % sha.block == sha.block * m
  {
    DivModUnique(length, sha.block, m, length - sha.block * m);
  }

  lemma BlocksIn(sha: Sha, length: nat, m: nat, i: nat)
    requires ShaOk(sha) && m == length / sha.block && i <= m
    ensures sha.block * i <= sha.block * m <= length < sha.block * m + sha.block
  {
    var b := sha.block;
    assert length == b * m + length % b;
    MulLe(i, m, b);
  }

  /** The digest that is computed is the one by definition, and the only one. */
  lemma HashIsDigest(sha: Sha, msg: seq<uint8>, digest: seq<uint8>)
    requires ShaOk(sha)
    ensures digest == Hash(sha, msg) <==> IsDigest(sha, msg, digest)
  {
    if IsDigest(sha, msg, digest) {
      var states :| IsChain(sha, states, msg) && EndsWith(sha, states, msg, digest);
      ChainIsFold(sha, states, msg, |states| - 1);
      QuotientOf(sha, |msg|, |states| - 1);
    }
    if digest == Hash(sha, msg) {
      var states := States(sha, msg);
      QuotientOf(sha, |msg|, |states| - 1);
      assert EndsWith(sha, states, msg, digest);
    }
  }

  lemma States(sha: Sha, msg: seq<uint8>) returns (states: seq<seq<uint8>>)
    requires ShaOk(sha)
    ensures IsChain(sha, states, msg) && 0 <= |msg| - sha.block * (|states| - 1) < sha.block
    ensures states[|states| - 1] == Fold(sha, sha.iv, msg[..sha.block * (|states| - 1)])
  {
    var m := |msg| / sha.block;
    BlocksIn(sha, |msg|, m, m);
    states := [sha.iv];
    for i := 0 to m
      invariant |states| == i + 1 && IsChain(sha, states, msg)
    {
      BlocksIn(sha, |msg|, m, i + 1);
      ghost var was := states;
      states := states + [sha.compress(states[i], BlockAt(sha, msg, i))];
      forall k: nat | k < |states| - 1
        ensures ChainStep(sha, states, msg, k)
      {
        if k < i {
          assert ChainStep(sha, was, msg, k);
        }
      }
    }
    ChainIsFold(sha, states, msg, m);
  }

  lemma FewerBlocks(sha: Sha, n: nat)
    requires ShaOk(sha) && Aligned(sha, n) && n >= sha.block
    ensures Aligned(sha, n - sha.block)
  {
    if sha.block == 64 {
    }
  }

  lemma SliceAppend(all: seq<uint8>, data: seq<uint8>, k: nat)
    requires k <= |all|
    ensures (all + data)[k..] == all[k..] + data && (all + data)[..k] == all[..k]
    ensures all + data == all[..k] + (all[k..] + data)
  {
  }

  lemma SplitInput(all: seq<uint8>, input: seq<uint8>, n: nat)
    requires n <= |input|
    ensures (all + input)[..|all| + n] == all + input[..n] && (all + input)[|all| + n..] == input[n..]
  {
  }

  /** A digest in progress. */
  class DigestCtx {
    var h: seq<uint8>
    const msgBlock: array<uint8>
    var bytesUsed: nat
    var length: uint32
    /** Everything taken in so far, and the part of it that the engine has seen. */
    ghost var consumed: seq<uint8>
    ghost var hashed: nat

    constructor ()
      ensures fresh(msgBlock) && msgBlock.Length == MAX_BLOCK
    {
      h, bytesUsed, length := [], 0, 0;
      msgBlock := new uint8[MAX_BLOCK](_ => 0);
      consumed, hashed := [], 0;
    }

    /** The engine has seen all whole blocks; the rest is in the buffer. */
    ghost predicate Valid(sha: Sha)
      reads this, msgBlock
    {
      && ShaOk(sha) && msgBlock.Length == MAX_BLOCK
      && bytesUsed < sha.block && hashed <= |consumed| && Aligned(sha, hashed)
      && consumed[hashed..] == msgBlock[..bytesUsed]
      && h == Fold(sha, sha.iv, consumed[..hashed]) && length == Wrap32(hashed)
    }

    method Init(sha: Sha) returns (status: Status)
      requires ShaOk(sha) && msgBlock.Length == MAX_BLOCK
      modifies this, msgBlock
      ensures status == Success || status == HalFailed
      ensures sha.reliable ==> status != HalFailed
      ensures status == Success ==> Valid(sha) && consumed == []
    {
      forall i | 0 <= i < MAX_BLOCK {
        msgBlock[i] := 0;
      }
      bytesUsed, length := 0, 0;
      consumed, hashed := [], 0;
      var ok := Attempt(sha.reliable);
      if !ok {
        return HalFailed;
      }
      h := sha.iv;
      return Success;
    }

    /** Passes whole blocks to the engine. */
    method HashBlocks(sha: Sha, data: seq<uint8>) returns (status: Status)
      requires ShaOk(sha)
      modifies this`h, this`length
      ensures |data| == 0 || !Aligned(sha, |data|) ==> status == InvalidParams
      ensures |data| > 0 && Aligned(sha, |data|) ==> status == Success || status == HalFailed
      ensures sha.reliable ==> status != HalFailed
      ensures status == Success ==> h == Fold(sha, old(h), data) && length == Wrap32(old(length) as int + |data|)
    {
      if |data| == 0 || |data| % sha.block != 0 {
        return InvalidParams;
      }
      var ok := Attempt(sha.reliable);
      if ok {
        h := Compress(sha, h, data);
        status := Success;
      } else {
        status := HalFailed;
      }
      length := Wrap32(length as int + |data|);
    }

    /** Copies octets into the block buffer. */
    method Store(at: nat, data: seq<uint8>)
      requires at + |data| <= msgBlock.Length
      modifies msgBlock
      ensures msgBlock[..at] == old(msgBlock[..at]) && msgBlock[at..at + |data|] == data
    {
      forall i | 0 <= i < |data| {
        msgBlock[at + i] := data[i];
      }
    }

    /** Completes a partial block, if there is one and there is enough data, and passes it on. Returns how much of
        the data that took; -1 if all of it fitted into the buffer. */
    method TopUp(sha: Sha, data: seq<uint8>) returns (status: Status, used: int)
      requires Valid(sha)
      modifies this, msgBlock
      ensures status == Success || status == HalFailed
      ensures sha.reliable ==> status != HalFailed
      ensures status == Success && used < 0 ==> Valid(sha) && consumed == old(consumed) + data
      ensures status == Success && used >= 0 ==>
        && used <= |data| && hashed == |consumed| && consumed == old(consumed) + data[..used]
        && Aligned(sha, hashed) && h == Fold(sha, sha.iv, consumed) && length == Wrap32(hashed)
    {
      used := 0;
      status := Success;
      ghost var all := consumed;
      if bytesUsed > 0 {
        var len := sha.block - bytesUsed;
        if len > |data| {
          Keep(sha, data);
          return Success, -1;
        }
        used := len;
        status := Complete(sha, data[..len]);
      } else {
        assert all[hashed..] == [] && all + data[..0] == all && all[..hashed] == all;
      }
    }

    /** Adds to a block that stays partial. */
    method Keep(sha: Sha, data: seq<uint8>)
      requires Valid(sha) && bytesUsed + |data| < sha.block
      modifies this, msgBlock
      ensures Valid(sha) && consumed == old(consumed) + data
    {
      ghost var all, was := consumed, msgBlock[..bytesUsed];
      Store(bytesUsed, data);
      SliceAppend(all, data, hashed);
      assert msgBlock[..bytesUsed + |data|] == was + data;
      bytesUsed := bytesUsed + |data|;
      consumed := all + data;
    }

    /** Completes a partial block, and passes it on. */
    method Complete(sha: Sha, data: seq<uint8>) returns (status: Status)
      requires Valid(sha) && bytesUsed + |data| == sha.block
      modifies this, msgBlock
      ensures status == Success || status == HalFailed
      ensures sha.reliable ==> status != HalFailed
      ensures status == Success ==>
        && hashed == |consumed| && consumed == old(consumed) + data
        && Aligned(sha, hashed) && h == Fold(sha, sha.iv, consumed) && length == Wrap32(hashed)
    {
      ghost var all, seen, was := consumed, hashed, msgBlock[..bytesUsed];
      Store(bytesUsed, data);
      var full := msgBlock[..sha.block];
      assert full == was + data;
      SliceAppend(all, data, seen);
      OneBlock(sha);
      status := HashBlocks(sha, full);
      consumed := all + data;
      hashed := seen + sha.block;
      FoldConcat(sha, sha.iv, all[..seen], full);
      MoreBlocks(sha, seen, sha.block);
    }

    /** Takes in more of the message. */
    method Update(sha: Sha, data: seq<uint8>) returns (status: Status)
      requires Valid(sha)
      modifies this, msgBlock
      ensures status == Success || status == HalFailed
      ensures sha.reliable ==> status != HalFailed
      ensures status == Success ==> Valid(sha) && consumed == old(consumed) + data
    {
      var used;
      status, used := TopUp(sha, data);
      if status != Success || used < 0 {
        return;
      }
      status := HashRest(sha, data[used..]);
      assert data == data[..used] + data[used..];
    }

    /** Keeps what is left after the whole blocks. */
    method KeepRest(sha: Sha, input: seq<uint8>, n: nat)
      requires ShaOk(sha) && msgBlock.Length == MAX_BLOCK && hashed == |consumed| && n <= |input|
      requires bytesUsed == |input| - n < sha.block && Aligned(sha, hashed + n)
      requires h == Fold(sha, sha.iv, consumed + input[..n]) && length == Wrap32(hashed + n)
      modifies this`consumed, this`hashed, msgBlock
      ensures Valid(sha) && consumed == old(consumed) + input
    {
      Store(0, input[n..]);
      SplitInput(consumed, input, n);
      consumed, hashed := consumed + input, hashed + n;
      assert msgBlock[..bytesUsed] == msgBlock[0..0 + bytesUsed];
    }

    /** The data that starts on a block boundary: whole blocks are passed on, the rest goes to the buffer. */
    method HashRest(sha: Sha, input: seq<uint8>) returns (status: Status)
      requires ShaOk(sha) && msgBlock.Length == MAX_BLOCK && hashed == |consumed| && Aligned(sha, hashed)
      requires h == Fold(sha, sha.iv, consumed) && length == Wrap32(hashed)
      modifies this, msgBlock
      ensures status == Success || status == HalFailed
      ensures sha.reliable ==> status != HalFailed
      ensures status == Success ==> Valid(sha) && consumed == old(consumed) + input
    {
      ghost var all := consumed;
      status := Success;
      bytesUsed := |input| % sha.block;
      var n := |input| - bytesUsed;
      WholeBlocks(sha, |input|);
      MoreBlocks(sha, |all|, n);
      FoldConcat(sha, sha.iv, all, input[..n]);
      if n > 0 {
        status := HashBlocks(sha, input[..n]);
        if status != Success {
          return;
        }
      } else {
        assert all + input[..n] == all;
      }
      KeepRest(sha, input, n);
    }

    /** Pads, and delivers the digest of everything taken in. */
    method Final(sha: Sha) returns (status: Status, digest: seq<uint8>)
      requires Valid(sha)
      modifies this
      ensures status == Success || status == HalFailed
      ensures sha.reliable ==> status != HalFailed
      ensures status == Success ==> digest == Hash(sha, consumed) && h == digest && IsDigest(sha, consumed, digest)
      ensures consumed == old(consumed)
    {
      digest := [];
      TailOf(sha, hashed, bytesUsed, |consumed|);
      assert consumed[hashed..] == msgBlock[..bytesUsed];
      var ok := Attempt(sha.reliable);
      if ok {
        digest := sha.finish(h, msgBlock[..bytesUsed], length);
        h := digest;
        status := Success;
        HashIsDigest(sha, consumed, digest);
      } else {
        status := HalFailed;
      }
      length := Wrap32(length as int + bytesUsed);
      bytesUsed := 0;
    }
  }

  lemma OneBlock(sha: Sha)
    requires ShaOk(sha)
    ensures Aligned(sha, sha.block)
  {
  }

  lemma MoreBlocks(sha: Sha, n: nat, m: nat)
    requires ShaOk(sha) && Aligned(sha, n) && Aligned(sha, m)
    ensures Aligned(sha, n + m)
    ensures Wrap32(Wrap32(n) as int + m) == Wrap32(n + m)
  {
    var b := sha.block;
    DivModUnique(n + m, b, n / b + m / b, 0);
    WrapSum(n, m);
  }

  lemma WrapSum(n: nat, m: nat)
    ensures Wrap32(Wrap32(n) as int + m) == Wrap32(n + m)
  {
  }

  lemma WholeBlocks(sha: Sha, n: nat)
    requires ShaOk(sha)
    ensures Aligned(sha, n - n % sha.block) && n % sha.block < sha.block
  {
    if sha.block == 64 {
    }
  }

  lemma TailOf(sha: Sha, hashed: nat, used: nat, total: nat)
    requires ShaOk(sha) && Aligned(sha, hashed) && used < sha.block && total == hashed + used
    ensures total % sha.block == used
  {
    if sha.block == 64 {
    }
  }

  function Flatten(chunks: seq<seq<uint8>>): seq<uint8> {
    if chunks == [] then [] else chunks[0] + Flatten(chunks[1..])
  }

  lemma {:induction false} FlattenSnoc(chunks: seq<seq<uint8>>, n: nat)
    requires n < |chunks|
    ensures Flatten(chunks[..n + 1]) == Flatten(chunks[..n]) + chunks[n]
    decreases n
  {
    if n == 0 {
      assert chunks[..1] == [chunks[0]] && chunks[..1][1..] == [];
    } else {
      var rest := chunks[1..];
      FlattenSnoc(rest, n - 1);
      assert chunks[..n + 1][1..] == rest[..n] && chunks[..n][1..] == rest[..n - 1];
    }
  }

  /** However a message is cut into pieces, the digest is the one of the whole. */
  method HashChunks(sha: Sha, chunks: seq<seq<uint8>>) returns (status: Status, digest: seq<uint8>)
    requires ShaOk(sha)
    ensures status == Success || status == HalFailed
    ensures sha.reliable ==> status == Success
    ensures status == Success ==> digest == Hash(sha, Flatten(chunks)) && IsDigest(sha, Flatten(chunks), digest)
  {
    digest := [];
    var ctx := new DigestCtx();
    status := ctx.Init(sha);
    if status != Success {
      return;
    }
    var i := 0;
    assert chunks[..0] == [];
    while i < |chunks|
      invariant status == Success && i <= |chunks| && fresh(ctx) && fresh(ctx.msgBlock) && ctx.Valid(sha)
      invariant ctx.consumed == Flatten(chunks[..i])
    {
      status := ctx.Update(sha, chunks[i]);
      if status != Success {
        return;
      }
      FlattenSnoc(chunks, i);
      i := i + 1;
    }
    assert chunks[..i] == chunks;
    status, digest := ctx.Final(sha);
  }

  /** The digest of a message in one call. */
  method DigestSha(sha: Sha, msg: seq<uint8>) returns (status: Status, digest: seq<uint8>)
    requires ShaOk(sha)
    ensures |msg| == 0 ==> status == InvalidParams
    ensures |msg| > 0 ==> status == Success || status == HalFailed
    ensures sha.reliable ==> status != HalFailed
    ensures status == Success ==> digest == Hash(sha, msg) && IsDigest(sha, msg, digest)
  {
    digest := [];
    if |msg| == 0 {
      return InvalidParams, digest;
    }
    var ctx := new DigestCtx();
    status := ctx.Init(sha);
    if status != Success {
      return;
    }
    status := ctx.Update(sha, msg);
    if status != Success {
      return;
    }
    assert [] + msg == msg;
    status, digest := ctx.Final(sha);
  }
}
