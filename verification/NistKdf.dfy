/** Key derivation in counter mode, as in section 5.1 of NIST SP 800-108, with HMAC as the pseudo-random function. */
module NistKdf {
  import opened Word
  import opened Digest
  import opened Hmac
  import Octets

  const NIST_KDF_H_BYTES: nat := 32
  const NIST_KDF_H: nat := 256

  /** A 32-bit word in memory. */
  function WordOctets(x: uint32): (r: seq<uint8>)
    ensures |r| == 4
  {
    [x % 0x100, x / 0x100 % 0x100, x / 0x1_0000 % 0x100, x / 0x100_0000 % 0x100]
  }

  /** What the pseudo-random function is applied to: counter, label, a zero octet, context, length in bits. */
  function PrfInput(i: uint32, name: seq<uint8>, context: seq<uint8>, l: uint32): seq<uint8> {
    WordOctets(i) + name + [0] + context + WordOctets(l)
  }

  /** Four octets hold a word exactly if they are its octets. */
  lemma WordOctetsAt(s: seq<uint8>, at: nat, x: uint32)
    requires at + 4 <= |s|
    ensures Octets.WordAt(s, at) == x <==> s[at..at + 4] == WordOctets(x)
  {
    Octets.SplitWord(x);
    if Octets.WordAt(s, at) == x {
      Octets.JoinWord(s[at], s[at + 1], s[at + 2], s[at + 3], x);
    }
  }

  /** Where everything is in the input: the counter as a word, label, a zero octet, context, the length as a word. */
  ghost predicate IsPrfInput(r: seq<uint8>, i: uint32, name: seq<uint8>, context: seq<uint8>, l: uint32) {
    && |r| == 9 + |name| + |context|
    && Octets.WordAt(r, 0) == i && r[4..4 + |name|] == name && r[4 + |name|] == 0
    && r[5 + |name|..|r| - 4] == context && Octets.WordAt(r, |r| - 4) == l
  }

  lemma PrfInputIs(r: seq<uint8>, i: uint32, name: seq<uint8>, context: seq<uint8>, l: uint32)
    ensures IsPrfInput(r, i, name, context, l) <==> r == PrfInput(i, name, context, l)
  {
    if |r| == 9 + |name| + |context| {
      WordOctetsAt(r, 0, i);
      WordOctetsAt(r, |r| - 4, l);
      Pieces(r, WordOctets(i), name, context, WordOctets(l));
    }
  }

  lemma Pieces(r: seq<uint8>, a: seq<uint8>, b: seq<uint8>, c: seq<uint8>, d: seq<uint8>)
    requires |a| == 4 && |d| == 4 && |r| == 9 + |b| + |c|
    ensures r == a + b + [0] + c + d <==>
            && r[0..0 + 4] == a && r[4..4 + |b|] == b && r[4 + |b|] == 0 && r[5 + |b|..|r| - 4] == c
            && r[|r| - 4..|r| - 4 + 4] == d
  {
    var n := 4 + |b|;
    if r[0..0 + 4] == a && r[4..n] == b && r[n] == 0 && r[n + 1..|r| - 4] == c && r[|r| - 4..|r| - 4 + 4] == d {
      assert r == r[0..0 + 4] + r[4..n] + [r[n]] + r[n + 1..|r| - 4] + r[|r| - 4..|r| - 4 + 4];
    }
  }

  /** Different counters and different lengths are told apart. */
  lemma InputsDiffer(i: uint32, j: uint32, name: seq<uint8>, context: seq<uint8>, l: uint32, m: uint32)
    ensures PrfInput(i, name, context, l) == PrfInput(j, name, context, m) <==> i == j && l == m
  {
    PrfInputIs(PrfInput(i, name, context, l), i, name, context, l);
    PrfInputIs(PrfInput(j, name, context, m), j, name, context, m);
  }

  /** The pseudo-random function of the counter. */
  ghost function PrfOf(sha: Sha, key: seq<uint8>, name: seq<uint8>, context: seq<uint8>, l: uint32): uint32 -> seq<uint8>
    requires ShaOk(sha) && |key| <= HMAC_BLOCK
  {
    (i: uint32) => HmacOf(sha, key, PrfInput(i, name, context, l))
  }

  /** The first n outputs of a function of the counter, one after the other. */
  ghost function Stream(f: uint32 -> seq<uint8>, n: nat): (r: seq<uint8>)
    requires n < TWO_32
  {
    if n == 0 then [] else Stream(f, n - 1) + f(n)
  }

  ghost predicate PrfAt(f: uint32 -> seq<uint8>, sha: Sha, key: seq<uint8>, name: seq<uint8>, context: seq<uint8>,
                        l: uint32, i: uint32)
    requires ShaOk(sha) && KeyOk(key)
  {
    f(i) == HmacOf(sha, key, PrfInput(i, name, context, l))
  }

  ghost predicate IsPrf(f: uint32 -> seq<uint8>, sha: Sha, key: seq<uint8>, name: seq<uint8>, context: seq<uint8>,
                        l: uint32)
    requires ShaOk(sha)
  {
    KeyOk(key) ==> forall i :: PrfAt(f, sha, key, name, context, l, i)
  }

  /** The length in bits, in a 32-bit register. */
  function BitLength(length: nat): uint32 {
    Wrap32(length * 8)
  }

  /** The number of rounds. The subtraction wraps around for zero. */
  function Rounds(length: nat): (n: nat)
    ensures n <= 0x100_0000
  {
    Wrap32(BitLength(length) - 1) / NIST_KDF_H + 1
  }

  /** For up to 2^29 octets, and at least one, the rounds are just enough. */
  lemma RoundsEnough(length: nat)
    ensures 0 < length <= 0x2000_0000 ==> NIST_KDF_H_BYTES * (Rounds(length) - 1) < length <= NIST_KDF_H_BYTES * Rounds(length)
    ensures length == 0 ==> Rounds(length) == 0x100_0000
    ensures BitLength(length) == 8 * length % 0x1_0000_0000
    ensures 0x2000_0000 < length < TWO_32 ==> NIST_KDF_H_BYTES * Rounds(length) < length
  {
    if 0 < length < 0x2000_0000 {
      assert BitLength(length) == length * 8;
    } else if length == 0x2000_0000 {
      assert BitLength(length) == 0;
    } else if 0x2000_0000 < length < TWO_32 {
      var l := BitLength(length);
      assert l == 0 || l < 8 * length;
    }
  }

  /** One application of the pseudo-random function. */
  method Prf(sha: Sha, key: seq<uint8>, i: uint32, name: seq<uint8>, context: seq<uint8>, l: uint32)
    returns (status: Status, out: seq<uint8>)
    requires Sha256(sha)
    ensures !KeyOk(key) ==> status == InvalidParams
    ensures KeyOk(key) ==> status == Success || status == HalFailed
    ensures sha.reliable ==> status != HalFailed
    ensures status == Success ==>
      KeyOk(key) && out == HmacOf(sha, key, PrfInput(i, name, context, l)) && |out| == NIST_KDF_H_BYTES
    ensures status == Success ==>
      forall input :: IsPrfInput(input, i, name, context, l) <==> input == PrfInput(i, name, context, l)
  {
    out := [];
    var ctx := new HmacCtx();
    status := ctx.Init(sha, key);
    if status != Success {
      return;
    }
    status := ctx.Update(sha, WordOctets(i), []);
    if status != Success {
      return;
    }
    ghost var t1 := [] + WordOctets(i);
    status := ctx.Update(sha, name, t1);
    if status != Success {
      return;
    }
    ghost var t2 := t1 + name;
    status := ctx.Update(sha, [0], t2);
    if status != Success {
      return;
    }
    ghost var t3 := t2 + [0];
    if |context| != 0 {
      status := ctx.Update(sha, context, t3);
      if status != Success {
        return;
      }
    } else {
      assert t3 + context == t3;
    }
    ghost var t4 := t3 + context;
    status := ctx.Update(sha, WordOctets(l), t4);
    if status != Success {
      return;
    }
    assert t1 == WordOctets(i);
    forall input
      ensures IsPrfInput(input, i, name, context, l) <==> input == PrfInput(i, name, context, l)
    {
      PrfInputIs(input, i, name, context, l);
    }
    status, out := ctx.Final(sha, t4 + WordOctets(l));
  }

  function Min(a: nat, b: nat): nat {
    if a < b then a else b
  }

  /** As much of the output as `done` octets of the stream cover has been written. */
  ghost predicate Written(stream: seq<uint8>, was: seq<uint8>, now: seq<uint8>, done: nat) {
    && |now| == |was| && |stream| >= Min(|was|, done)
    && now[..Min(|was|, done)] == stream[..Min(|was|, done)]
    && now[Min(|was|, done)..] == was[Min(|was|, done)..]
  }

  /** Fills the output with the first octets of the stream: all of it if the rounds are enough. `applied` counts the
      applications of the pseudo-random function. */
  method Kdf(sha: Sha, keyOut: array<uint8>, keyIn: seq<uint8>, name: seq<uint8>, context: seq<uint8>)
    returns (status: Status, ghost applied: nat)
    requires Sha256(sha) && keyOut.Length < TWO_32
    modifies keyOut
    ensures applied <= Rounds(keyOut.Length) && (status == Success <==> applied == Rounds(keyOut.Length))
    ensures !KeyOk(keyIn) ==> status == InvalidParams
    ensures KeyOk(keyIn) ==> status == Success || status == HalFailed
    ensures sha.reliable ==> status != HalFailed
    ensures status == Success ==> KeyOk(keyIn)
    ensures status == Success ==>
      Written(Stream(PrfOf(sha, keyIn, name, context, BitLength(keyOut.Length)), Rounds(keyOut.Length)),
              old(keyOut[..]), keyOut[..], NIST_KDF_H_BYTES * Rounds(keyOut.Length))
  {
    ghost var f := if KeyOk(keyIn) then PrfOf(sha, keyIn, name, context, BitLength(keyOut.Length)) else (i => []);
    status, applied := FillAll(sha, keyOut, keyIn, name, context, f);
  }

  method FillAll(sha: Sha, keyOut: array<uint8>, keyIn: seq<uint8>, name: seq<uint8>, context: seq<uint8>,
                 ghost f: uint32 -> seq<uint8>) returns (status: Status, ghost applied: nat)
    requires Sha256(sha) && keyOut.Length < TWO_32
    requires IsPrf(f, sha, keyIn, name, context, BitLength(keyOut.Length))
    modifies keyOut
    ensures applied <= Rounds(keyOut.Length) && (status == Success <==> applied == Rounds(keyOut.Length))
    ensures !KeyOk(keyIn) ==> status == InvalidParams
    ensures KeyOk(keyIn) ==> status == Success || status == HalFailed
    ensures sha.reliable ==> status != HalFailed
    ensures status == Success ==> KeyOk(keyIn)
    ensures status == Success ==>
      Written(Stream(f, Rounds(keyOut.Length)), old(keyOut[..]), keyOut[..], NIST_KDF_H_BYTES * Rounds(keyOut.Length))
  {
    var l := BitLength(keyOut.Length);
    var n := Rounds(keyOut.Length);
    var bytesLeft: nat, offset: nat := keyOut.Length, 0;
    var i := 1;
    ghost var was, stream: seq<uint8> := keyOut[..], [];
    RoundsEnough(keyOut.Length);
    status, applied := Success, 0;
    while i <= n
      invariant status == Success && applied == i - 1 && 1 <= i <= n + 1 && (i > 1 ==> KeyOk(keyIn))
      invariant stream == Stream(f, i - 1)
      invariant |stream| == NIST_KDF_H_BYTES * (i - 1) && Written(stream, was, keyOut[..], |stream|)
      invariant |stream| < keyOut.Length ==> offset == |stream|
      invariant offset + bytesLeft == keyOut.Length && bytesLeft >= 0
    {
      var out;
      status, out := Round(sha, keyOut, keyIn, name, context, l, i, offset, bytesLeft, was, stream, f);
      if status != Success {
        return;
      }
      stream, applied := stream + out, applied + 1;
      if bytesLeft > NIST_KDF_H_BYTES {
        offset := offset + NIST_KDF_H_BYTES;
        bytesLeft := bytesLeft - NIST_KDF_H_BYTES;
      }
      i := i + 1;
    }
  }

  /** One round: the next output of the pseudo-random function, cut to what is left. */
  method Round(sha: Sha, keyOut: array<uint8>, keyIn: seq<uint8>, name: seq<uint8>, context: seq<uint8>, l: uint32,
               i: uint32, offset: nat, bytesLeft: nat, ghost was: seq<uint8>, ghost stream: seq<uint8>,
               ghost f: uint32 -> seq<uint8>)
    returns (status: Status, out: seq<uint8>)
    requires Sha256(sha) && 0 < i && offset + bytesLeft == keyOut.Length == |was|
    requires keyOut.Length > 0 ==> |stream| < keyOut.Length && offset == |stream|
    requires Written(stream, was, keyOut[..], |stream|) && IsPrf(f, sha, keyIn, name, context, l)
    modifies keyOut
    ensures !KeyOk(keyIn) ==> status == InvalidParams
    ensures KeyOk(keyIn) ==> status == Success || status == HalFailed
    ensures sha.reliable ==> status != HalFailed
    ensures status == Success ==> KeyOk(keyIn) && out == f(i) && |out| == NIST_KDF_H_BYTES
    ensures status == Success ==> Written(stream + out, was, keyOut[..], |stream + out|)
  {
    status, out := Prf(sha, keyIn, i, name, context, l);
    if status != Success {
      return;
    }
    assert PrfAt(f, sha, keyIn, name, context, l, i);
    ghost var before := keyOut[..];
    var piece := if bytesLeft <= NIST_KDF_H_BYTES then out[..bytesLeft] else out;
    CopyOut(keyOut, offset, piece);
    FillMore(stream, was, before, keyOut[..], |stream|, out, piece, offset);
  }

  lemma FillMore(stream: seq<uint8>, was: seq<uint8>, before: seq<uint8>, after: seq<uint8>, done: nat,
                 out: seq<uint8>, piece: seq<uint8>, offset: nat)
    requires Written(stream, was, before, done) && |stream| == done && |out| == NIST_KDF_H_BYTES
    requires |was| > 0 ==> done < |was| && offset == done
    requires offset <= |was| && piece == if |was| - offset <= NIST_KDF_H_BYTES then out[..|was| - offset] else out
    requires after == before[..offset] + piece + before[offset + |piece|..]
    ensures Written(stream + out, was, after, done + NIST_KDF_H_BYTES)
  {
    var m := Min(|was|, done + NIST_KDF_H_BYTES);
    if |was| > 0 {
      assert after[..m] == stream + piece;
      assert (stream + out)[..m] == stream + piece;
      assert before[offset + |piece|..] == was[m..];
    }
  }

  method CopyOut(a: array<uint8>, at: nat, data: seq<uint8>)
    requires at + |data| <= a.Length
    modifies a
    ensures a[..] == old(a[..at]) + data + old(a[at + |data|..])
  {
    forall i | 0 <= i < |data| {
      a[at + i] := data[i];
    }
  }
}
