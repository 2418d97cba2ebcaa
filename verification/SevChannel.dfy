/** Opening the two ends of a trusted channel: the client makes the transport keys and wraps them in a session,
    the server unwraps them. */
module SevChannel {
  import opened Word
  import opened Digest
  import opened Hmac
  import opened NistKdf
  import opened Cipher

  const SECRET_SIZE: nat := 16
  const ECC_SIZE: nat := 48

  const SEV_MASTER_SECRET_LABEL: seq<uint8> :=
    [0x73, 0x65, 0x76, 0x2D, 0x6D, 0x61, 0x73, 0x74, 0x65, 0x72, 0x2D, 0x73, 0x65, 0x63, 0x72, 0x65, 0x74]
  const SEV_KEK_LABEL: seq<uint8> := [0x73, 0x65, 0x76, 0x2D, 0x6B, 0x65, 0x6B]
  const SEV_KIK_LABEL: seq<uint8> := [0x73, 0x65, 0x76, 0x2D, 0x6B, 0x69, 0x6B]

  /** The octets spell a string. */
  predicate Spells(octets: seq<uint8>, s: string) {
    |octets| == |s| && forall i :: 0 <= i < |s| ==> octets[i] == s[i] as int
  }

  lemma LabelsSpell()
    ensures Spells(SEV_MASTER_SECRET_LABEL, "sev-master-secret")
    ensures Spells(SEV_KEK_LABEL, "sev-kek") && Spells(SEV_KIK_LABEL, "sev-kik")
  {
  }

  /** The primitives: hash engine, block cipher, and key agreement between a private and a public key. */
  datatype Suite = Suite(sha: Sha, aes: Aes, agree: (seq<uint8>, seq<uint8>) -> seq<uint8>, reliable: bool) {
    /** No primitive ever fails. */
    predicate Reliable() {
      sha.reliable && aes.reliable && reliable
    }
  }

  ghost predicate SuiteOk(c: Suite) {
    Sha256(c.sha) && AesOk(c.aes) && forall a, b :: |c.agree(a, b)| == ECC_SIZE
  }

  /** A key pair, and whether it is one for key agreement. */
  datatype KeyPair = KeyPair(usable: bool, private: seq<uint8>, public: seq<uint8>)

  /** The other side's certificate, and whether it passes the checks. */
  datatype Cert = Cert(sane: bool, public: seq<uint8>)

  datatype Channel = Channel(masterSecret: seq<uint8>, tek: seq<uint8>, tik: seq<uint8>, nonce: seq<uint8>)

  datatype Session = Session(nonce: seq<uint8>, wrapTk: seq<uint8>, wrapIv: seq<uint8>, wrapMac: seq<uint8>,
                             policyMac: seq<uint8>)

  /** A derived key: the first 16 octets of the stream. */
  ghost function Derived(sha: Sha, key: seq<uint8>, name: seq<uint8>, context: seq<uint8>): (r: seq<uint8>)
    requires Sha256(sha) && |key| <= HMAC_BLOCK
    ensures |r| == SECRET_SIZE
  {
    var out := HmacOf(sha, key, PrfInput(1, name, context, 128));
    if |out| >= SECRET_SIZE then out[..SECRET_SIZE] else seq(SECRET_SIZE, _ => 0)
  }

  /** Deriving a key of 16 octets. */
  method DeriveKey(sha: Sha, keyIn: seq<uint8>, name: seq<uint8>, context: seq<uint8>)
    returns (status: Status, key: seq<uint8>)
    requires Sha256(sha) && KeyOk(keyIn)
    ensures status == Success || status == HalFailed
    ensures sha.reliable ==> status != HalFailed
    ensures status == Success ==> key == Derived(sha, keyIn, name, context)
  {
    var buffer := new uint8[SECRET_SIZE](_ => 0);
    ghost var was := buffer[..];
    ghost var applied;
    status, applied := Kdf(sha, buffer, keyIn, name, context);
    key := buffer[..];
    if status == Success {
      FirstBlockOnly(sha, keyIn, name, context, was, key);
    }
  }

  lemma FirstBlockOnly(sha: Sha, keyIn: seq<uint8>, name: seq<uint8>, context: seq<uint8>, was: seq<uint8>,
                       key: seq<uint8>)
    requires Sha256(sha) && KeyOk(keyIn) && |was| == |key| == SECRET_SIZE
    requires Written(Stream(PrfOf(sha, keyIn, name, context, BitLength(SECRET_SIZE)), Rounds(SECRET_SIZE)), was, key,
                     NIST_KDF_H_BYTES * Rounds(SECRET_SIZE))
    ensures key == Derived(sha, keyIn, name, context)
  {
    SecretRounds();
    OneRound(PrfOf(sha, keyIn, name, context, 128));
    HashSize(sha, keyIn, PrfInput(1, name, context, 128));
    WrittenPrefix(HmacOf(sha, keyIn, PrfInput(1, name, context, 128)), was, key);
  }

  lemma SecretRounds()
    ensures Rounds(SECRET_SIZE) == 1 && BitLength(SECRET_SIZE) == 128
  {
  }

  lemma WrittenPrefix(stream: seq<uint8>, was: seq<uint8>, key: seq<uint8>)
    requires |stream| == HMAC_SIZE && |was| == |key| == SECRET_SIZE
    requires Written(stream, was, key, NIST_KDF_H_BYTES)
    ensures key == stream[..SECRET_SIZE]
  {
    assert key[..SECRET_SIZE] == key;
  }

  lemma OneRound(f: uint32 -> seq<uint8>)
    ensures Stream(f, 1) == f(1)
  {
    assert Stream(f, 0) == [];
  }

  lemma HashSize(sha: Sha, key: seq<uint8>, text: seq<uint8>)
    requires Sha256(sha) && |key| <= HMAC_BLOCK
    ensures |HmacOf(sha, key, text)| == HMAC_SIZE
  {
  }

  ghost function MasterOf(c: Suite, private: seq<uint8>, public: seq<uint8>, nonce: seq<uint8>): (r: seq<uint8>)
    requires SuiteOk(c)
    ensures |r| == SECRET_SIZE
  {
    Derived(c.sha, c.agree(private, public), SEV_MASTER_SECRET_LABEL, nonce)
  }

  method DeriveMasterSecret(c: Suite, private: seq<uint8>, public: seq<uint8>, nonce: seq<uint8>)
    returns (status: Status, secret: seq<uint8>)
    requires SuiteOk(c)
    ensures status == Success || status == HalFailed
    ensures c.Reliable() ==> status != HalFailed
    ensures status == Success ==> secret == MasterOf(c, private, public, nonce)
  {
    secret := [];
    var ok := Attempt(c.reliable);
    if !ok {
      return HalFailed, secret;
    }
    var intermediate := c.agree(private, public);
    status, secret := DeriveKey(c.sha, intermediate, SEV_MASTER_SECRET_LABEL, nonce);
  }

  /** The session that goes with a channel. */
  ghost predicate SessionOf(c: Suite, ch: Channel, iv: seq<uint8>, policy: seq<uint8>, s: Session)
    requires SuiteOk(c) && |ch.masterSecret| == SECRET_SIZE && |ch.tik| == SECRET_SIZE
  {
    && s.nonce == ch.nonce && s.wrapIv == iv
    && s.wrapTk == Ctr(c.aes, Derived(c.sha, ch.masterSecret, SEV_KEK_LABEL, []), iv, ch.tek + ch.tik)
    && s.wrapMac == HmacOf(c.sha, Derived(c.sha, ch.masterSecret, SEV_KIK_LABEL, []), s.wrapTk)
    && s.policyMac == HmacOf(c.sha, ch.tik, policy)
  }

  /** Wraps the transport keys in two pieces, as the cipher is driven. */
  method WrapKeys(c: Suite, kek: seq<uint8>, iv: seq<uint8>, tek: seq<uint8>, tik: seq<uint8>)
    returns (status: Status, wrapped: seq<uint8>)
    requires SuiteOk(c) && |tek| == SECRET_SIZE && |tik| == SECRET_SIZE
    ensures status == Success || status == HalFailed
    ensures c.Reliable() ==> status != HalFailed
    ensures status == Success ==> wrapped == Ctr(c.aes, kek, iv, tek + tik)
  {
    wrapped := [];
    var ctx := new CtrCtx();
    status := ctx.Init(iv, kek, Encrypt);
    var first;
    status, first := ctx.Update(c.aes, tek, 2 * SECRET_SIZE);
    if status != Success {
      return;
    }
    var second;
    status, second := ctx.Final(c.aes, tik, SECRET_SIZE);
    if status != Success {
      return;
    }
    CtrSplit(c.aes, kek, iv, tek, tik, 1);
    wrapped := first + second;
  }

  method CreateSession(c: Suite, policy: seq<uint8>, ch: Channel, iv: seq<uint8>)
    returns (status: Status, session: Session)
    requires SuiteOk(c) && |policy| == 4
    requires |ch.masterSecret| == SECRET_SIZE && |ch.tek| == SECRET_SIZE && |ch.tik| == SECRET_SIZE
    ensures status == Success || status == HalFailed
    ensures c.Reliable() ==> status != HalFailed
    ensures status == Success ==> SessionOf(c, ch, iv, policy, session)
  {
    session := Session([], [], [], [], []);
    var ok := Attempt(c.reliable);
    if !ok {
      return HalFailed, session;
    }
    var kek, kik, wrapTk, wrapMac, policyMac;
    status, kek := DeriveKey(c.sha, ch.masterSecret, SEV_KEK_LABEL, []);
    if status != Success {
      return;
    }
    status, kik := DeriveKey(c.sha, ch.masterSecret, SEV_KIK_LABEL, []);
    if status != Success {
      return;
    }
    status, wrapTk := WrapKeys(c, kek, iv, ch.tek, ch.tik);
    if status != Success {
      return;
    }
    status, wrapMac := HmacSha256(c.sha, wrapTk, kik);
    if status != Success {
      return;
    }
    status, policyMac := HmacSha256(c.sha, policy, ch.tik);
    if status != Success {
      return;
    }
    session := Session(ch.nonce, wrapTk, iv, wrapMac, policyMac);
  }

  /** Opens the client end with fresh random keys, nonce and counter. */
  method OpenClient(c: Suite, policy: seq<uint8>, keypair: KeyPair, cert: Cert, tek: seq<uint8>, tik: seq<uint8>,
                    nonce: seq<uint8>, iv: seq<uint8>)
    returns (status: Status, session: Session, channel: Channel)
    requires SuiteOk(c) && |policy| == 4
    requires |tek| == SECRET_SIZE && |tik| == SECRET_SIZE && |nonce| == SECRET_SIZE
    ensures !keypair.usable || !cert.sane ==> status == InvalidCertificate
    ensures keypair.usable && cert.sane ==> status == Success || status == HalFailed
    ensures c.Reliable() ==> status != HalFailed
    ensures status == Success ==>
      channel == Channel(MasterOf(c, keypair.private, cert.public, nonce), tek, tik, nonce)
    ensures status == Success ==> SessionOf(c, channel, iv, policy, session)
  {
    session, channel := Session([], [], [], [], []), Channel([], [], [], []);
    if !keypair.usable || !cert.sane {
      status := InvalidCertificate;
      return;
    }
    var ok := Attempt(c.reliable);
    if !ok {
      status := HalFailed;
      return;
    }
    var master;
    status, master := DeriveMasterSecret(c, keypair.private, cert.public, nonce);
    if status != Success {
      return;
    }
    var temp := Channel(master, tek, tik, nonce);
    status, session := CreateSession(c, policy, temp, iv);
    if status != Success {
      return;
    }
    channel := temp;
  }

  /** What the server takes from a session: the master secret, and the unwrapped keys. */
  ghost predicate ChannelFrom(c: Suite, master: seq<uint8>, s: Session, ch: Channel)
    requires SuiteOk(c) && |master| == SECRET_SIZE && |s.wrapTk| == 2 * SECRET_SIZE
  {
    var keys := Ctr(c.aes, Derived(c.sha, master, SEV_KEK_LABEL, []), s.wrapIv, s.wrapTk);
    ch == Channel(master, keys[..SECRET_SIZE], keys[SECRET_SIZE..], s.nonce)
  }

  ghost predicate MacValid(c: Suite, master: seq<uint8>, s: Session)
    requires SuiteOk(c) && |master| == SECRET_SIZE
  {
    s.wrapMac == HmacOf(c.sha, Derived(c.sha, master, SEV_KIK_LABEL, []), s.wrapTk)
  }

  method EstablishChannel(c: Suite, secret: seq<uint8>, session: Session) returns (status: Status, channel: Channel)
    requires SuiteOk(c) && |secret| == SECRET_SIZE
    requires |session.wrapTk| == 2 * SECRET_SIZE && |session.wrapMac| == HMAC_SIZE
    ensures status == Success || status == HalFailed || status == BadMeasurement
    ensures c.Reliable() ==> status != HalFailed
    ensures status == Success ==> MacValid(c, secret, session) && ChannelFrom(c, secret, session, channel)
    ensures status == BadMeasurement ==> !MacValid(c, secret, session)
  {
    channel := Channel([], [], [], []);
    var kek, kik;
    status, kek := DeriveKey(c.sha, secret, SEV_KEK_LABEL, []);
    if status != Success {
      return;
    }
    status, kik := DeriveKey(c.sha, secret, SEV_KIK_LABEL, []);
    if status != Success {
      return;
    }
    status := VerifyMsg(c.sha, session.wrapTk, kik, session.wrapMac);
    if status != Success {
      return;
    }
    var ctx := new CtrCtx();
    status := ctx.Init(session.wrapIv, kek, Decrypt);
    var keys;
    status, keys := ctx.Final(c.aes, session.wrapTk, 2 * SECRET_SIZE);
    if status != Success {
      return;
    }
    channel := Channel(secret, keys[..SECRET_SIZE], keys[SECRET_SIZE..], session.nonce);
  }

  /** Opens the server end. It fails for a bad session exactly when the code of the wrapped keys is wrong. */
  method OpenServer(c: Suite, keypair: KeyPair, cert: Cert, session: Session)
    returns (status: Status, channel: Channel)
    requires SuiteOk(c) && |session.wrapTk| == 2 * SECRET_SIZE && |session.wrapMac| == HMAC_SIZE
    ensures !keypair.usable || !cert.sane ==> status == InvalidCertificate
    ensures keypair.usable && cert.sane ==>
      status == Success || status == HalFailed || status == BadMeasurement
    ensures c.Reliable() ==> status != HalFailed
    ensures status == Success ==>
      && MacValid(c, MasterOf(c, keypair.private, cert.public, session.nonce), session)
      && ChannelFrom(c, MasterOf(c, keypair.private, cert.public, session.nonce), session, channel)
    ensures status == BadMeasurement ==>
      !MacValid(c, MasterOf(c, keypair.private, cert.public, session.nonce), session)
  {
    channel := Channel([], [], [], []);
    if !keypair.usable || !cert.sane {
      return InvalidCertificate, channel;
    }
    var master;
    status, master := DeriveMasterSecret(c, keypair.private, cert.public, session.nonce);
    if status != Success {
      return;
    }
    status, channel := EstablishChannel(c, master, session);
  }

  /** The two private keys agree with each other's public keys. */
  ghost predicate Commutes(c: Suite, client: KeyPair, server: KeyPair) {
    c.agree(client.private, server.public) == c.agree(server.private, client.public)
  }

  /** The server that gets the client's session unmodified accepts it, and both ends hold the same channel. */
  method OpenBothEnds(c: Suite, policy: seq<uint8>, client: KeyPair, server: KeyPair, tek: seq<uint8>,
                      tik: seq<uint8>, nonce: seq<uint8>, iv: seq<uint8>)
    returns (clientStatus: Status, serverStatus: Status, atClient: Channel, atServer: Channel)
    requires SuiteOk(c) && |policy| == 4 && Commutes(c, client, server) && client.usable && server.usable
    requires |tek| == SECRET_SIZE && |tik| == SECRET_SIZE && |nonce| == SECRET_SIZE
    ensures clientStatus == Success ==> serverStatus == Success || serverStatus == HalFailed
    ensures c.Reliable() ==> clientStatus == serverStatus == Success
    ensures clientStatus == Success && serverStatus == Success ==> atServer == atClient
    ensures clientStatus == Success ==> atClient.tek == tek && atClient.tik == tik && atClient.nonce == nonce
  {
    serverStatus, atServer := HalFailed, Channel([], [], [], []);
    var session;
    clientStatus, session, atClient := OpenClient(c, policy, client, Cert(true, server.public), tek, tik, nonce, iv);
    if clientStatus != Success {
      return;
    }
    SessionSizes(c, atClient, iv, policy, session);
    serverStatus, atServer := OpenServer(c, server, Cert(true, client.public), session);
    SameChannel(c, atClient, iv, policy, session);
  }

  lemma SessionSizes(c: Suite, ch: Channel, iv: seq<uint8>, policy: seq<uint8>, s: Session)
    requires SuiteOk(c) && |ch.masterSecret| == SECRET_SIZE && |ch.tek| == SECRET_SIZE && |ch.tik| == SECRET_SIZE
    requires SessionOf(c, ch, iv, policy, s)
    ensures |s.wrapTk| == 2 * SECRET_SIZE && |s.wrapMac| == HMAC_SIZE
  {
    HashSize(c.sha, Derived(c.sha, ch.masterSecret, SEV_KIK_LABEL, []), s.wrapTk);
  }

  /** The session of a channel has a valid code, and unwraps to that channel. */
  lemma SameChannel(c: Suite, ch: Channel, iv: seq<uint8>, policy: seq<uint8>, s: Session)
    requires SuiteOk(c) && |ch.masterSecret| == SECRET_SIZE && |ch.tek| == SECRET_SIZE && |ch.tik| == SECRET_SIZE
    requires SessionOf(c, ch, iv, policy, s)
    ensures MacValid(c, ch.masterSecret, s) && |s.wrapTk| == 2 * SECRET_SIZE
    ensures forall other :: ChannelFrom(c, ch.masterSecret, s, other) <==> other == ch
  {
    var keys := ch.tek + ch.tik;
    CtrTwice(c.aes, Derived(c.sha, ch.masterSecret, SEV_KEK_LABEL, []), iv, keys);
    assert keys[..SECRET_SIZE] == ch.tek && keys[SECRET_SIZE..] == ch.tik;
  }
}
