/**
 The hybrid ML-KEM and X25519 handshake of `crypto/mod.rs` and the AES-GCM framing.
 The primitives are unseen libraries: they are the function fields of a `Suite`, and
 `Lawful` says what every proof assumes of them.
 */
module KeyExchange {
  import opened Prelude
  import opened KeyDerivation

  const KYBER_PK_LEN := 1568
  const KYBER_CT_LEN := 1568
  const GCM_NONCE_LEN := 12

  datatype ExtendCircuit = ExtendCircuit(targetId: string, kyberPk: Bytes, x25519Pk: Bytes, nonce: Bytes)
  datatype ExtendedCircuit = ExtendedCircuit(responderId: string, kyberCt: Bytes, x25519Pk: Bytes)

  datatype RelayCommand =
    | Extend(extend: ExtendCircuit)
    | Extended(extended: ExtendedCircuit)
    | AttestationRequest
    | AttestationResponse(vmIdentity: string, quote: Bytes)
    | ChainSubmission(chain: Bytes)
    | VerificationResult(result: Bytes)
    | Chain2Submission(chain2: Bytes)
    | FullAuthorizationResult(full: Bytes)
    | Data(data: Bytes)

  datatype RelayCellPayload = RelayCellPayload(
    command: RelayCommand, nextHop: Option<string>, innerCell: Option<Bytes>)

  /** The library calls: hash, AEAD, KEM, Diffie-Hellman, text encoding, bincode. */
  datatype Suite = Suite(
    sha: Hash,
    seal: (Bytes, Bytes, Bytes) -> Bytes,
    open: (Bytes, Bytes, Bytes) -> Option<Bytes>,
    kemPublic: Bytes -> Bytes,
    encapsulate: (Bytes, Bytes) -> (Bytes, Bytes),
    decapsulate: (Bytes, Bytes) -> Bytes,
    dhPublic: Bytes -> Bytes,
    dh: (Bytes, Bytes) -> Bytes,
    utf8: string -> Bytes,
    serialize: RelayCellPayload -> Bytes,
    deserialize: Bytes -> Option<RelayCellPayload>)
  {
    /**
     Opening undoes sealing, decapsulation undoes encapsulation, Diffie-Hellman commutes,
     deserialising undoes serialising; digests, KEM keys and ciphertexts have fixed sizes.
     */
    ghost predicate Lawful() {
      && Digests32(sha)
      && (forall k: Bytes, n: Bytes, p: Bytes :: open(k, n, seal(k, n, p)) == Some(p))
      && (forall sk: Bytes :: |kemPublic(sk)| == KYBER_PK_LEN)
      && (forall pk: Bytes, coins: Bytes :: |encapsulate(pk, coins).1| == KYBER_CT_LEN)
      && (forall sk: Bytes, coins: Bytes ::
            decapsulate(encapsulate(kemPublic(sk), coins).1, sk) == encapsulate(kemPublic(sk), coins).0)
      && (forall a: Bytes, b: Bytes :: dh(a, dhPublic(b)) == dh(b, dhPublic(a)))
      && (forall p: RelayCellPayload :: deserialize(serialize(p)) == Some(p))
    }
  }

  /** `OsRng`: any bytes of the length asked for. */
  method RandomBytes(n: nat) returns (b: Bytes)
    ensures |b| == n
  {
    assert |Fill(0, n)| == n;
    b :| |b| == n;
  }

  // --- AES-GCM framing: the nonce travels in front of the ciphertext ---

  function Decrypt(s: Suite, key: Bytes, ciphertext: Bytes): Result<Bytes> {
    if |ciphertext| < GCM_NONCE_LEN then Err
    else match s.open(key, ciphertext[..GCM_NONCE_LEN], ciphertext[GCM_NONCE_LEN..])
      case None => Err
      case Some(p) => Ok(p)
  }

  method Encrypt(s: Suite, key: Bytes, plaintext: Bytes) returns (ciphertext: Bytes)
    requires s.Lawful()
    ensures Decrypt(s, key, ciphertext) == Ok(plaintext)
    ensures |ciphertext| >= 12 && ciphertext[12..] == s.seal(key, ciphertext[..12], plaintext)
  {
    var nonce := RandomBytes(GCM_NONCE_LEN);
    ciphertext := nonce + s.seal(key, nonce, plaintext);
    assert ciphertext[..GCM_NONCE_LEN] == nonce;
    assert ciphertext[GCM_NONCE_LEN..] == s.seal(key, nonce, plaintext);
  }

  // --- handshake ---

  function Transcript(s: Suite, senderId: string, extend: ExtendCircuit, extended: ExtendedCircuit): Bytes {
    s.sha(s.utf8(senderId) + extend.kyberPk + extend.x25519Pk + extend.nonce
          + s.utf8(extended.responderId) + extended.kyberCt + extended.x25519Pk)
  }

  /** The initiator's secrets belong to the public values it sent. */
  ghost predicate Owns(s: Suite, extend: ExtendCircuit, kyberSk: Bytes, x25519Secret: Bytes) {
    extend.kyberPk == s.kemPublic(kyberSk) && extend.x25519Pk == s.dhPublic(x25519Secret)
  }

  /** What `complete_key_exchange` computes on the initiator's side. */
  ghost function Completed(s: Suite, senderId: string, extend: ExtendCircuit, extended: ExtendedCircuit,
                           kyberSk: Bytes, x25519Secret: Bytes): Result<Bytes>
    requires s.Lawful()
  {
    if |extended.kyberCt| != KYBER_CT_LEN then Err
    else Ok(SessionKey(s.sha, s.decapsulate(extended.kyberCt, kyberSk), s.dh(x25519Secret, extended.x25519Pk),
                       extend.nonce, Transcript(s, senderId, extend, extended)))
  }

  /** Whoever owns the secrets behind `extend` completes the handshake with exactly `key`. */
  ghost predicate Agrees(s: Suite, senderId: string, extend: ExtendCircuit, extended: ExtendedCircuit, key: Bytes)
    requires s.Lawful()
  {
    forall sk: Bytes, x: Bytes :: Owns(s, extend, sk, x) ==>
      Completed(s, senderId, extend, extended, sk, x) == Ok(key)
  }

  /** The key is derived, from some secrets, over this handshake. */
  ghost predicate Derived(s: Suite, senderId: string, extend: ExtendCircuit, extended: ExtendedCircuit, key: Bytes)
    requires s.Lawful()
  {
    exists ks: Bytes, xs: Bytes ::
      key == SessionKey(s.sha, ks, xs, extend.nonce, Transcript(s, senderId, extend, extended))
  }

  /** `generate_key_exchange_init`. */
  method GenerateInit(s: Suite, targetId: string)
    returns (extend: ExtendCircuit, kyberSk: Bytes, x25519Secret: Bytes)
    requires s.Lawful()
    ensures Owns(s, extend, kyberSk, x25519Secret)
    ensures extend.targetId == targetId && |extend.kyberPk| == KYBER_PK_LEN && |extend.nonce| == 32
  {
    kyberSk := RandomBytes(3168);
    x25519Secret := RandomBytes(32);
    var nonce := RandomBytes(32);
    extend := ExtendCircuit(targetId, s.kemPublic(kyberSk), s.dhPublic(x25519Secret), nonce);
  }

  /**
   `generate_key_exchange_response`: the responder's key is the one the initiator will
   compute, whichever secrets the initiator holds. Only a public key of the wrong size fails.
   */
  method GenerateResponse(s: Suite, senderId: string, responderId: string, extend: ExtendCircuit)
    returns (r: Result<(ExtendedCircuit, Bytes)>)
    requires s.Lawful()
    ensures r.Ok? <==> |extend.kyberPk| == 1568
    ensures r.Ok? ==> r.value.0.responderId == responderId && |r.value.1| == 32 && |r.value.0.kyberCt| == 1568
    ensures r.Ok? ==> Agrees(s, senderId, extend, r.value.0, r.value.1)
    ensures r.Ok? ==> Derived(s, senderId, extend, r.value.0, r.value.1)
  {
    if |extend.kyberPk| != KYBER_PK_LEN {
      return Err;
    }
    var coins := RandomBytes(32);
    var (shared, ct) := s.encapsulate(extend.kyberPk, coins);
    var x := RandomBytes(32);
    var extended := ExtendedCircuit(responderId, ct, s.dhPublic(x));
    var key := DeriveSessionKey(s.sha, shared, s.dh(x, extend.x25519Pk), extend.nonce,
                                Transcript(s, senderId, extend, extended));
    forall sk: Bytes, y: Bytes | Owns(s, extend, sk, y)
      ensures Completed(s, senderId, extend, extended, sk, y) == Ok(key)
    {
      assert s.decapsulate(s.encapsulate(s.kemPublic(sk), coins).1, sk) == shared;
      assert s.dh(y, s.dhPublic(x)) == s.dh(x, s.dhPublic(y));
    }
    r := Ok((extended, key));
  }

  /** `complete_key_exchange`. */
  method CompleteKeyExchange(s: Suite, senderId: string, extend: ExtendCircuit, extended: ExtendedCircuit,
                             kyberSk: Bytes, x25519Secret: Bytes) returns (r: Result<Bytes>)
    requires s.Lawful()
    ensures r == Completed(s, senderId, extend, extended, kyberSk, x25519Secret)
    ensures r.Ok? <==> |extended.kyberCt| == 1568
    ensures r.Ok? ==>
              var secrets := s.decapsulate(extended.kyberCt, kyberSk) + s.dh(x25519Secret, extended.x25519Pk);
              var messages := s.utf8(senderId) + extend.kyberPk + extend.x25519Pk + extend.nonce
                              + s.utf8(extended.responderId) + extended.kyberCt + extended.x25519Pk;
              r.value == Hkdf(s.sha, extend.nonce, secrets, SESSION_LABEL + s.sha(messages), 32)
  {
    if |extended.kyberCt| != KYBER_CT_LEN {
      return Err;
    }
    var key := DeriveSessionKey(s.sha, s.decapsulate(extended.kyberCt, kyberSk),
                                s.dh(x25519Secret, extended.x25519Pk), extend.nonce,
                                Transcript(s, senderId, extend, extended));
    r := Ok(key);
  }

  // --- the key is bound to the whole handshake ---

  /** The sizes of the fields, all fixed but the responder's name. */
  predicate Sized(extend: ExtendCircuit, extended: ExtendedCircuit) {
    && |extend.kyberPk| == 1568 && |extend.x25519Pk| == 32 && |extend.nonce| == 32
    && |extended.kyberCt| == 1568 && |extended.x25519Pk| == 32
  }

  /** Both messages carry the same bytes. */
  predicate SameHandshake(s: Suite, a: ExtendCircuit, b: ExtendedCircuit, a': ExtendCircuit, b': ExtendedCircuit) {
    && a.kyberPk == a'.kyberPk && a.x25519Pk == a'.x25519Pk && a.nonce == a'.nonce
    && s.utf8(b.responderId) == s.utf8(b'.responderId)
    && b.kyberCt == b'.kyberCt && b.x25519Pk == b'.x25519Pk
  }

  function Messages(s: Suite, senderId: string, a: ExtendCircuit, b: ExtendedCircuit): Bytes {
    s.utf8(senderId) + a.kyberPk + a.x25519Pk + a.nonce + s.utf8(b.responderId) + b.kyberCt + b.x25519Pk
  }

  lemma MessagesParse(s: Suite, senderId: string, a: ExtendCircuit, b: ExtendedCircuit)
    requires Sized(a, b)
    ensures var m, n := Messages(s, senderId, a, b), |s.utf8(senderId)|;
            && |m| == n + 3232 + |s.utf8(b.responderId)|
            && a.kyberPk == m[n..n + 1568] && a.x25519Pk == m[n + 1568..n + 1600] && a.nonce == m[n + 1600..n + 1632]
            && s.utf8(b.responderId) == m[n + 1632..|m| - 1600]
            && b.kyberCt == m[|m| - 1600..|m| - 32] && b.x25519Pk == m[|m| - 32..]
  {
  }

  /** Two transcripts of one sender are equal only for one handshake, or they show a collision. */
  lemma TranscriptBinds(s: Suite, senderId: string, a: ExtendCircuit, b: ExtendedCircuit,
                        a': ExtendCircuit, b': ExtendedCircuit) returns (x: Bytes, y: Bytes)
    requires Sized(a, b) && Sized(a', b')
    requires Transcript(s, senderId, a, b) == Transcript(s, senderId, a', b')
    ensures SameHandshake(s, a, b, a', b') || Collides(s.sha, x, y)
  {
    x, y := Messages(s, senderId, a, b), Messages(s, senderId, a', b');
    if x == y {
      MessagesParse(s, senderId, a, b);
      MessagesParse(s, senderId, a', b');
    }
  }

  /**
   An initiator that completes with the responder's key saw the responder's messages, and the
   responder saw its own, or the hash has a collision.
   */
  lemma KeyBindsHandshake(s: Suite, senderId: string, extend: ExtendCircuit, extended: ExtendedCircuit,
                          kyberSk: Bytes, x25519Secret: Bytes, extend': ExtendCircuit, extended': ExtendedCircuit,
                          key: Bytes) returns (x: Bytes, y: Bytes)
    requires s.Lawful() && Sized(extend, extended) && Sized(extend', extended')
    requires Completed(s, senderId, extend, extended, kyberSk, x25519Secret) == Ok(key)
    requires Derived(s, senderId, extend', extended', key)
    ensures SameHandshake(s, extend, extended, extend', extended') || Collides(s.sha, x, y)
  {
    var ks: Bytes, xs: Bytes :|
      key == SessionKey(s.sha, ks, xs, extend'.nonce, Transcript(s, senderId, extend', extended'));
    x, y := SessionKeyBinds(
      s.sha, s.decapsulate(extended.kyberCt, kyberSk), s.dh(x25519Secret, extended.x25519Pk), extend.nonce,
      Transcript(s, senderId, extend, extended), ks, xs, extend'.nonce, Transcript(s, senderId, extend', extended'));
    if !Collides(s.sha, x, y) {
      x, y := TranscriptBinds(s, senderId, extend, extended, extend', extended');
    }
  }
}
