/**
 * `encryptForPeer` and `decryptFromPeer`: the directory guard around
 * key agreement and AES-GCM. Key import, ECDH derivation and the cipher
 * itself are platform calls; an `Env` carries them as functions, and the
 * laws they must obey are stated as predicates that the lemmas require.
 */
module Cipher {
  import opened Wrappers
  import opened Binary
  import opened Directory

  /**
   * AES-256-GCM with the TextEncoder/TextDecoder steps folded in:
   * `seal(key, iv, text)` is the ciphertext with its tag; `open` is
   * `None` when the tag does not authenticate.
   */
  datatype Aead = Aead(
    seal: (seq<byte>, seq<byte>, string) -> seq<byte>,
    open: (seq<byte>, seq<byte>, seq<byte>) -> Option<string>)

  /** Decryption under the encryption's key and IV gives back the plaintext. */
  ghost predicate Opens(aead: Aead) {
    forall key, iv, text :: aead.open(key, iv, aead.seal(key, iv, text)) == Some(text)
  }

  /** A client's ECDH private key, as the bytes the platform keeps for it. */
  type PrivateKey = seq<byte>

  /**
   * One client's cryptographic environment: the platform calls it makes
   * and `privateKeyRef.current`, which stays null until the key pair has
   * been generated. `imports(raw)` says whether `importKey` accepts a raw
   * P-256 public key; `derive(priv, raw)` is the AES key that ECDH with
   * the private key and the imported peer key yields.
   */
  datatype Env = Env(
    codec: Base64, aead: Aead,
    imports: seq<byte> -> bool,
    derive: (PrivateKey, seq<byte>) -> seq<byte>,
    privateKey: Option<PrivateKey>)

  /** Why a crypto helper throws. */
  datatype CryptoError =
    | NoPubkey      // 'peer has no pubkey': the peer is absent or its key is null or empty
    | BadBase64     // atob rejected a field
    | BadPeerKey    // importKey rejected the peer's public key
    | NoPrivateKey  // deriveKey was handed a null private key
    | AuthFailure   // AES-GCM tag check failed

  /** `{ iv, ct }`, both base64. */
  datatype Sealed = Sealed(iv: string, ct: string)

  /**
   * `deriveAesKey`: base64-decode the peer's key, import it, then derive
   * the AES key from it and the own private key, failing at the first
   * step that throws.
   */
  function DeriveAesKey(env: Env, pubB64: string): (r: Result<seq<byte>, CryptoError>)
    ensures r == Err(BadBase64) <==> Decoded(env.codec, pubB64).None?
    ensures r == Err(BadPeerKey) <==> Decoded(env.codec, pubB64).Some? && !env.imports(Decoded(env.codec, pubB64).value)
    ensures r == Err(NoPrivateKey) <==>
      Decoded(env.codec, pubB64).Some? && env.imports(Decoded(env.codec, pubB64).value) && env.privateKey.None?
    ensures r.Ok? ==> env.privateKey.Some? && r.value == env.derive(env.privateKey.value, Decoded(env.codec, pubB64).value)
  {
    match Decoded(env.codec, pubB64)
    case None => Err(BadBase64)
    case Some(raw) =>
      if !env.imports(raw) then Err(BadPeerKey)
      else
        match env.privateKey
        case None => Err(NoPrivateKey)
        case Some(priv) => Ok(env.derive(priv, raw))
  }

  /** Encryption for `id` can succeed: the guard passes and its key derives. */
  predicate CanEncrypt(env: Env, dir: PeerMap, id: string) {
    Keyed(dir, id) && DeriveAesKey(env, dir[id].pubkey.value).Ok?
  }

  /**
   * `encryptForPeer(peerId, plaintext)`; `iv` stands for the twelve bytes
   * `getRandomValues` returns.
   */
  function EncryptForPeer(env: Env, dir: PeerMap, peerId: string, plaintext: string, iv: seq<byte>): (r: Result<Sealed, CryptoError>)
    ensures r == Err(NoPubkey) <==> !Keyed(dir, peerId)
    ensures r.Ok? <==> CanEncrypt(env, dir, peerId)
    ensures r.Ok? ==> r.value.iv == Ab2b64(env.codec, iv)
    ensures r.Ok? ==> r.value.ct == Ab2b64(env.codec, env.aead.seal(DeriveAesKey(env, dir[peerId].pubkey.value).value, iv, plaintext))
  {
    if !Keyed(dir, peerId) then Err(NoPubkey)
    else
      match DeriveAesKey(env, dir[peerId].pubkey.value)
      case Err(e) => Err(e)
      case Ok(key) => Ok(Sealed(Ab2b64(env.codec, iv), Ab2b64(env.codec, env.aead.seal(key, iv, plaintext))))
  }

  /** `decryptFromPeer(fromId, ivB64, ctB64)`. */
  function DecryptFromPeer(env: Env, dir: PeerMap, fromId: string, ivB64: string, ctB64: string): (r: Result<string, CryptoError>)
    ensures r == Err(NoPubkey) <==> !Keyed(dir, fromId)
    ensures r.Ok? <==>
      && Keyed(dir, fromId)
      && DeriveAesKey(env, dir[fromId].pubkey.value).Ok?
      && Decoded(env.codec, ivB64).Some? && Decoded(env.codec, ctB64).Some?
      && env.aead.open(DeriveAesKey(env, dir[fromId].pubkey.value).value, Decoded(env.codec, ivB64).value, Decoded(env.codec, ctB64).value).Some?
    ensures r.Ok? ==>
      env.aead.open(DeriveAesKey(env, dir[fromId].pubkey.value).value, Decoded(env.codec, ivB64).value, Decoded(env.codec, ctB64).value) == Some(r.value)
  {
    if !Keyed(dir, fromId) then Err(NoPubkey)
    else
      match DeriveAesKey(env, dir[fromId].pubkey.value)
      case Err(e) => Err(e)
      case Ok(key) =>
        match (Decoded(env.codec, ivB64), Decoded(env.codec, ctB64))
        case (Some(iv), Some(ct)) =>
          (match env.aead.open(key, iv, ct)
           case None => Err(AuthFailure)
           case Some(text) => Ok(text))
        case _ => Err(BadBase64)
  }

  /**
   * End to end: what a sender's `encryptForPeer` produces for a receiver,
   * the receiver's `decryptFromPeer` turns back into the plaintext, when
   * both use the same base64 and AES-GCM, each holds the other's key, and
   * ECDH gives both the same AES key.
   */
  lemma DecryptInvertsEncrypt(
    sender: Env, receiver: Env, senderDir: PeerMap, receiverDir: PeerMap, senderId: string, receiverId: string,
    plaintext: string, iv: seq<byte>)
    requires RoundTrips(sender.codec) && Opens(sender.aead)
    requires receiver.codec == sender.codec && receiver.aead == sender.aead
    requires Keyed(senderDir, receiverId) && Keyed(receiverDir, senderId)
    requires DeriveAesKey(sender, senderDir[receiverId].pubkey.value).Ok?
    requires DeriveAesKey(sender, senderDir[receiverId].pubkey.value) == DeriveAesKey(receiver, receiverDir[senderId].pubkey.value)
    ensures var sealed := EncryptForPeer(sender, senderDir, receiverId, plaintext, iv);
      && sealed.Ok?
      && DecryptFromPeer(receiver, receiverDir, senderId, sealed.value.iv, sealed.value.ct) == Ok(plaintext)
  {
    var key := DeriveAesKey(sender, senderDir[receiverId].pubkey.value).value;
    var ct := sender.aead.seal(key, iv, plaintext);
    DecodedInvertsAb2b64(sender.codec, iv);
    DecodedInvertsAb2b64(sender.codec, ct);
  }
}
