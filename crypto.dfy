/**
 * A symbolic stand-in for the public-key encryption of shadow entries
 * (eth-crypto's encryptWithPublicKey / decryptWithPrivateKey around a
 * JSON-serialised BigInt). A ciphertext is an opaque term naming the key
 * it was made for; only the matching private key opens it.
 */
module Crypto {
  import opened Wrappers

  type PrivateKey = string

  /** `EthCrypto.publicKeyByPrivateKey`, taken as one-to-one. */
  datatype PublicKey = PublicKeyOf(privateKey: PrivateKey)

  /** A stored shadow entry: the empty string, or a ciphertext of a number. */
  datatype Blob = Empty | Sealed(to: PublicKey, plaintext: int)

  function Encrypt(pk: PublicKey, x: int): Blob
  {
    Sealed(pk, x)
  }

  /** Throws (None) on the empty string or on a ciphertext for another key. */
  function Decrypt(sk: PrivateKey, c: Blob): Option<int>
  {
    if c.Sealed? && c.to == PublicKeyOf(sk) then Some(c.plaintext) else None
  }

  /** The one fact the helpers rely on: Dec(k, Enc(k, x)) = x. */
  lemma DecryptEncrypt(sk: PrivateKey, x: int)
    ensures Decrypt(sk, Encrypt(PublicKeyOf(sk), x)) == Some(x)
  {
  }

  /** A ciphertext opens only under the private key of the public key it was made for. */
  lemma DecryptOnlyByRecipient(sk: PrivateKey, pk: PublicKey, x: int)
    ensures Decrypt(sk, Encrypt(pk, x)).Some? <==> pk == PublicKeyOf(sk)
  {
  }
}
