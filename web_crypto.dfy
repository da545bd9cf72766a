/** The WebCrypto calls the cipher makes, as an abstract provider. PBKDF2 and
    AES-GCM are not modelled internally: the provider is any triple of
    functions, and `Sound` states the only facts the cipher relies on. */
module WebCrypto {
  import opened Wrappers
  import opened Pixels

  /** AES-256: a 256-bit key. */
  const KEY_BYTES: nat := 32
  /** The AES-GCM nonce drawn by `crypto.getRandomValues(new Uint8Array(12))`. */
  const NONCE_BYTES: nat := 12
  /** WebCrypto's default AES-GCM tag length, 128 bits, appended to the ciphertext. */
  const TAG_BYTES: nat := 16
  /** The fixed PBKDF2 salt 1, 2, ..., 9, 0. */
  const SALT: seq<byte> := [1, 2, 3, 4, 5, 6, 7, 8, 9, 0]
  /** The fixed PBKDF2 iteration count. */
  const ITERATIONS: nat := 100000

  type Key = k: seq<byte> | |k| == KEY_BYTES witness seq(KEY_BYTES, _ => 0)

  type Nonce = n: seq<byte> | |n| == NONCE_BYTES witness seq(NONCE_BYTES, _ => 0)

  /** The host's `crypto.subtle`:
      - `deriveKey(password, salt, iterations)`: importKey of the UTF-8
        encoded password followed by PBKDF2-HMAC-SHA256 deriveKey to an
        AES-GCM key of 256 bits;
      - `encrypt(key, iv, plaintext)`: AES-GCM encryption, `None` when it throws;
      - `decrypt(key, iv, ciphertext)`: AES-GCM decryption, `None` when it
        throws (a tag that does not authenticate). */
  datatype Crypto = Crypto(
    deriveKey: (string, seq<byte>, nat) -> Key,
    encrypt: (Key, Nonce, seq<byte>) -> Option<seq<byte>>,
    decrypt: (Key, Nonce, seq<byte>) -> Option<seq<byte>>)

  /** What AES-GCM guarantees and the cipher relies on: a successful
      encryption is 16 bytes longer than its plaintext, and decrypting it
      under the same key and nonce gives the plaintext back. Decryption of
      anything else may succeed or fail with any result. */
  ghost predicate Sound(crypto: Crypto) {
    forall key: Key, iv: Nonce, plaintext: seq<byte> ::
      crypto.encrypt(key, iv, plaintext).Some? ==>
        |crypto.encrypt(key, iv, plaintext).value| == |plaintext| + TAG_BYTES &&
        crypto.decrypt(key, iv, crypto.encrypt(key, iv, plaintext).value) == Some(plaintext)
  }

  /** `generateKey(password)`: the salt and the iteration count are
      constants, so the key is a function of the password alone. */
  function GenerateKey(crypto: Crypto, password: string): (key: Key)
    ensures key == crypto.deriveKey(password, [1, 2, 3, 4, 5, 6, 7, 8, 9, 0], 100000)
  {
    crypto.deriveKey(password, SALT, ITERATIONS)
  }
}
