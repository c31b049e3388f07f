/**
 * The Java and Android library behaviour the activity calls but does not define,
 * and the two cipher helpers built on it.
 */
module Library {
  import opened Java
  import opened Ndef

  /**
   * Foreign functions, left uninterpreted: the model holds for every choice of them.
   * A cipher function returns `None` where the library throws.
   */
  datatype Platform = Platform(
    /** `String.getBytes()` in the platform's default charset. */
    encodeText: string -> Bytes,
    /** `new String(byte[])` in the platform's default charset. */
    decodeText: Bytes -> string,
    /** `new SecretKeySpec(key, "AES")`, `Cipher.getInstance("AES")`, ENCRYPT_MODE, `doFinal(plain)`. */
    aesEncrypt: (Bytes, Bytes) -> Option<Bytes>,
    /** The same with DECRYPT_MODE. */
    aesDecrypt: (Bytes, Bytes) -> Option<Bytes>,
    /** `NdefMessage.toByteArray().length`. */
    serializedSize: NdefMessage -> nat)

  /** AES decryption under a key undoes AES encryption under the same key. */
  ghost predicate CipherInverts(lib: Platform) {
    forall key, plain :: lib.aesEncrypt(key, plain).Some? ==>
      lib.aesDecrypt(key, lib.aesEncrypt(key, plain).value) == Some(plain)
  }

  /**
   * `encryptMessage(key, text)`: AES over the default-charset bytes of `text`, keyed by
   * the default-charset bytes of `key`; any exception becomes `null`. What it returns is
   * undone by AES decryption under the same key bytes when the cipher inverts itself.
   */
  function EncryptMessage(lib: Platform, key: string, text: string): (r: Option<Bytes>)
    ensures CipherInverts(lib) && r.Some? ==>
      lib.aesDecrypt(lib.encodeText(key), r.value) == Some(lib.encodeText(text))
  {
    lib.aesEncrypt(lib.encodeText(key), lib.encodeText(text))
  }

  /**
   * `decryptMessage(key, payload)` with `generateKey`: AES decryption of the payload under
   * the default-charset bytes of `key`; `None` where javax.crypto throws. A payload that
   * `encryptMessage` made under the same key decrypts to the text's bytes.
   */
  function DecryptMessage(lib: Platform, key: string, payload: Bytes): (r: Option<Bytes>)
    ensures forall text :: CipherInverts(lib) && EncryptMessage(lib, key, text) == Some(payload) ==>
      r == Some(lib.encodeText(text))
  {
    lib.aesDecrypt(lib.encodeText(key), payload)
  }
}
