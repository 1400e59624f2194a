/** The cipher as the server uses it: a key that is set from text, and messages laid out as nonce, ciphertext and
    tag. */
module AesCrypto {
  import opened Basics
  import opened Wire
  import opened SecureWire
  import opened AesKey
  import opened Memory

  lemma NextPart(buffer: Bytes, front: Bytes, part: Bytes)
    requires |front| + |part| <= |buffer| && buffer[..|front|] == front
    ensures Overwrite(buffer, |front|, part)[..|front| + |part|] == front + part
  {
  }

  class AESCrypto {
    const cipher: Cipher
    var keyBytes: Bytes
    var initialized: bool

    ghost predicate Valid()
      reads this
    {
      Sound(cipher) && (initialized ==> |keyBytes| == 32)
    }

    constructor (cipher: Cipher)
      requires Sound(cipher)
      ensures Valid() && !initialized && keyBytes == [] && this.cipher == cipher
    {
      this.cipher := cipher;
      keyBytes, initialized := [], false;
    }

    /** A key is accepted exactly when its text has 64 characters, whatever they are. A key set before is dropped
        either way. */
    method Initialize(hexKey: string) returns (ok: bool)
      requires Valid()
      modifies this
      ensures Valid()
      ensures ok <==> |hexKey| == 64
      ensures initialized == ok
      ensures ok ==> keyBytes == BytesOfHex(hexKey)
      ensures !ok ==> keyBytes == if old(initialized) then [] else old(keyBytes)
    {
      if initialized {
        Cleanup();
      }
      if |hexKey| != 64 {
        return false;
      }
      keyBytes := HexToBytes(hexKey);
      BytesOfHexLength(hexKey);
      if |keyBytes| != 32 {
        return false;
      }
      initialized := true;
      return true;
    }

    method Cleanup()
      requires Valid()
      modifies this
      ensures Valid() && !initialized && keyBytes == []
    {
      keyBytes := [];
      initialized := false;
    }

    /** Nothing without a key; otherwise 28 bytes more than the data. */
    method Encrypt(data: Bytes, nonce: Bytes) returns (encrypted: Bytes)
      requires Valid() && |nonce| == NONCE_SIZE
      ensures encrypted == if initialized then Sealed(cipher, keyBytes, nonce, data) else []
      ensures initialized ==> |encrypted| == |data| + 28
    {
      if !initialized {
        return [];
      }
      assert SealsWell(cipher, keyBytes, nonce, data);
      var (ciphertext, tag) := cipher.seal(keyBytes, nonce, data);
      var result := new Byte[NONCE_SIZE + |ciphertext| + TAG_SIZE](_ => 0);
      Copy(result, 0, nonce);
      assert result[..][..NONCE_SIZE] == nonce;
      NextPart(result[..], nonce, ciphertext);
      Copy(result, NONCE_SIZE, ciphertext);
      NextPart(result[..], nonce + ciphertext, tag);
      Copy(result, NONCE_SIZE + |ciphertext|, tag);
      return result[..];
    }

    /** Nothing without a key, for too little data or for a wrong tag. */
    method Decrypt(data: Bytes) returns (plain: Bytes)
      ensures plain == if !initialized then []
                       else match Opened(cipher, keyBytes, data) case None => [] case Some(p) => p
    {
      if !initialized {
        return [];
      }
      var n := |data|;
      if n < 28 {
        return [];
      }
      var nonce := data[..12];
      var tag := data[n - 16..];
      var ciphertextLen := n - 28;
      assert data[12..12 + ciphertextLen] == data[NONCE_SIZE..n - TAG_SIZE];
      var unsealed := cipher.open(keyBytes, nonce, data[12..12 + ciphertextLen], tag);
      if unsealed == None {
        return [];
      }
      return unsealed.value;
    }
  }
}
