/**
 * The vault container of verschluesseln.py: PKCS#7 padding on 16-byte blocks
 * (RFC 5652 section 6.3), AES in CFB-128 mode (NIST SP 800-38A section 6.3)
 * with the block function left uninterpreted, and the file framing
 * salt(16) ++ iv(16) ++ ciphertext with a key derived from (password, salt).
 */
module Vault {
  import opened Common

  const BlockSize: nat := 16

  /** Size of the random salt and of the IV written in front of the ciphertext. */
  const SaltSize: nat := 16
  const IvSize: nat := 16

  /** PBKDF2 parameters used at both key-derivation sites (SHA-256, 32-byte key). */
  const KdfIterations: nat := 100000
  const KeyLength: nat := 32

  type Block = s: seq<byte> | |s| == 16
    witness [0, 0, 0, 0, 0, 0, 0, 0, 0, 0, 0, 0, 0, 0, 0, 0]

  type Key32 = s: seq<byte> | |s| == KeyLength
    witness [0, 0, 0, 0, 0, 0, 0, 0, 0, 0, 0, 0, 0, 0, 0, 0,
             0, 0, 0, 0, 0, 0, 0, 0, 0, 0, 0, 0, 0, 0, 0, 0]

  /** The AES forward block function: (key, input block) to output block. */
  type BlockCipher = (seq<byte>, Block) -> Block

  /**
   * PBKDF2-HMAC-SHA256 with KeyLength bytes of output, as a deterministic
   * function of (password, salt, iteration count); the vault always passes
   * KdfIterations.
   */
  type Kdf = (string, seq<byte>, nat) -> Key32

  datatype CryptoError =
    | InvalidKeySize   // AES refuses a key that is not 16, 24 or 32 bytes
    | InvalidIvSize    // CFB refuses an IV that is not one block long
    | InvalidPadding   // the PKCS#7 unpadder refuses the decrypted bytes
    | DecodeError      // the plaintext is not UTF-8 JSON

  predicate ValidAesKey(key: seq<byte>) {
    |key| == 16 || |key| == 24 || |key| == 32
  }

  /* ---------- PKCS#7 padding ---------- */

  /** PKCS#7 padding: append n bytes of value n, 1 <= n <= 16. */
  function Pad(data: seq<byte>): (p: seq<byte>)
    ensures |p| % BlockSize == 0 && |data| < |p| <= |data| + BlockSize
    ensures p[..|data|] == data
    ensures forall i :: |data| <= i < |p| ==> p[i] as int == |p| - |data|
  {
    var n := BlockSize - |data| % BlockSize;
    data + seq(n, _ => n as byte)
  }

  /** What the unpadder accepts: a whole number of blocks ending in a valid pad. */
  predicate ValidPadding(p: seq<byte>) {
    && |p| > 0
    && |p| % BlockSize == 0
    && 1 <= p[|p| - 1] as int <= BlockSize
    && forall i :: |p| - p[|p| - 1] as int <= i < |p| ==> p[i] == p[|p| - 1]
  }

  /** PKCS#7 unpadding: drop the last n bytes, or fail on a malformed pad. */
  function Unpad(p: seq<byte>): (r: Option<seq<byte>>)
    ensures r.Some? <==> ValidPadding(p)
    ensures r.Some? ==> |r.value| < |p| && r.value == p[..|r.value|]
  {
    if ValidPadding(p) then Some(p[..|p| - p[|p| - 1] as int]) else None
  }

  /** Unpadding inverts padding: Unpad(p) == Some(d) exactly when p == Pad(d). */
  lemma UnpadIsInverseOfPad(p: seq<byte>, d: seq<byte>)
    ensures Unpad(p) == Some(d) <==> p == Pad(d)
  {
    if p == Pad(d) {
      UnpadOfPad(d);
    }
    if Unpad(p) == Some(d) {
      PadOfUnpad(p, d);
    }
  }

  lemma UnpadOfPad(d: seq<byte>)
    ensures Unpad(Pad(d)) == Some(d)
  {
    var p := Pad(d);
    var n := |p| - |d|;
    assert p[|p| - 1] as int == n;
    assert p[..|p| - n] == d;
  }

  lemma PadOfUnpad(p: seq<byte>, d: seq<byte>)
    requires Unpad(p) == Some(d)
    ensures p == Pad(d)
  {
    var n := p[|p| - 1] as int;
    assert d == p[..|p| - n];
    var q := |p| / BlockSize;
    assert |p| == BlockSize * q;
    assert |d| == BlockSize * (q - 1) + (BlockSize - n);
    assert |d| % BlockSize == (BlockSize - n) % BlockSize by {
      ModOfMultiplePlus(q - 1, BlockSize - n);
    }
    assert BlockSize - |d| % BlockSize == n;
    assert Pad(d) == d + seq(n, _ => n as byte);
    assert p == d + p[|p| - n..];
    assert p[|p| - n..] == seq(n, _ => n as byte);
  }

  lemma ModOfMultiplePlus(q: int, r: int)
    requires q >= 0 && 0 <= r < 16
    ensures (16 * q + r) % 16 == r % 16
  {
  }

  /* ---------- CFB-128 ---------- */

  function Xor(a: seq<byte>, b: seq<byte>): (r: seq<byte>)
    requires |a| <= |b|
    ensures |r| == |a|
    ensures forall i :: 0 <= i < |a| ==> r[i] == a[i] ^ b[i]
  {
    seq(|a|, i requires 0 <= i < |a| => a[i] ^ b[i])
  }

  /**
   * CFB-128 encryption: each segment of plaintext is XORed with the block
   * function of the previous ciphertext block (the IV for the first); a short
   * final segment uses a prefix of the keystream block.
   */
  function CfbEncrypt(aes: BlockCipher, key: seq<byte>, register: Block, p: seq<byte>): (c: seq<byte>)
    ensures |c| == |p|
    decreases |p|
  {
    if |p| == 0 then []
    else
      var stream := aes(key, register);
      if |p| < BlockSize then Xor(p, stream)
      else
        var block: Block := Xor(p[..BlockSize], stream);
        block + CfbEncrypt(aes, key, block, p[BlockSize..])
  }

  /** CFB-128 decryption; it uses only the forward block function. */
  function CfbDecrypt(aes: BlockCipher, key: seq<byte>, register: Block, c: seq<byte>): (p: seq<byte>)
    ensures |p| == |c|
    decreases |c|
  {
    if |c| == 0 then []
    else
      var stream := aes(key, register);
      if |c| < BlockSize then Xor(c, stream)
      else
        var block: Block := c[..BlockSize];
        Xor(block, stream) + CfbDecrypt(aes, key, block, c[BlockSize..])
  }

  lemma XorTwice(a: seq<byte>, s: seq<byte>)
    requires |a| <= |s|
    ensures Xor(Xor(a, s), s) == a
  {
    var x := Xor(Xor(a, s), s);
    forall i | 0 <= i < |a| ensures x[i] == a[i] {
      assert x[i] == (a[i] ^ s[i]) ^ s[i];
    }
  }

  /** CFB decryption undoes CFB encryption for every block function, key and IV. */
  lemma {:induction false} CfbRoundTrip(aes: BlockCipher, key: seq<byte>, register: Block, p: seq<byte>)
    ensures CfbDecrypt(aes, key, register, CfbEncrypt(aes, key, register, p)) == p
    decreases |p|
  {
    if |p| == 0 {
    } else {
      var stream := aes(key, register);
      var c := CfbEncrypt(aes, key, register, p);
      if |p| < BlockSize {
        XorTwice(p, stream);
      } else {
        var block: Block := Xor(p[..BlockSize], stream);
        var rest := CfbEncrypt(aes, key, block, p[BlockSize..]);
        assert c == block + rest;
        assert c[..BlockSize] == block;
        assert c[BlockSize..] == rest;
        XorTwice(p[..BlockSize], stream);
        CfbRoundTrip(aes, key, block, p[BlockSize..]);
        assert CfbDecrypt(aes, key, register, c)
            == Xor(block, stream) + CfbDecrypt(aes, key, block, rest);
        assert p == p[..BlockSize] + p[BlockSize..];
      }
    }
  }

  /* ---------- encrypt_data / decrypt_data ---------- */

  /** encrypt_data: pad, then encrypt with AES-CFB under (key, iv). */
  function EncryptData(aes: BlockCipher, data: seq<byte>, key: seq<byte>, iv: seq<byte>): (r: Result<seq<byte>, CryptoError>)
    ensures !ValidAesKey(key) ==> r == Failure(InvalidKeySize)
    ensures ValidAesKey(key) && |iv| != IvSize ==> r == Failure(InvalidIvSize)
    ensures ValidAesKey(key) && |iv| == IvSize ==>
      r.Success? && |r.value| % BlockSize == 0 && |data| < |r.value| <= |data| + BlockSize
  {
    var padded := Pad(data);
    if !ValidAesKey(key) then Failure(InvalidKeySize)
    else if |iv| != IvSize then Failure(InvalidIvSize)
    else Success(CfbEncrypt(aes, key, iv, padded))
  }

  /** decrypt_data: decrypt with AES-CFB under (key, iv), then unpad. */
  function DecryptData(aes: BlockCipher, encrypted: seq<byte>, key: seq<byte>, iv: seq<byte>): (r: Result<seq<byte>, CryptoError>)
    ensures !ValidAesKey(key) ==> r == Failure(InvalidKeySize)
    ensures ValidAesKey(key) && |iv| != IvSize ==> r == Failure(InvalidIvSize)
    ensures ValidAesKey(key) && |iv| == IvSize ==>
      (r == Failure(InvalidPadding) <==> !ValidPadding(CfbDecrypt(aes, key, iv, encrypted)))
  {
    if !ValidAesKey(key) then Failure(InvalidKeySize)
    else if |iv| != IvSize then Failure(InvalidIvSize)
    else
      match Unpad(CfbDecrypt(aes, key, iv, encrypted))
      case None => Failure(InvalidPadding)
      case Some(data) => Success(data)
  }

  /** decrypt_data(encrypt_data(d, k, iv), k, iv) == d whatever the block function. */
  lemma DecryptEncrypt(aes: BlockCipher, data: seq<byte>, key: seq<byte>, iv: seq<byte>)
    requires EncryptData(aes, data, key, iv).Success?
    ensures DecryptData(aes, EncryptData(aes, data, key, iv).value, key, iv) == Success(data)
  {
    var c := EncryptData(aes, data, key, iv).value;
    CfbRoundTrip(aes, key, iv, Pad(data));
    assert CfbDecrypt(aes, key, iv, c) == Pad(data);
    UnpadIsInverseOfPad(Pad(data), data);
  }

  /** A ciphertext that is not a whole number of blocks never decrypts. */
  lemma RaggedCiphertextRejected(aes: BlockCipher, encrypted: seq<byte>, key: seq<byte>, iv: seq<byte>)
    requires ValidAesKey(key) && |iv| == IvSize
    requires |encrypted| % BlockSize != 0
    ensures DecryptData(aes, encrypted, key, iv) == Failure(InvalidPadding)
  {
  }

  /* ---------- vault file framing ---------- */

  /** Split a file as the loader reads it: 16 bytes, 16 bytes, then the rest. */
  function SplitFrame(file: seq<byte>): (parts: (seq<byte>, seq<byte>, seq<byte>))
    ensures parts.0 + parts.1 + parts.2 == file
    ensures |parts.0| == Min(SaltSize, |file|)
    ensures |parts.1| == Min(IvSize, |file| - |parts.0|)
  {
    var a := Min(SaltSize, |file|);
    var b := Min(SaltSize + IvSize, |file|);
    (file[..a], file[a..b], file[b..])
  }

  lemma SplitFrameOfJoin(salt: Block, iv: Block, body: seq<byte>)
    ensures SplitFrame(salt + iv + body) == (salt, iv, body)
  {
    var file := salt + iv + body;
    assert file[..16] == salt;
    assert file[16..32] == iv;
    assert file[32..] == body;
  }

  /**
   * save_encrypted_dict_to_file without the file write: the bytes written are
   * salt ++ iv ++ encrypt_data(encode(d), derive(password, salt, KdfIterations), iv).
   */
  function SaveEncryptedDict<D>(encode: D -> seq<byte>, derive: Kdf, aes: BlockCipher,
                                 d: D, password: string, salt: Block, iv: Block): (file: seq<byte>)
    ensures |file| >= SaltSize + IvSize
    ensures SplitFrame(file) == (salt, iv, file[SaltSize + IvSize..])
    ensures EncryptData(aes, encode(d), derive(password, salt, KdfIterations), iv) == Success(file[SaltSize + IvSize..])
  {
    var key := derive(password, salt, KdfIterations);
    var encrypted := EncryptData(aes, encode(d), key, iv).value;
    SplitFrameOfJoin(salt, iv, encrypted);
    salt + iv + encrypted
  }

  /**
   * load_encrypted_dict_from_file without the file read: split the frame,
   * derive the key from the stored salt, decrypt, decode.
   */
  function LoadEncryptedDict<D>(decode: seq<byte> -> Option<D>, derive: Kdf, aes: BlockCipher,
                                 file: seq<byte>, password: string): (r: Result<D, CryptoError>)
    ensures |file| < SaltSize + IvSize ==> r == Failure(InvalidIvSize)
  {
    var (salt, iv, encrypted) := SplitFrame(file);
    var key := derive(password, salt, KdfIterations);
    match DecryptData(aes, encrypted, key, iv)
    case Failure(e) => Failure(e)
    case Success(plain) =>
      match decode(plain)
      case None => Failure(DecodeError)
      case Some(d) => Success(d)
  }

  /**
   * Saving and then loading with the same password gives back the dictionary,
   * provided the JSON/UTF-8 decoding inverts the encoding on it.
   */
  lemma LoadAfterSave<D>(encode: D -> seq<byte>, decode: seq<byte> -> Option<D>, derive: Kdf,
                         aes: BlockCipher, d: D, password: string, salt: Block, iv: Block)
    requires decode(encode(d)) == Some(d)
    ensures LoadEncryptedDict(decode, derive, aes,
              SaveEncryptedDict(encode, derive, aes, d, password, salt, iv), password) == Success(d)
  {
    var file := SaveEncryptedDict(encode, derive, aes, d, password, salt, iv);
    var key := derive(password, salt, KdfIterations);
    assert SplitFrame(file).0 == salt;
    DecryptEncrypt(aes, encode(d), key, iv);
  }
}
