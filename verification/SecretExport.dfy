/**
  The portable form of an exported secret: a version header, a salt, a tag over what follows, and
  the ciphertext. The cipher, the key derivation and the MAC are inputs.
 */
module SecretExport {
  type byte = b: int | 0 <= b < 256

  type Bytes = seq<byte>

  /** The version header, `WLCTLsecret-v2` and a newline, in ASCII. */
  const MAGIC: Bytes := [87, 76, 67, 84, 76, 115, 101, 99, 114, 101, 116, 45, 118, 50, 10]
  const SALT_LENGTH := 16
  const TAG_LENGTH := 32

  /** `mac(pass, salt, data)` stands for the keyed digest with the key derived from pass and salt. */
  datatype Crypto = Crypto(mac: (Bytes, Bytes, Bytes) -> Bytes,
                           open2: (Bytes, Bytes) -> Outcome, open1: (Bytes, Bytes) -> Outcome)

  /** CipherFailed: the cipher rejected the data. Tampered: the tag does not match. */
  datatype Outcome = Plain(bytes: Bytes) | CipherFailed | Tampered

  ghost predicate DigestSized(c: Crypto) {
    forall p, s, d :: |c.mac(p, s, d)| == TAG_LENGTH
  }

  function Frame(c: Crypto, ciphertext: Bytes, pass: Bytes, salt: Bytes): Bytes {
    MAGIC + salt + c.mac(pass, salt, MAGIC + salt + ciphertext) + ciphertext
  }

  function Min(a: nat, b: nat): nat { if a < b then a else b }

  /** Slices that, as the program's do, stop where the data does. */
  function SaltOf(body: Bytes): Bytes { body[..Min(SALT_LENGTH, |body|)] }

  function TagOf(body: Bytes): Bytes {
    body[Min(SALT_LENGTH, |body|)..Min(SALT_LENGTH + TAG_LENGTH, |body|)]
  }

  function CiphertextOf(body: Bytes): Bytes { body[Min(SALT_LENGTH + TAG_LENGTH, |body|)..] }

  function Decrypt(c: Crypto, blob: Bytes, pass: Bytes): Outcome {
    if MAGIC <= blob then
      var body := blob[|MAGIC|..];
      if c.mac(pass, SaltOf(body), MAGIC + SaltOf(body) + CiphertextOf(body)) != TagOf(body) then Tampered
      else c.open2(CiphertextOf(body), pass)
    else c.open1(blob, pass)
  }

  /** A framed blob comes apart into what it was made of. */
  lemma FrameParts(c: Crypto, ciphertext: Bytes, pass: Bytes, salt: Bytes, body: Bytes)
    requires |salt| == SALT_LENGTH && |c.mac(pass, salt, MAGIC + salt + ciphertext)| == TAG_LENGTH
    requires body == salt + c.mac(pass, salt, MAGIC + salt + ciphertext) + ciphertext
    ensures SaltOf(body) == salt && CiphertextOf(body) == ciphertext
    ensures TagOf(body) == c.mac(pass, salt, MAGIC + salt + ciphertext)
  {}

  lemma FrameBody(c: Crypto, ciphertext: Bytes, pass: Bytes, salt: Bytes)
    ensures var blob := Frame(c, ciphertext, pass, salt);
            MAGIC <= blob && blob[|MAGIC|..] == salt + c.mac(pass, salt, MAGIC + salt + ciphertext) + ciphertext
  {
    var blob, tag := Frame(c, ciphertext, pass, salt), c.mac(pass, salt, MAGIC + salt + ciphertext);
    assert blob == MAGIC + (salt + tag + ciphertext);
  }

  /** Exporting and importing with the same passphrase gives back the plaintext, whatever the salt. */
  lemma RoundTrip(c: Crypto, plaintext: Bytes, ciphertext: Bytes, pass: Bytes, salt: Bytes)
    requires DigestSized(c) && |salt| == SALT_LENGTH && c.open2(ciphertext, pass) == Plain(plaintext)
    ensures Decrypt(c, Frame(c, ciphertext, pass, salt), pass) == Plain(plaintext)
  {
    var body := salt + c.mac(pass, salt, MAGIC + salt + ciphertext) + ciphertext;
    FrameBody(c, ciphertext, pass, salt);
    FrameParts(c, ciphertext, pass, salt, body);
  }

  /**
    A blob with the version header, however short, is opened exactly when it is the frame of
    some salt and ciphertext under this passphrase; every other one is rejected.
   */
  lemma AcceptedExactly(c: Crypto, blob: Bytes, pass: Bytes)
    requires DigestSized(c) && MAGIC <= blob && forall x, p :: c.open2(x, p) != Tampered
    ensures Decrypt(c, blob, pass) != Tampered <==>
            exists salt, ciphertext :: |salt| == SALT_LENGTH && blob == Frame(c, ciphertext, pass, salt)
  {
    var body := blob[|MAGIC|..];
    var salt, ciphertext := SaltOf(body), CiphertextOf(body);
    if Decrypt(c, blob, pass) != Tampered {
      assert |TagOf(body)| == TAG_LENGTH;
      assert body == salt + TagOf(body) + ciphertext;
      assert blob == MAGIC + body;
      assert blob == Frame(c, ciphertext, pass, salt);
    }
    if s, x :| |s| == SALT_LENGTH && blob == Frame(c, x, pass, s) {
      FrameBody(c, x, pass, s);
      FrameParts(c, x, pass, s, body);
    }
  }

  /** The salt and ciphertext of a frame are unique. */
  lemma FramesDiffer(c: Crypto, x: Bytes, y: Bytes, pass: Bytes, s: Bytes, t: Bytes)
    requires DigestSized(c) && |s| == SALT_LENGTH && |t| == SALT_LENGTH
    ensures Frame(c, x, pass, s) == Frame(c, y, pass, t) <==> x == y && s == t
  {
    if Frame(c, x, pass, s) == Frame(c, y, pass, t) {
      var body := Frame(c, x, pass, s)[|MAGIC|..];
      FrameBody(c, x, pass, s);
      FrameBody(c, y, pass, t);
      FrameParts(c, x, pass, s, body);
      FrameParts(c, y, pass, t, body);
    }
  }

  /** The header of what `openssl enc -salt` writes, in ASCII. */
  const SALTED: Bytes := [83, 97, 108, 116, 101, 100, 95, 95]

  /** A legacy export, which starts with the cipher tool's own header, is never taken for the new form. */
  lemma LegacyIsLegacy(c: Crypto, blob: Bytes, pass: Bytes)
    requires SALTED <= blob
    ensures Decrypt(c, blob, pass) == c.open1(blob, pass)
  {
    assert SALTED[0] == blob[0] && MAGIC[0] == 87;
  }
}
