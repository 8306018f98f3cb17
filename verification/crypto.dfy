/**
 * CryptoUtils.java: password strength rating, key derivation and the
 * nonce‖ciphertext framing of encrypted records.
 *
 * The JDK primitives the class calls (UTF-8 conversion, SHA-256, AES-GCM,
 * Base64) are not modelled; they are the function-valued fields of a
 * `Primitives` value passed in, and the laws the storage engine relies on are
 * stated by the predicates `Sound` and `Authenticating` and taken as
 * hypotheses of the lemmas that need them.
 */
module Crypto {
  import opened Text
  import opened Results

  type Byte = b: int | 0 <= b < 256
  type Bytes = seq<Byte>

  datatype Primitives = Primitives(
    utf8: string -> Bytes,                          // String.getBytes(UTF_8)
    fromUtf8: Bytes -> string,                      // new String(bytes, UTF_8)
    sha256: Bytes -> Bytes,                         // MessageDigest.digest
    seal: (Bytes, Bytes, Bytes) -> Bytes,           // AES-GCM encrypt (key, nonce, plain): ciphertext‖tag
    open: (Bytes, Bytes, Bytes) -> Option<Bytes>,   // AES-GCM decrypt; None when the tag does not verify
    toBase64: Bytes -> string,                      // Base64.getEncoder().encodeToString
    fromBase64: string -> Option<Bytes>)            // Base64.getDecoder().decode; None on malformed text

  /** Each decoder undoes its encoder. */
  ghost predicate Sound(p: Primitives)
  {
    && (forall s :: p.fromUtf8(p.utf8(s)) == s)
    && (forall k, n, m :: p.open(k, n, p.seal(k, n, m)) == Some(m))
    && (forall b :: p.fromBase64(p.toBase64(b)) == Some(b))
  }

  /** A ciphertext sealed under one key does not open under another. */
  ghost predicate Authenticating(p: Primitives)
  {
    forall k1, k2, n, m :: k1 != k2 ==> p.open(k2, n, p.seal(k1, n, m)).None?
  }

  // ---------------------------------------------------------------- key derivation

  const Salt: string := "LockBox_2025"
  const ExtraRounds: nat := 1000

  /** `h` applied `n` times to `x`. */
  function Iterate(h: Bytes -> Bytes, n: nat, x: Bytes): Bytes
  {
    if n == 0 then x else h(Iterate(h, n - 1, x))
  }

  /** The key of a master password: SHA-256 applied 1001 times to the UTF-8 bytes of password ++ salt. */
  function DerivedKey(p: Primitives, password: string): Bytes
  {
    Iterate(p.sha256, ExtraRounds + 1, p.utf8(password + Salt))
  }

  /**
   * deriveKeyFromPassword: one salted digest, then 1000 re-digests of the
   * previous output. The result depends on the password alone, so the same
   * password always yields the same key.
   */
  method DeriveKeyFromPassword(p: Primitives, password: string) returns (keyBytes: Bytes)
    ensures keyBytes == Iterate(p.sha256, ExtraRounds + 1, p.utf8(password + Salt))
  {
    var saltedPassword := p.utf8(password + Salt);
    keyBytes := p.sha256(saltedPassword);
    for i := 0 to ExtraRounds
      invariant keyBytes == Iterate(p.sha256, i + 1, saltedPassword)
    {
      keyBytes := p.sha256(keyBytes);
    }
  }

  /** Iterating an injective digest is injective. */
  lemma {:induction false} IterateInjective(h: Bytes -> Bytes, n: nat, x: Bytes, y: Bytes)
    requires forall a, b :: h(a) == h(b) ==> a == b
    requires Iterate(h, n, x) == Iterate(h, n, y)
    ensures x == y
  {
    if n > 0 {
      IterateInjective(h, n - 1, x, y);
    }
  }

  /**
   * Two passwords share a key only if their salted encodings collide after
   * 1001 digests: with an injective encoding and digest, equal keys come from
   * equal passwords. No real 256-bit digest is injective; the hypothesis
   * stands in for SHA-256's collision resistance, under which distinct
   * passwords give distinct keys only with overwhelming probability.
   */
  lemma SameKeySamePassword(p: Primitives, pw1: string, pw2: string)
    requires forall a, b :: p.sha256(a) == p.sha256(b) ==> a == b
    requires forall s, t :: p.utf8(s) == p.utf8(t) ==> s == t
    requires DerivedKey(p, pw1) == DerivedKey(p, pw2)
    ensures pw1 == pw2
  {
    IterateInjective(p.sha256, ExtraRounds + 1, p.utf8(pw1 + Salt), p.utf8(pw2 + Salt));
    assert pw1 + Salt == pw2 + Salt;
    assert pw1 == (pw1 + Salt)[..|pw1|];
    assert pw2 == (pw2 + Salt)[..|pw2|];
  }

  // ---------------------------------------------------------------- framing

  const NonceLength: nat := 12

  datatype CryptoError =
    | MalformedBase64      // IllegalArgumentException from the Base64 decoder
    | NegativeArraySize    // decoded blob shorter than the nonce
    | AuthenticationFailed // AEADBadTagException from Cipher.doFinal

  /** encrypt's `combined` array: the nonce followed by the cipher output. */
  function Frame(nonce: Bytes, body: Bytes): (combined: Bytes)
    ensures |combined| == |nonce| + |body|
    ensures combined[..|nonce|] == nonce && combined[|nonce|..] == body
  {
    nonce + body
  }

  /**
   * decrypt's split of `combined`: bytes [0,12) are the nonce and [12,len) the
   * cipher output; a blob shorter than 12 bytes makes the array allocation fail.
   */
  function Unframe(combined: Bytes): (r: Result<(Bytes, Bytes), CryptoError>)
    ensures r.Failure? <==> |combined| < NonceLength
    ensures r.Failure? ==> r.error == NegativeArraySize
    ensures r.Success? ==> |r.value.0| == NonceLength && Frame(r.value.0, r.value.1) == combined
  {
    if |combined| < NonceLength then Failure(NegativeArraySize)
    else
      assert combined[..NonceLength] + combined[NonceLength..] == combined;
      Success((combined[..NonceLength], combined[NonceLength..]))
  }

  /** Splitting a framed blob gives back the 12-byte nonce and the body it was framed with. */
  lemma UnframeFrame(nonce: Bytes, body: Bytes)
    requires |nonce| == NonceLength
    ensures Unframe(Frame(nonce, body)) == Success((nonce, body))
  {
  }

  /**
   * encrypt(plainText) with the given 12 random nonce bytes: Base64 of
   * nonce ++ AES-GCM(UTF-8 plainText). With sound primitives the text decodes
   * to exactly that frame, and decrypting it under the same key gives the
   * plain text back.
   */
  function Encrypt(p: Primitives, key: Bytes, nonce: Bytes, plainText: string): (encrypted: string)
    requires |nonce| == NonceLength
    ensures Sound(p) ==> p.fromBase64(encrypted) == Some(Frame(nonce, p.seal(key, nonce, p.utf8(plainText))))
    ensures Sound(p) ==> Decrypt(p, key, encrypted) == Success(plainText)
  {
    var body := p.seal(key, nonce, p.utf8(plainText));
    UnframeFrame(nonce, body);
    p.toBase64(Frame(nonce, body))
  }

  /**
   * decrypt: Base64-decode, split off the first 12 bytes as the nonce, open the
   * rest under the key with that nonce, decode UTF-8. Malformed Base64, a blob
   * shorter than the nonce and a tag that does not verify are the three
   * failures; otherwise the text is the UTF-8 decoding of what opened.
   */
  function Decrypt(p: Primitives, key: Bytes, encrypted: string): (r: Result<string, CryptoError>)
    ensures p.fromBase64(encrypted).None? ==> r == Failure(MalformedBase64)
    ensures p.fromBase64(encrypted).Some? && |p.fromBase64(encrypted).value| < NonceLength ==>
      r == Failure(NegativeArraySize)
    ensures r.Success? || r.error == AuthenticationFailed ==>
      p.fromBase64(encrypted).Some? && |p.fromBase64(encrypted).value| >= NonceLength
    ensures r.Success? ==> exists nonce, body ::
      && p.fromBase64(encrypted) == Some(Frame(nonce, body))
      && |nonce| == NonceLength
      && p.open(key, nonce, body).Some?
      && r.value == p.fromUtf8(p.open(key, nonce, body).value)
    ensures r.Failure? && r.error == AuthenticationFailed ==> forall nonce, body ::
      p.fromBase64(encrypted) == Some(Frame(nonce, body)) && |nonce| == NonceLength ==>
      p.open(key, nonce, body).None?
    ensures r == Failure(MalformedBase64) ==> p.fromBase64(encrypted).None?
    ensures r == Failure(NegativeArraySize) ==>
      p.fromBase64(encrypted).Some? && |p.fromBase64(encrypted).value| < NonceLength
    ensures p.fromBase64(encrypted).Some? && |p.fromBase64(encrypted).value| >= NonceLength ==>
      OpenedBlob(p, key, p.fromBase64(encrypted).value).Some? ==>
      r == Success(p.fromUtf8(OpenedBlob(p, key, p.fromBase64(encrypted).value).value))
    ensures p.fromBase64(encrypted).Some? && |p.fromBase64(encrypted).value| >= NonceLength ==>
      OpenedBlob(p, key, p.fromBase64(encrypted).value).None? ==> r == Failure(AuthenticationFailed)
  {
    match p.fromBase64(encrypted)
    case None => Failure(MalformedBase64)
    case Some(combined) =>
      match Unframe(combined)
      case Failure(e) => Failure(e)
      case Success((nonce, body)) =>
        FrameInjective(nonce, body);
        match p.open(key, nonce, body)
        case None => Failure(AuthenticationFailed)
        case Some(plain) => Success(p.fromUtf8(plain))
  }

  /** The blob's body opened under the key with the blob's first 12 bytes as the nonce. */
  function OpenedBlob(p: Primitives, key: Bytes, blob: Bytes): Option<Bytes>
    requires |blob| >= NonceLength
  {
    p.open(key, blob[..NonceLength], blob[NonceLength..])
  }

  /** A 12-byte nonce and a body are recovered from their frame. */
  lemma FrameInjective(nonce: Bytes, body: Bytes)
    requires |nonce| == NonceLength
    ensures forall n, b :: Frame(n, b) == Frame(nonce, body) && |n| == NonceLength ==> n == nonce && b == body
  {
    forall n, b | Frame(n, b) == Frame(nonce, body) && |n| == NonceLength
      ensures n == nonce && b == body
    {
      assert n == Frame(n, b)[..NonceLength];
      assert b == Frame(n, b)[NonceLength..];
    }
  }

  /** Decrypting with the key that encrypted returns the original text, whatever nonce was drawn. */
  lemma DecryptEncrypt(p: Primitives, key: Bytes, nonce: Bytes, plainText: string)
    requires Sound(p)
    requires |nonce| == NonceLength
    ensures Decrypt(p, key, Encrypt(p, key, nonce, plainText)) == Success(plainText)
  {
    var body := p.seal(key, nonce, p.utf8(plainText));
    UnframeFrame(nonce, body);
  }

  /** Decrypting with a different key fails authentication. */
  lemma DecryptWrongKey(p: Primitives, key: Bytes, otherKey: Bytes, nonce: Bytes, plainText: string)
    requires Sound(p) && Authenticating(p)
    requires |nonce| == NonceLength && key != otherKey
    ensures Decrypt(p, otherKey, Encrypt(p, key, nonce, plainText)) == Failure(AuthenticationFailed)
  {
    var body := p.seal(key, nonce, p.utf8(plainText));
    UnframeFrame(nonce, body);
  }

  /** A decoded blob shorter than the nonce is refused before any decryption. */
  lemma ShortBlobRefused(p: Primitives, key: Bytes, encrypted: string)
    requires p.fromBase64(encrypted).Some? && |p.fromBase64(encrypted).value| < NonceLength
    ensures Decrypt(p, key, encrypted) == Failure(NegativeArraySize)
  {
  }

  /**
   * validatePassword: encrypts and decrypts a fixed test string with the
   * object's own key. Its argument is never read.
   */
  function ValidatePassword(p: Primitives, key: Bytes, nonce: Bytes, password: string): (valid: bool)
    requires |nonce| == NonceLength
    ensures Sound(p) ==> valid
  {
    var testData := "LockBox_TEST_DATA";
    Decrypt(p, key, Encrypt(p, key, nonce, testData)) == Success(testData)
  }

  /** With sound primitives validatePassword accepts every argument. */
  lemma ValidatePasswordAcceptsAnything(p: Primitives, key: Bytes, nonce: Bytes, password: string)
    requires Sound(p) && |nonce| == NonceLength
    ensures ValidatePassword(p, key, nonce, password)
  {
    DecryptEncrypt(p, key, nonce, "LockBox_TEST_DATA");
  }

  // ---------------------------------------------------------------- strength

  datatype Strength = Weak | Medium | Strong | VeryStrong

  /** The string getPasswordStrength returns for each tier. */
  function Label(s: Strength): string
  {
    match s
    case Weak => "Weak"
    case Medium => "Medium"
    case Strong => "Strong"
    case VeryStrong => "Very Strong"
  }

  /** The four labels are distinct, so the returned string determines the tier. */
  lemma LabelInjective(s: Strength, t: Strength)
    requires Label(s) == Label(t)
    ensures s == t
  {
  }

  datatype CharClass = Upper | Lower | Digit | Special

  /** The one flag a character sets: upper, else lower, else digit, else special. */
  function ClassOf(c: char): (k: CharClass)
    ensures k == Upper <==> IsUpper(c)
    ensures k == Lower <==> IsLower(c)
    ensures k == Digit <==> IsDigit(c)
    ensures k == Special <==> !IsUpper(c) && !IsLower(c) && !IsDigit(c)
  {
    if IsUpper(c) then Upper
    else if IsLower(c) then Lower
    else if IsDigit(c) then Digit
    else Special
  }

  ghost predicate HasClass(s: string, k: CharClass)
  {
    exists i :: 0 <= i < |s| && ClassOf(s[i]) == k
  }

  function Indicator(b: bool): nat { if b then 1 else 0 }

  ghost function ClassCount(s: string): nat
  {
    Indicator(HasClass(s, Upper)) + Indicator(HasClass(s, Lower))
    + Indicator(HasClass(s, Digit)) + Indicator(HasClass(s, Special))
  }

  /** The strength score: one per character class present, one for length >= 12, one for length >= 16. */
  ghost function Score(s: string): (score: nat)
    ensures score <= 6
    ensures |s| < 12 ==> score <= 4
    ensures |s| < 16 ==> score <= 5
  {
    ClassCount(s) + Indicator(|s| >= 12) + Indicator(|s| >= 16)
  }

  /** The switch on the score: 0-2 Weak, 3-4 Medium, 5 Strong, anything else Very Strong. */
  function Tier(score: nat): Strength
  {
    if score <= 2 then Weak
    else if score <= 4 then Medium
    else if score == 5 then Strong
    else VeryStrong
  }

  /** The rating of a password: Weak below 8 characters, otherwise the tier of its score. */
  ghost function Rating(s: string): Strength
  {
    if |s| < 8 then Weak else Tier(Score(s))
  }

  /**
   * getPasswordStrength: the character loop sets one flag per class seen,
   * the flags and two length bonuses are summed, and the sum is mapped to a
   * tier; passwords shorter than 8 characters are Weak at once.
   */
  method GetPasswordStrength(password: string) returns (strength: string)
    ensures strength == Label(Rating(password))
  {
    if |password| < 8 {
      return Label(Weak);
    }
    var hasUpper, hasLower, hasDigit, hasSpecial := false, false, false, false;
    for i := 0 to |password|
      invariant hasUpper <==> HasClass(password[..i], Upper)
      invariant hasLower <==> HasClass(password[..i], Lower)
      invariant hasDigit <==> HasClass(password[..i], Digit)
      invariant hasSpecial <==> HasClass(password[..i], Special)
    {
      var c := password[i];
      HasClassSnoc(password[..i], c);
      assert password[..i + 1] == password[..i] + [c];
      if IsUpper(c) {
        hasUpper := true;
      } else if IsLower(c) {
        hasLower := true;
      } else if IsDigit(c) {
        hasDigit := true;
      } else {
        hasSpecial := true;
      }
    }
    assert password[..|password|] == password;
    var score := 0;
    if hasUpper { score := score + 1; }
    if hasLower { score := score + 1; }
    if hasDigit { score := score + 1; }
    if hasSpecial { score := score + 1; }
    if |password| >= 12 { score := score + 1; }
    if |password| >= 16 { score := score + 1; }
    strength := Label(Tier(score));
  }

  lemma HasClassSnoc(s: string, c: char)
    ensures forall k :: HasClass(s + [c], k) <==> HasClass(s, k) || ClassOf(c) == k
  {
    forall k | HasClass(s + [c], k) && ClassOf(c) != k
      ensures HasClass(s, k)
    {
      var i :| 0 <= i < |s + [c]| && ClassOf((s + [c])[i]) == k;
      assert i < |s| && s[i] == (s + [c])[i];
    }
    forall k | HasClass(s, k)
      ensures HasClass(s + [c], k)
    {
      var i :| 0 <= i < |s| && ClassOf(s[i]) == k;
      assert (s + [c])[i] == s[i];
    }
    forall k | ClassOf(c) == k
      ensures HasClass(s + [c], k)
    {
      assert (s + [c])[|s|] == c;
    }
  }

  /** Any password shorter than 8 characters rates Weak, whatever its content. */
  lemma ShortIsWeak(s: string)
    requires |s| < 8
    ensures Rating(s) == Weak
  {
  }

  /** Length caps the rating: 8-11 characters never exceed Medium, 12-15 never exceed Strong. */
  lemma LengthCapsRating(s: string)
    ensures |s| < 12 ==> Rating(s) in {Weak, Medium}
    ensures |s| < 16 ==> Rating(s) != VeryStrong
  {
  }

  /** At least 16 characters covering all four classes rate Very Strong. */
  lemma AllClassesLongIsVeryStrong(s: string)
    requires |s| >= 16
    requires HasClass(s, Upper) && HasClass(s, Lower) && HasClass(s, Digit) && HasClass(s, Special)
    ensures Rating(s) == VeryStrong
  {
  }

  /** A password covering all four classes rates by length alone: Medium, Strong from 12, Very Strong from 16. */
  lemma AllClassesRating(s: string)
    requires |s| >= 8
    requires HasClass(s, Upper) && HasClass(s, Lower) && HasClass(s, Digit) && HasClass(s, Special)
    ensures Rating(s) == (if |s| >= 16 then VeryStrong else if |s| >= 12 then Strong else Medium)
  {
  }
}
