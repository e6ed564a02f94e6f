/**
 * `ProviderData`, the metadata record of a provider, and the derivation of
 * its `id`: the decimal text of the record's `hashCode()`, as bytes, followed
 * by 30 random bytes, hashed with SHA-1 (FIPS PUB 180-4), hex-encoded and
 * cut to its first 15 characters.
 *
 * The SHA-1 computation, the random salt and the compiler-generated
 * `hashCode()` are inputs: `sha1` is any function returning 20 bytes, `salt`
 * any 30 bytes, `hashCode` any `Int`.
 */
module ProviderData {
  import opened Wrappers
  import opened KotlinStd
  import opened HexCodec

  /** Number of random bytes appended to the hash-code text (`nextBytes(30)`). */
  const SALT_LENGTH: nat := 30
  /** Length of a SHA-1 digest in bytes (160 bits). */
  const DIGEST_LENGTH: nat := 20
  /** Length of a provider id (`take(15)`). */
  const ID_LENGTH: nat := 15

  type Salt = s: seq<Byte> | |s| == SALT_LENGTH
    witness seq(30, _ => 0)

  type Digest = s: seq<Byte> | |s| == DIGEST_LENGTH
    witness seq(20, _ => 0)

  /** What every provider id is: 15 characters from `0-9a-f`. */
  predicate IsProviderId(id: string) {
    |id| == ID_LENGTH && forall i :: 0 <= i < |id| ==> IsLowerHexDigit(id[i])
  }

  /** The digest input: `"${hashCode()}".toByteArray() + salt`. */
  function Seed(hashCode: Int32, salt: Salt): seq<Byte> {
    DecimalTextCorrect(hashCode);
    AsciiBytes(DecimalText(hashCode)) + salt
  }

  /**
   * `generateHash()`: the first 15 characters of the lowercase hex form of
   * the SHA-1 digest of the seed. That is the encoding of the first 7 digest
   * bytes followed by the high nibble of the 8th, a prefix of the full
   * 40-character hex digest.
   */
  function GenerateHash(hashCode: Int32, salt: Salt, sha1: seq<Byte> -> Digest): (id: string)
    ensures IsProviderId(id)
    ensures var digest := sha1(Seed(hashCode, salt));
      && id <= ToHex(digest)
      && id == ToHex(digest[..7]) + [DigitChar(Unsigned(digest[7]) / 16)]
  {
    var digest := sha1(Seed(hashCode, salt));
    ToHexLength(digest);
    ToHexAlphabet(digest);
    ToHexTakeOdd(digest, 7);
    Take(ToHex(digest), ID_LENGTH)
  }

  /**
   * The digest input is the ASCII decimal rendering of the hash code (an
   * optional '-' then digits) followed by exactly the 30 salt bytes, 31 to 41
   * bytes in all.
   */
  lemma SeedLayout(hashCode: Int32, salt: Salt)
    ensures var text := DecimalText(hashCode);
      var seed := Seed(hashCode, salt);
      && |seed| == |text| + SALT_LENGTH
      && 31 <= |seed| <= 41
      && seed[|text|..] == salt
      && (forall i :: 0 <= i < |text| ==> seed[i] as int == text[i] as int)
      && (forall i :: 0 <= i < |text| ==> seed[i] as int == '-' as int || '0' as int <= seed[i] as int <= '9' as int)
      && (seed[0] as int == '-' as int <==> hashCode < 0)
  {
    var text := DecimalText(hashCode);
    DecimalTextCorrect(hashCode);
    var seed := Seed(hashCode, salt);
    assert seed[..|text|] == AsciiBytes(text);
    forall i | 0 <= i < |text|
      ensures seed[i] as int == '-' as int || '0' as int <= seed[i] as int <= '9' as int
    {
      if hashCode < 0 && i > 0 {
        assert text[i] == text[1..][i - 1];
      }
    }
  }

  /**
   * Two ids are equal exactly when their digests agree on the first 7 bytes
   * and on the high nibble of the 8th: the id keeps 60 of the digest's 160 bits.
   */
  lemma GenerateHashEqual(h1: Int32, s1: Salt, f1: seq<Byte> -> Digest,
                          h2: Int32, s2: Salt, f2: seq<Byte> -> Digest)
    ensures var d1, d2 := f1(Seed(h1, s1)), f2(Seed(h2, s2));
      GenerateHash(h1, s1, f1) == GenerateHash(h2, s2, f2)
      <==> d1[..7] == d2[..7] && Unsigned(d1[7]) / 16 == Unsigned(d2[7]) / 16
  {
    var d1, d2 := f1(Seed(h1, s1)), f2(Seed(h2, s2));
    var id1, id2 := GenerateHash(h1, s1, f1), GenerateHash(h2, s2, f2);
    ToHexLength(d1[..7]);
    ToHexLength(d2[..7]);
    DigitCharInjective(Unsigned(d1[7]) / 16, Unsigned(d2[7]) / 16);
    if id1 == id2 {
      assert id1[..14] == ToHex(d1[..7]) && id2[..14] == ToHex(d2[..7]);
      ToHexInjective(d1[..7], d2[..7]);
      assert id1[14] == id2[14];
    }
  }

  // ---------------------------------------------------------------------------
  // The record
  // ---------------------------------------------------------------------------

  /**
   * The primary-constructor properties of `ProviderData`; the element types
   * `Author`, `Language`, `ProviderType` and `Status` are defined elsewhere
   * and are type parameters here. Kotlin's `String?` is `Option<string>`.
   */
  datatype Metadata<Author, Language, ProviderType, Status> = Metadata(
    authors: seq<Author>,
    repositoryUrl: Option<string>,
    buildUrl: Option<string>,
    changelog: Option<string> := None,
    versionName: string,
    versionCode: Int64,
    adult: bool := false,
    description: Option<string>,
    iconUrl: Option<string>,
    language: Language,
    name: string,
    providerType: ProviderType,
    status: Status)

  /**
   * A constructed `ProviderData`: its properties and the `id` fixed once at
   * construction. `id` is declared in the class body, so it is not one of the
   * properties the data class compares or hashes.
   */
  datatype ProviderRecord<Author, Language, ProviderType, Status> = ProviderRecord(
    meta: Metadata<Author, Language, ProviderType, Status>,
    id: string)

  /**
   * Constructing `ProviderData(...)`: the properties as given, and an id
   * derived from `hashCode` (the record's `hashCode()`), the salt and the
   * digest function.
   */
  function NewProviderData<Author, Language, ProviderType, Status>(
    meta: Metadata<Author, Language, ProviderType, Status>,
    hashCode: Int32, salt: Salt, sha1: seq<Byte> -> Digest): (r: ProviderRecord<Author, Language, ProviderType, Status>)
    ensures r.meta == meta
    ensures IsProviderId(r.id)
    ensures r.id <= ToHex(sha1(Seed(hashCode, salt)))
  {
    ProviderRecord(meta, GenerateHash(hashCode, salt, sha1))
  }
}
