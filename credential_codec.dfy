/**
 * The self-describing password credential `pbkdf2_sha256$<iterations>$<salt-hex>$<digest-hex>`
 * and its verification. The key derivation itself (PBKDF2 with HMAC-SHA256,
 * section 5.2 of RFC 8018, applied to the UTF-8 bytes of the password) and
 * SHA-256 are parameters: only the text format and the acceptance rule are modelled.
 */
module CredentialCodec {
  import opened Wrappers
  import opened Text

  /** `hashlib.pbkdf2_hmac('sha256', password.encode('utf-8'), salt, iterations)`. */
  type Kdf = (string, seq<byte>, nat) -> seq<byte>

  /** `hashlib.sha256(text.encode('utf-8')).digest()`. */
  type Sha256 = string -> seq<byte>

  const Algorithm: string := "pbkdf2_sha256"
  const DefaultIterations: nat := 180000
  /** `pbkdf2_hmac` raises for an iteration count below 1 or above C's INT_MAX. */
  const MaxIterations: nat := 0x7FFF_FFFF

  predicate IterationsAccepted(n: int) { 1 <= n <= MaxIterations }

  /** The three fields after the algorithm tag, as `_verify_password` reads them. */
  datatype Credential = Credential(iterations: int, salt: seq<byte>, digestHex: string)

  /** `encoded.split('$')` into exactly four fields, the tag checked, the count read
      by `int()` and the salt by `bytes.fromhex`; None wherever Python raises or the
      tag differs. */
  function Parse(encoded: string): (c: Option<Credential>)
    ensures c.Some? ==> |Split(encoded, '$')| == 4 && Split(encoded, '$')[0] == Algorithm
    ensures c.Some? ==> c.value.digestHex == Split(encoded, '$')[3]
  {
    var parts := Split(encoded, '$');
    if |parts| != 4 || parts[0] != Algorithm then None
    else
      match (ParsePyInt(parts[1]), FromHex(parts[2]))
      case (Some(n), Some(salt)) => Some(Credential(n, salt, parts[3]))
      case _ => None
  }

  /** `_password_hash(password, salt, iterations)` with the random salt supplied by the caller. */
  function Encode(kdf: Kdf, password: string, salt: seq<byte>, iterations: nat := DefaultIterations): (encoded: string)
    requires IterationsAccepted(iterations)
    ensures Split(encoded, '$') == [Algorithm, NatToDecimal(iterations), Hex(salt), Hex(kdf(password, salt, iterations))]
  {
    var fields := [Algorithm, NatToDecimal(iterations), Hex(salt), Hex(kdf(password, salt, iterations))];
    var encoded := Algorithm + "$" + NatToDecimal(iterations) + "$" + Hex(salt) + "$" + Hex(kdf(password, salt, iterations));
    FieldsOfEncoding(fields);
    encoded
  }

  lemma FieldsOfEncoding(fields: seq<string>)
    requires |fields| == 4 && fields[0] == Algorithm
    requires AllDigits(fields[1])
    requires forall i :: 0 <= i < |fields[2]| ==> IsHexDigit(fields[2][i])
    requires forall i :: 0 <= i < |fields[3]| ==> IsHexDigit(fields[3][i])
    ensures Split(fields[0] + "$" + fields[1] + "$" + fields[2] + "$" + fields[3], '$') == fields
  {
    HexTextHasNoDollar(fields[1]);
    HexTextHasNoDollar(fields[2]);
    HexTextHasNoDollar(fields[3]);
    SplitFourFields(fields[0], fields[1], fields[2], fields[3]);
    SplitWithout(fields[3], '$');
  }

  /** The first three `$`-separated fields come off one by one. */
  lemma SplitFourFields(a: string, b: string, c: string, d: string)
    requires '$' !in a && '$' !in b && '$' !in c
    ensures Split(a + "$" + b + "$" + c + "$" + d, '$') == [a, b, c] + Split(d, '$')
  {
    assert a + "$" + b + "$" + c + "$" + d == a + ['$'] + (b + ['$'] + (c + ['$'] + d));
    SplitAfter(c, d, '$');
    SplitAfter(b, c + ['$'] + d, '$');
    SplitAfter(a, b + ['$'] + (c + ['$'] + d), '$');
  }

  /** Digit and hex-digit text never holds the field separator. */
  lemma HexTextHasNoDollar(s: string)
    requires forall i :: 0 <= i < |s| ==> IsHexDigit(s[i])
    ensures '$' !in s
  {
  }

  /** `_verify_password`: true only for a well-formed credential of this algorithm,
      with an accepted iteration count, whose digest text equals the recomputed digest. */
  function VerifyPassword(kdf: Kdf, password: string, encoded: string): (ok: bool)
    ensures ok ==> |Split(encoded, '$')| == 4 && Split(encoded, '$')[0] == Algorithm
    ensures ok ==> ParsePyInt(Split(encoded, '$')[1]).Some? && FromHex(Split(encoded, '$')[2]).Some?
    ensures ok ==> var n := ParsePyInt(Split(encoded, '$')[1]).value;
                   IterationsAccepted(n)
                   && Split(encoded, '$')[3] == Hex(kdf(password, FromHex(Split(encoded, '$')[2]).value, n))
  {
    match Parse(encoded)
    case None => false
    case Some(c) =>
      IterationsAccepted(c.iterations) && Hex(kdf(password, c.salt, c.iterations)) == c.digestHex
  }

  /** `_token_hash`: the hex text of the SHA-256 digest; only this is stored for reset tokens. */
  function TokenHash(sha: Sha256, token: string): string {
    Hex(sha(token))
  }

  // ---------------------------------------------------------------- properties

  lemma {:induction false} HexInjective(a: seq<byte>, b: seq<byte>)
    ensures Hex(a) == Hex(b) <==> a == b
  {
    FromHexOfHex(a);
    FromHexOfHex(b);
  }

  /** Encoding then parsing gives back the count, the salt and the digest. */
  lemma ParseEncoded(kdf: Kdf, password: string, salt: seq<byte>, iterations: nat)
    requires IterationsAccepted(iterations)
    ensures Parse(Encode(kdf, password, salt, iterations))
            == Some(Credential(iterations, salt, Hex(kdf(password, salt, iterations))))
  {
    ParseDecimal(iterations);
    FromHexOfHex(salt);
  }

  /** A password verifies against its own encoding, whatever the salt. */
  lemma VerifyEncoded(kdf: Kdf, password: string, salt: seq<byte>, iterations: nat)
    requires IterationsAccepted(iterations)
    ensures VerifyPassword(kdf, password, Encode(kdf, password, salt, iterations))
  {
    ParseEncoded(kdf, password, salt, iterations);
  }

  /** Digest equality is the only acceptance test: another password verifies against
      the encoding exactly when the KDF gives it the same digest under that salt. */
  lemma VerifyOtherPassword(kdf: Kdf, password: string, other: string, salt: seq<byte>, iterations: nat)
    requires IterationsAccepted(iterations)
    ensures VerifyPassword(kdf, other, Encode(kdf, password, salt, iterations))
            <==> kdf(other, salt, iterations) == kdf(password, salt, iterations)
  {
    ParseEncoded(kdf, password, salt, iterations);
    HexInjective(kdf(other, salt, iterations), kdf(password, salt, iterations));
  }

  /** Changing any one character of the digest field makes the encoding fail to verify. */
  lemma AlteredDigestRejected(kdf: Kdf, password: string, salt: seq<byte>, iterations: nat, k: nat, c: char)
    requires IterationsAccepted(iterations)
    requires k < |Hex(kdf(password, salt, iterations))|
    requires c != Hex(kdf(password, salt, iterations))[k]
    ensures !VerifyPassword(kdf, password,
              Algorithm + "$" + NatToDecimal(iterations) + "$" + Hex(salt) + "$"
              + Hex(kdf(password, salt, iterations))[k := c])
  {
    if c == '$' {
      DollarInDigestRejected(kdf, password, salt, iterations, k);
    } else {
      OtherCharInDigestRejected(kdf, password, salt, iterations, k, c);
    }
  }

  /** A '$' put into the digest field gives a fifth field. */
  lemma DollarInDigestRejected(kdf: Kdf, password: string, salt: seq<byte>, iterations: nat, k: nat)
    requires k < |Hex(kdf(password, salt, iterations))|
    ensures !VerifyPassword(kdf, password,
              Algorithm + "$" + NatToDecimal(iterations) + "$" + Hex(salt) + "$"
              + Hex(kdf(password, salt, iterations))[k := '$'])
  {
    var digest := Hex(kdf(password, salt, iterations));
    var altered := digest[k := '$'];
    assert '$' !in Algorithm;
    HexTextHasNoDollar(NatToDecimal(iterations));
    HexTextHasNoDollar(Hex(salt));
    SplitFourFields(Algorithm, NatToDecimal(iterations), Hex(salt), altered);
    HexTextHasNoDollar(digest[..k]);
    HexTextHasNoDollar(digest[k + 1..]);
    assert altered == digest[..k] + ['$'] + digest[k + 1..];
    SplitAfter(digest[..k], digest[k + 1..], '$');
  }

  /** Any other character keeps four fields but changes the digest compared. */
  lemma OtherCharInDigestRejected(kdf: Kdf, password: string, salt: seq<byte>, iterations: nat, k: nat, c: char)
    requires IterationsAccepted(iterations)
    requires k < |Hex(kdf(password, salt, iterations))|
    requires c != Hex(kdf(password, salt, iterations))[k] && c != '$'
    ensures !VerifyPassword(kdf, password,
              Algorithm + "$" + NatToDecimal(iterations) + "$" + Hex(salt) + "$"
              + Hex(kdf(password, salt, iterations))[k := c])
  {
    var digest := Hex(kdf(password, salt, iterations));
    var altered := digest[k := c];
    assert '$' !in Algorithm;
    HexTextHasNoDollar(NatToDecimal(iterations));
    HexTextHasNoDollar(Hex(salt));
    SplitFourFields(Algorithm, NatToDecimal(iterations), Hex(salt), altered);
    HexTextHasNoDollar(digest[..k]);
    HexTextHasNoDollar(digest[k + 1..]);
    assert altered == digest[..k] + [c] + digest[k + 1..];
    SplitWithout(altered, '$');
    ParseDecimal(iterations);
    FromHexOfHex(salt);
    assert altered[k] != digest[k];
  }

  /** Two tokens get the same stored hash exactly when their SHA-256 digests agree. */
  lemma TokenHashIdentifiesDigest(sha: Sha256, a: string, b: string)
    ensures TokenHash(sha, a) == TokenHash(sha, b) <==> sha(a) == sha(b)
  {
    HexInjective(sha(a), sha(b));
  }
}
