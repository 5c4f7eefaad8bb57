/**
 * `PKCEParams` and `PKCEGenerator` of scripts/oauth_login.py: the code
 * verifier, code challenge and state of section 4 of RFC 7636. The random
 * bytes the script draws from `secrets` are parameters here, and SHA-256 is
 * a parameter `sha256` known only to return 32 bytes.
 */
module Pkce {
  import opened Wrappers
  import opened Bytes
  import Base64Url
  import Utf8

  /** Exactly 32 bytes: `secrets.token_bytes(32)`, or a SHA-256 digest. */
  type Bytes32 = b: seq<byte> | |b| == 32 witness seq(32, _ => 0)

  datatype PkceParams = PkceParams(
    codeVerifier: string,
    codeChallenge: string,
    codeChallengeMethod: string := "S256",
    state: string)

  /** The pydantic field constraints of `PKCEParams`: verifier of 43 to 128 characters, nonempty challenge and state. */
  predicate Valid(p: PkceParams)
  {
    43 <= |p.codeVerifier| <= 128 && |p.codeChallenge| >= 1 && |p.state| >= 1
  }

  /** The pydantic `ValidationError`: the names of the fields whose constraint failed. */
  datatype ValidationError = ValidationError(fields: set<string>)

  /** Constructing `PKCEParams(...)`: the value when every field constraint holds, else the failing fields. */
  function NewPkceParams(verifier: string, challenge: string, challengeMethod: string, state: string): (r: Result<PkceParams, ValidationError>)
    ensures r.Success? <==> Valid(PkceParams(verifier, challenge, challengeMethod, state))
    ensures r.Failure? ==> r.error.fields != {}
  {
    var bad :=
      (if 43 <= |verifier| <= 128 then {} else {"code_verifier"})
      + (if |challenge| >= 1 then {} else {"code_challenge"})
      + (if |state| >= 1 then {} else {"state"});
    if bad == {} then Success(PkceParams(verifier, challenge, challengeMethod, state))
    else Failure(ValidationError(bad))
  }

  /** A 43-character string over `[A-Za-z0-9_-]`: what every generator below returns. */
  predicate IsToken43(s: string)
  {
    |s| == 43 && forall i :: 0 <= i < |s| ==> Base64Url.IsUrlSafe(s[i])
  }

  /** `generate_code_verifier`: 32 random bytes, base64url-encoded without padding. */
  function GenerateCodeVerifier(random: Bytes32): (v: string)
    ensures IsToken43(v) && '=' !in v
  {
    Base64Url.EncodeNoPadShape(random);
    Base64Url.EncodeNoPad(random)
  }

  /** `generate_code_challenge`: the unpadded base64url form of SHA-256 of the verifier's UTF-8 bytes. */
  function GenerateCodeChallenge(sha256: seq<byte> -> Bytes32, verifier: string): (c: string)
    ensures IsToken43(c) && '=' !in c
  {
    var digest := sha256(Utf8.Encode(verifier));
    Base64Url.EncodeNoPadShape(digest);
    Base64Url.EncodeNoPad(digest)
  }

  /** `generate_state`: `secrets.token_urlsafe(32)`, the same encoding of 32 more random bytes. */
  function GenerateState(random: Bytes32): (s: string)
    ensures IsToken43(s) && '=' !in s
  {
    Base64Url.EncodeNoPadShape(random);
    Base64Url.EncodeNoPad(random)
  }

  /**
   * `generate_pkce_params`: a verifier, its challenge, method `S256` and a
   * state. The pydantic constraints always hold, so it never raises.
   */
  function GeneratePkceParams(verifierBytes: Bytes32, stateBytes: Bytes32, sha256: seq<byte> -> Bytes32): (p: PkceParams)
    ensures Valid(p)
    ensures p.codeVerifier == GenerateCodeVerifier(verifierBytes)
    ensures p.codeChallenge == GenerateCodeChallenge(sha256, p.codeVerifier)
    ensures p.codeChallengeMethod == "S256"
    ensures p.state == GenerateState(stateBytes)
  {
    var verifier := GenerateCodeVerifier(verifierBytes);
    var r := NewPkceParams(verifier, GenerateCodeChallenge(sha256, verifier), "S256", GenerateState(stateBytes));
    r.value
  }

  /** Distinct random bytes give distinct verifiers. */
  lemma VerifierInjective(a: Bytes32, b: Bytes32)
    requires a != b
    ensures GenerateCodeVerifier(a) != GenerateCodeVerifier(b)
  {
    Base64Url.EncodeNoPadInjective(a, b);
  }

  /** Distinct random bytes give distinct states, so a state from an earlier draw never matches a later one. */
  lemma StateInjective(a: Bytes32, b: Bytes32)
    requires a != b
    ensures GenerateState(a) != GenerateState(b)
  {
    Base64Url.EncodeNoPadInjective(a, b);
  }

  /** The bytes hashed for the challenge are the verifier's 43 ASCII codes. */
  lemma ChallengeInputIsAscii(random: Bytes32)
    ensures var v := GenerateCodeVerifier(random);
            |Utf8.Encode(v)| == 43 && forall i :: 0 <= i < 43 ==> Utf8.Encode(v)[i] == v[i] as int
  {
    var v := GenerateCodeVerifier(random);
    Utf8.EncodeAscii(v);
  }
}
