/**
 * The parts of the `webauthn_rs` crate that the actor touches, seen from the
 * outside: the opaque ceremony values it passes around, its error type, and
 * the relying-party object `Webauthn` as two functions. Challenge generation
 * draws on randomness, which enters as an explicit `entropy` argument;
 * attestation checking is foreign cryptography and stays uninterpreted.
 */
module WebauthnTypes {
  import opened Wrappers

  type Bytes = seq<byte>

  /** The key under which a user's ceremonies and credentials are filed. */
  type UserId = Bytes

  type CredentialId = Bytes

  datatype UserVerificationPolicy = Required | Preferred | Discouraged

  /** A registered public-key credential; the key material is not interpreted here. */
  datatype Credential = Credential(credId: CredentialId, publicKey: Bytes, counter: nat)

  /** The server half of a registration ceremony: the challenge nonce and the policy it was issued under. */
  datatype RegistrationState = RegistrationState(challenge: Bytes, policy: UserVerificationPolicy)

  /** The server half of an authentication ceremony. */
  datatype AuthenticationState = AuthenticationState(challenge: Bytes, allowed: seq<CredentialId>)

  /** The public challenge forwarded to the client, untouched. */
  datatype CreationChallengeResponse = CreationChallengeResponse(challenge: Bytes, userName: string)

  /** The client's signed answer to a registration challenge, forwarded untouched to the verifier. */
  datatype RegisterPublicKeyCredential =
    RegisterPublicKeyCredential(id: Bytes, attestationObject: Bytes, clientDataJson: Bytes)

  datatype WebauthnError =
    | ChallengeNotFound
    | CredentialAlreadyExists
    | Other(description: string)

  /**
   * `Webauthn<WebauthnEphemeralConfig>`: what the relying party computes.
   * `registerCredential` receives the predicate "is this credential id already
   * registered?" and may consult it.
   */
  datatype Webauthn = Webauthn(
    generateChallengeRegister: (string, Option<UserVerificationPolicy>, Bytes)
      -> Result<(CreationChallengeResponse, RegistrationState), WebauthnError>,
    registerCredential: (RegisterPublicKeyCredential, RegistrationState, CredentialId -> bool)
      -> Result<Credential, WebauthnError>)

  /** A verifier that never accepts a credential whose id the duplicate predicate reports. */
  ghost predicate HonoursDuplicates(wan: Webauthn) {
    forall reg, rs, isDup ::
      var out := wan.registerCredential(reg, rs, isDup);
      out.Ok? ==> !isDup(out.value.credId)
  }
}
