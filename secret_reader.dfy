/**
 * `get_secret` from assets/get_secret.py: read the current value of a
 * Secrets Manager secret and normalise it into a string that is never null.
 *
 * The `get_secret_value` network call is not modelled; its answer is the
 * input `StoreReply`. Python exceptions become `Failure` values.
 */
module SecretReader {
  import opened Wrappers

  /** The placeholder the Terraform module stores when no secret value is declared. */
  const Placeholder: string := "NoValue"

  /** The one error code `get_secret` recovers from. */
  const NotFoundCode: string := "ResourceNotFoundException"

  /** The key of the reply that carries a string secret. */
  const SecretStringKey: string := "SecretString"

  /** What `get_secret_value` answers. */
  datatype StoreReply =
    | SecretString(value: string)  // the reply maps "SecretString" to `value`
    | BinaryOnly                   // the reply has no "SecretString" key (a binary secret)
    | ClientError(code: string)    // botocore raised ClientError with this Error.Code

  /** The exceptions that can escape `get_secret`. */
  datatype Exception =
    | ClientErrorRaised(code: string)  // a ClientError re-raised unchanged
    | KeyErrorRaised(key: string)      // `response["SecretString"]` on a reply without that key

  /**
   * `get_secret`: the sentinel and "not found" both read as "", any other
   * string is returned verbatim, and every other failure propagates.
   */
  function GetSecret(reply: StoreReply): (r: Result<string, Exception>)
    // the function returns exactly for string replies and for "not found"
    ensures r.Success? <==> reply.SecretString? || reply == ClientError(NotFoundCode)
    // identity on every stored string other than the sentinel
    ensures reply.SecretString? && reply.value != Placeholder ==> r == Success(reply.value)
    // the sentinel and a missing secret read the same, as ""
    ensures reply == SecretString(Placeholder) ==> r == Success("")
    ensures reply == ClientError(NotFoundCode) ==> r == Success("")
    // the sentinel never leaks out
    ensures r.Success? ==> r.value != Placeholder
    // "" comes back only for the sentinel, "not found" or a stored ""
    ensures r == Success("") <==>
      reply == SecretString(Placeholder) || reply == ClientError(NotFoundCode) || reply == SecretString("")
    // any other error code is re-raised unchanged
    ensures reply.ClientError? && reply.code != NotFoundCode ==> r == Failure(ClientErrorRaised(reply.code))
    ensures reply.BinaryOnly? ==> r == Failure(KeyErrorRaised(SecretStringKey))
  {
    match reply
    case SecretString(value) =>
      if value == Placeholder then Success("") else Success(value)
    case BinaryOnly =>
      Failure(KeyErrorRaised(SecretStringKey))
    case ClientError(code) =>
      if code == NotFoundCode then Success("") else Failure(ClientErrorRaised(code))
  }

  /**
   * The absence-aware reading the script encodes: a secret that is missing
   * or still holds the placeholder has no value.
   */
  function StoredValue(reply: StoreReply): (r: Result<Option<string>, Exception>)
    ensures r.Success? && r.value.Some? ==> reply == SecretString(r.value.value) && r.value.value != Placeholder
    ensures r == Success(None) <==> reply == SecretString(Placeholder) || reply == ClientError(NotFoundCode)
  {
    match reply
    case SecretString(value) =>
      if value == Placeholder then Success(None) else Success(Some(value))
    case BinaryOnly =>
      Failure(KeyErrorRaised(SecretStringKey))
    case ClientError(code) =>
      if code == NotFoundCode then Success(None) else Failure(ClientErrorRaised(code))
  }

  /** How the script writes an optional value on the string-only external-data transport. */
  function ToTransport(v: Option<string>): string
  {
    match v
    case None => ""
    case Some(s) => s
  }

  /** How the Terraform output reads the transported string: "" becomes null. */
  function TerraformOutput(s: string): (o: Option<string>)
    ensures o == None <==> s == ""
    ensures o.Some? ==> o.value == s
  {
    if s == "" then None else Some(s)
  }

  /** `get_secret` is the transport encoding of the absence-aware reading, exceptions included. */
  lemma GetSecretEncodesStoredValue(reply: StoreReply)
    ensures GetSecret(reply).Success? <==> StoredValue(reply).Success?
    ensures GetSecret(reply).Failure? ==> GetSecret(reply).error == StoredValue(reply).error
    ensures GetSecret(reply).Success? ==> GetSecret(reply).value == ToTransport(StoredValue(reply).value)
  {
  }

  /**
   * Round trip across the transport: the Terraform output sees exactly the
   * absence-aware value, except that a stored "" also reads as null; in
   * particular it never sees the placeholder.
   */
  lemma TerraformSeesStoredValue(reply: StoreReply)
    requires GetSecret(reply).Success?
    ensures reply != SecretString("") ==> TerraformOutput(GetSecret(reply).value) == StoredValue(reply).value
    ensures TerraformOutput(GetSecret(reply).value) != Some(Placeholder)
  {
  }
}
