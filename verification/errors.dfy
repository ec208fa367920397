/** The exceptions the modelled Python code can raise, one constructor per
    distinct raise site or propagated library error. */
module Errors {

  datatype Error =
      /** `IndexError`: `token.split(".")[1]` on a token without a `.` */
    | NoPayloadSegment
      /** `ValueError`: `urlsafe_b64decode` is given a str with a non-ASCII character */
    | NonAsciiPayload
      /** `binascii.Error`: the number of Base64 data characters is one more than a multiple of 4 */
    | Base64DataLength
      /** `binascii.Error`: "Incorrect padding" */
    | Base64Padding
      /** `json.JSONDecodeError` or `UnicodeDecodeError` from `json.loads` */
    | MalformedJson
      /** `AttributeError`: the decoded payload is not a JSON object, so it has no `.get` */
    | ClaimsNotObject
      /** `AttributeError`: a truthy `xms_mirid` claim that is not a string has no `.rfind` */
    | MiridNotString
      /** `ValueError`: neither token's claims yield a username */
    | UsernameUnresolved
      /** an error raised by the credential's `get_token`, propagated unchanged */
    | CredentialFailed(reason: string)
      /** `ValueError`: the `credential` keyword is not a token credential */
    | InvalidCredential
      /** `UnboundLocalError`: `entra_conninfo` is read without having been assigned */
    | ConninfoUnbound
}
