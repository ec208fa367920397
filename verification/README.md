# Entra ID authentication for Azure Database for PostgreSQL — a Dafny model

This project models `python/entra_connection.py`, the piece of the samples that
lets a psycopg connection log in to Azure Database for PostgreSQL with a
Microsoft Entra ID bearer token instead of a static password. It covers:

- `decode_jwt`: the second `.`-separated segment of a compact JWS/JWT
  (section 7.1 of RFC 7515, as RFC 7519 uses it) is right-padded with
  `4 - len % 4` `=` characters, Base64URL-decoded (section 5 of RFC 4648) and
  parsed as JSON;
- `parse_principal_name`: the managed-identity name is the text after the last
  `/` of an `xms_mirid` resource path, kept only when the text before it ends,
  ignoring case, with `providers/microsoft.managedidentity/userassignedidentities`;
- `get_entra_conninfo`: a token for the database scope is decoded and the
  claims `xms_mirid` (parsed), `upn`, `preferred_username`, `unique_name` are
  tried in that order; only if none is truthy is a token for the management
  scope requested and tried the same way; if that also fails a `ValueError` is
  raised; otherwise `{"user": username, "password": token}` is returned, where
  the token is the last one requested;
- `AsyncEntraConnection.connect`: it fetches the conninfo when `user` or
  `password` is missing and merges it into the keyword arguments.

Modules, one per concern of the source:

| file | module | contents |
|---|---|---|
| `wrappers.dfy` | `Wrappers` | `Option` (a Python `None`) and `Result` (a raised exception) |
| `errors.dfy` | `Errors` | one constructor per exception the code raises or lets through |
| `text.dfy` | `Text` | `str.split`, `str.rfind`, `str.lower`, `str.endswith` over `string` |
| `base64.dfy` | `Base64` | `base64.urlsafe_b64decode` as CPython's non-strict decoder runs it, and an unpadded Base64URL encoder as its partner |
| `claims.dfy` | `Claims` | Python values with truthiness, `parse_principal_name`, the username expression |
| `jwt.dfy` | `Jwt` | `decode_jwt`: segment selection, padding, decoding |
| `entra_connection.dfy` | `EntraConnection` | scopes, the credential, `get_entra_conninfo`, `connect` |

The credential is a function from scope to a token string or an error
message. The scopes are `Database` and `Management`, which stand for the URIs
`https://ossrdbms-aad.database.windows.net/.default` and
`https://management.azure.com/.default` (`ScopeUri`, python/entra_connection.py:27-28);
every operation that requests tokens
returns the scopes it asked for, in order (`Traced`). JSON parsing is a
function parameter from bytes to an optional value. Python values are a
datatype `Value` (`Null`, `Str`, `Dict`, or `Other` with its truthiness), so
that claim values and keyword arguments of any JSON type behave as Python's
`or` and `not` treat them.

The Base64 decoder follows CPython's `binascii.a2b_base64` with
`strict_mode=False`, which is what `urlsafe_b64decode` uses: the input must be
ASCII; characters outside the alphabet are skipped; `=` before the second
character of a quad is ignored; the `=` that completes a quad stops decoding;
input that ends one character into a quad raises "cannot be 1 more than a
multiple of 4", and input that ends two or three characters into a quad
without enough `=` raises "Incorrect padding". This is why padding with four
`=` after a whole number of quads is harmless (`Jwt.PaddedPayloadDecodes`) and
why a payload of alphabet characters only, of length `4k + 1`, always fails
(`Jwt.PaddedPayloadLength`).

## Behaviour worth noting

- The database scope is requested first; the management scope is requested
  only as a fallback, when the database token's claims yield no username
  (python/entra_connection.py:131 and :144).
- `decode_jwt` reads `split(".")[1]` without checking the number of
  segments. A token without `.` raises `IndexError`, and ASCII, Base64 and
  JSON errors propagate to the caller; a decoding error in the database
  round is raised at once, with no fallback (:84-87, :134).
- The padding is always `4 - len % 4` `=` characters, so a payload whose
  length is a multiple of four gets four `=`, which the decoder ignores
  after a whole number of quads (:85).
- In `connect`, a caller `user` without a `password` still triggers
  resolution and is then overwritten by the final merge; a caller `user`
  together with a `password` makes `connect` raise `UnboundLocalError`
  (:187-194). Both are recorded under Findings below.

## Model

| member | source | states |
|---|---|---|
| Text.RFind | python/entra_connection.py:103 | `rfind('/')` is -1 exactly when there is no `/`; otherwise it is a `/` with none after it |
| Text.RFindLast | python/entra_connection.py:103-108 | in `a + "/" + b` with no `/` in `b`, the last slash is the one right after `a`, whatever `a` holds |
| Text.Split | python/entra_connection.py:84 | `split(".")` yields at least one piece, no piece contains `.`, joining the pieces gives the input, and there are two or more pieces exactly when the input contains `.` |
| Text.LowerMeaning | python/entra_connection.py:110 | `.lower()` keeps the length, leaves no upper-case ASCII letter, and changes a character only when it is one, to the letter 32 code points above |
| Text.LowerIdempotent | python/entra_connection.py:110 | lower-casing an already lower-cased text changes nothing |
| Text.EndsWithMeaning | python/entra_connection.py:110 | `.endswith(suffix)` holds exactly when the text is some text followed by `suffix` |
| Text.SplitJoin | python/entra_connection.py:84 | splitting the join of `.`-free pieces returns those pieces |
| Claims.ParsePrincipalName | python/entra_connection.py:89-113 | empty input or input without `/` gives `None`; a result is non-empty, `/`-free, is the text after the last `/`, and the text before it ends case-insensitively with the identity suffix |
| Claims.ParsePrincipalNameSplit | python/entra_connection.py:103-113 | for every `prefix + "/" + name` with `/`-free `name`: the result is `name` exactly when `name` is non-empty and the lower-cased prefix ends with the suffix, else `None` |
| Claims.DocumentedPathExample | python/entra_connection.py:101-113 | the resource path in the source's comment, with its mixed-case provider segment, yields `{principalName}` |
| Claims.FalsyValues | python/entra_connection.py:135-141 | the values `not` and `or` treat as false are exactly `None`, `""`, `{}` and a falsy other value |
| Claims.Lookup | python/entra_connection.py:136-139 | `.get(key)` is the entry when the key is present and a falsy `None` otherwise |
| Claims.LookupAfterUpdate | python/entra_connection.py:184-193 | after `d[k] = x` the key `k` reads `x` and after `pop(k)` it reads `None`; every other key reads as before |
| Claims.PrincipalOfClaim | python/entra_connection.py:98-99 | a falsy `xms_mirid` gives `None`; a truthy non-string raises; a truthy string gives `parse_principal_name` of it |
| Claims.Username | python/entra_connection.py:135-140 | non-object claims raise; otherwise the result is truthy exactly when one of the four candidates is, and then it is the first truthy candidate in the order `xms_mirid`, `upn`, `preferred_username`, `unique_name` |
| Claims.UsernamePriority | python/entra_connection.py:135-140 | claim by claim: a parsed managed-identity name wins; `upn` is used only when that is missing; `preferred_username` only when both are falsy; otherwise `unique_name` |
| Jwt.PayloadSegment | python/entra_connection.py:84 | the segment exists exactly when the token contains `.`, otherwise `IndexError`; the segment contains no `.` |
| Jwt.PayloadSegmentOf | python/entra_connection.py:84 | for `header + "." + payload + rest` with `rest` empty or starting with `.`, the segment is `payload`: the other segments and their number are ignored |
| Jwt.Padding | python/entra_connection.py:85 | the padding is 1 to 4 `=` characters and makes the length a multiple of 4 |
| Jwt.DecodeJwt | python/entra_connection.py:75-87 | a token without `.` raises `IndexError`; every failure is a segment, ASCII, Base64 or JSON error |
| Jwt.DecodeJwtOutcome | python/entra_connection.py:84-87 | with a payload segment, a decoding error of the padded segment is what `decode_jwt` raises; otherwise it succeeds exactly when the parser does, with the parser's value |
| Jwt.DecodeJwtDataLength | python/entra_connection.py:84-86 | a payload segment of alphabet characters of length `4k + 1` makes `decode_jwt` raise the data-length error, whatever the parser and the other segments |
| Jwt.DecodeJwtNonAscii | python/entra_connection.py:84-86 | a payload segment holding a non-ASCII character makes `decode_jwt` raise `ValueError`, whatever the parser and the other segments |
| Jwt.PaddedPayloadDecodes | python/entra_connection.py:84-86 | the padded Base64URL encoding of any bytes decodes to exactly those bytes, including the four-`=` case |
| Jwt.PaddedPayloadLength | python/entra_connection.py:85-86 | a payload of alphabet characters decodes exactly when its length is not `4k + 1`; at `4k + 1` it raises the data-length error |
| Jwt.DecodeJwtOfEncoded | python/entra_connection.py:84-87 | a token whose second segment encodes `b` decodes to the parser's result on `b`, whatever the other segments are |
| Base64.Run | python/entra_connection.py:86 | the non-strict decoder loop raises only the data-length or padding error |
| Base64.UrlSafeDecode | python/entra_connection.py:86 | a non-ASCII string raises `ValueError`; the only other failures are the two Base64 errors |
| Base64.RunPads | python/entra_connection.py:85-86 | after a run of `=`: at the start of a quad decoding succeeds, one character into a quad it fails, two into a quad it needs two `=`, three into a quad it needs one |
| Base64.RunEncoded | python/entra_connection.py:86 | the encoding of any bytes followed by enough `=` decodes back to those bytes |
| Base64.EncodeLength | python/entra_connection.py:85 | an encoding of `n` bytes has length `0` modulo 4 when `n` is a multiple of 3 and `n % 3 + 1` otherwise, which is what the `4 - len % 4` padding is computed from |
| Base64.DecodeEncode | python/entra_connection.py:86 | `urlsafe_b64decode` inverts the Base64URL encoding when enough `=` follow |
| Base64.PaddedDataDecodes | python/entra_connection.py:85-86 | alphabet-only input padded to a multiple of 4 decodes exactly when its length is not `4k + 1` |
| EntraConnection.Probe | python/entra_connection.py:130-140 | a round succeeds only with the credential's token for that scope, which contains `.`, and the username comes from that token's decoded claims; credential errors propagate unchanged |
| EntraConnection.ProbeOutcome | python/entra_connection.py:134-140 | with a token in hand, a round raises exactly the error of `decode_jwt` or of the username expression, and succeeds exactly when both do |
| EntraConnection.ResolveConnInfo | python/entra_connection.py:116-161 | the database scope is always requested first; the management scope is requested exactly when the database claims yield no username; `ValueError` exactly when both yield none; on success the user is truthy and the password is the last token requested, a token containing `.`, from whose claims the user came; other errors come from the last round |
| EntraConnection.ResolveReadsOnlyRequested | python/entra_connection.py:130-153 | two credentials that agree on the requested scopes give the same result and trace, so the management token is never consulted when the database token names the user |
| EntraConnection.DatabaseDecodeErrorStops | python/entra_connection.py:131-134 | a database token that `decode_jwt` rejects makes `get_entra_conninfo` raise that error after one request, without trying the management scope |
| EntraConnection.DatabaseTokenDataLength | python/entra_connection.py:131-134 | end to end: a database token whose alphabet-only payload has length `4k + 1` raises the data-length error after one request |
| EntraConnection.DatabaseTokenUpn | python/entra_connection.py:130-161 | a database token whose claims carry `upn` and no `xms_mirid` resolves to that `upn` with that token as password after one request |
| EntraConnection.ManagementTokenManagedIdentity | python/entra_connection.py:141-161 | when the database claims name no user and the management token's `xms_mirid` is an identity path, the identity name is the user and the management token is the password, after two requests |
| EntraConnection.Connect | python/entra_connection.py:168-194 | a truthy non-credential raises `ValueError`; tokens are requested exactly when `user` or `password` is missing; `credential` is never passed on |
| EntraConnection.Rejected | python/entra_connection.py:185-186 | the `credential` keyword is rejected exactly when it is a truthy value that is not a token credential |
| EntraConnection.NeedsConnInfo | python/entra_connection.py:187 | conninfo is resolved unless both `user` and `password` are present and truthy |
| EntraConnection.Fill | python/entra_connection.py:190-193 | after the two assignments the keywords are the caller's plus `user` and `password` |
| EntraConnection.FillKeeps | python/entra_connection.py:190-193 | after the two assignments, `password` is the token, a truthy caller `user` is kept, a falsy or missing one becomes the resolved user, and no other keyword changes |
| EntraConnection.MergeOverrides | python/entra_connection.py:194 | merging the conninfo dictionary last makes its `user` and `password` win over the keywords, and no other keyword changes |
| EntraConnection.ConnectMergesConnInfo | python/entra_connection.py:187-194 | when resolving, `connect` fails exactly when `get_entra_conninfo` does; otherwise `user` and `password` both come from the conninfo, the password is the last token requested, and every other keyword is unchanged |
| EntraConnection.ConnectBothSuppliedRaises | python/entra_connection.py:187-194 | with both `user` and `password` supplied, no token is requested and `connect` raises `UnboundLocalError` |
| EntraConnection.ConnectOverridesCallerUser | python/entra_connection.py:191-194 | a caller-supplied `user` is replaced whenever the resolved username differs from it |
| EntraConnection.ConnectOverridesCallerUserExample | python/entra_connection.py:187-194 | `user="svc"` with no password and a token whose payload is the JSON text `{"upn":"alice@contoso.com"}` is passed on as `user="alice@contoso.com"` after one database request |
| EntraConnection.ConnectIntended | python/entra_connection.py:187-194 | corrected `connect`: supplied `user` and `password` pass through untouched with no token request |
| EntraConnection.ConnectIntendedKeepsCallerUser | python/entra_connection.py:191-194 | corrected `connect` keeps a caller `user`, always passes a truthy user and password, and leaves other keywords unchanged |
| EntraConnection.ConnectIntendedAgrees | python/entra_connection.py:187-194 | where tokens are requested the corrected `connect` requests the same scopes as the code as written, and whenever the code as written succeeds the corrected one succeeds with the same password |

## Findings

| source | as written | input that shows it | evidently intended | confidence | as-written member | corrected member |
|---|---|---|---|---|---|---|
| python/entra_connection.py:187-194 | when `user` and `password` are both truthy the `if` body is skipped, so `kwargs \| entra_conninfo` reads a local that was never assigned and raises `UnboundLocalError` | `connect(user="svc", password="secret")` | pass the caller's keyword arguments through unchanged | high; not executed | EntraConnection.ConnectBothSuppliedRaises | EntraConnection.ConnectIntended |
| python/entra_connection.py:191-194 | the final `kwargs \| entra_conninfo` replaces a caller-supplied `user` with the token's username, although lines 191-193 only set `user` when it is missing | `connect(user="svc")` with a database token whose `upn` is `alice@contoso.com` connects as `alice@contoso.com` | keep `user="svc"`, as the comment at line 192 says | medium; not executed | EntraConnection.ConnectOverridesCallerUserExample | EntraConnection.ConnectIntendedKeepsCallerUser |

## Left out

- Token acquisition (`get_entra_token_async`, `get_entra_token`, `async with credential`, `DefaultAzureCredential` and its `lru_cache` singleton, python/entra_connection.py:33-72): these are Azure SDK calls. The credential is a function parameter, and the default credential is a parameter of `Connect`. `get_entra_conninfo(None)` is not modelled separately, because `connect` never passes `None`.
- The `isinstance` dispatch between the asynchronous and synchronous credential (lines 130, 133, 143, 146): both branches request the same scope and return the token string, so they are one function here.
- The `isinstance` check on the `credential` keyword (line 185) is a tag: `Given`, `Omitted`, or `NotACredential` with its truthiness.
- `json.loads` and the UTF-8 (or UTF-16/32) decoding of the payload bytes: a parser parameter that may fail.
- `super().connect`, positional arguments and the connection itself: network I/O. `Connect` returns the keyword arguments it would pass on.
- Logging.
- The sample scripts (python/sample.py, python/psycopg2/sample.py, python/psycopg3/sample.py, python/sqlalchemy/sample.py): CLI and pool setup with no logic of their own.
- Text.Lower: only ASCII letters are lower-cased. The suffix it is compared with is ASCII and contains no `k`. The only non-ASCII characters whose lower case contains ASCII letters are KELVIN SIGN (to `k`) and U+0130 (to `i` plus a combining dot), so neither can change the outcome of the suffix test.
- Credential errors are carried as their message string; which exception class the Azure SDK raises is not modelled.
