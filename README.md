# OAuth 2.0 + PKCE login preparation, and the model configuration record

This Dafny project models two parts of the repository.

The first is the command-line OAuth 2.0 login of `scripts/oauth_login.py`:

- **PKCE parameters.** These are the code verifier, code challenge and state of RFC 7636. The verifier and state are unpadded base64url (section 5 of RFC 4648) of 32 random bytes. The challenge is the same encoding of the SHA-256 digest of the verifier. The `PKCEParams` field constraints are modelled as well.
- **`Auth0Config.load_from_env`.** It reads the environment.
- **`TokenStorage`.** It writes the token file owner-only, reads it back and removes it.
- **`OAuth2PKCEFlow`.** Its `build_authorization_url` draws fresh PKCE parameters into the flow object and urlencodes eight request parameters. Five are those of section 4.1.1 of RFC 6749 (`response_type`, `client_id`, `redirect_uri`, `scope`, `state`). Two are those of section 4.3 of RFC 7636 (`code_challenge`, `code_challenge_method`). The last, `audience`, is Auth0's own. Its `validate_callback_params` is the CSRF gate of section 10.12 of RFC 6749: it parses the redirect's query and accepts the code only when there is no `error` and the first `state` is the one drawn.

The second is `OpenAIModelConfig.from_dict` / `to_dict` of `src/config.py`, with `get_env_variable` of `src/utils.py` as the environment lookup.

The parts of the Python standard library the script relies on are modelled from their documented and implemented behaviour:

- `base64.urlsafe_b64encode` with `rstrip("=")`
- `str.encode("utf-8")`, and UTF-8 decoding with `errors="replace"`
- `urllib.parse.urlencode` / `quote_plus`, `unquote_plus`, `parse_qsl`, `parse_qs` and the query of `urlparse`
- `str.split`, `str.strip`, `str.join` and `int()`

Randomness and SHA-256 are parameters. Random bytes arrive as `Bytes32` / `Bytes16` values. SHA-256 is a function that returns 32 bytes. The process environment is a `map<string, string>`. The token file is an abstract state: `Absent`, `Stored(record)`, `Corrupt` (unreadable or not JSON) or `Undecodable` (not text in the locale's encoding).

Modules:

| module | file | models |
|---|---|---|
| `Wrappers` | wrappers.dfy | `Option`, `Result` |
| `Bytes` | bytes.dfy | bytes, hex digits, `bytes.hex()` |
| `Utf8` | utf8.dfy | UTF-8 encoding, and decoding with replacement |
| `Base64Url` | base64url.dfy | url-safe base64 with and without padding |
| `Text` | text.dfy | `split`, `join`, `strip`, `str(int)`, `int(str)` |
| `UrlCodec` | urlcodec.dfy | `quote_plus`, `urlencode`, `unquote_plus`, `parse_qsl`, `parse_qs`, `urlparse(...).query` |
| `Pkce` | pkce.dfy | `PKCEParams`, `PKCEGenerator` |
| `Auth0` | auth0_config.dfy | `Auth0Config`, `load_from_env` |
| `TokenStore` | token_storage.dfy | `TokenResponse`, `TokenStorage` |
| `OAuthFlow` | oauth_flow.dfy | `OAuth2PKCEFlow` |
| `ModelConfig` | model_config.dfy | `OpenAIModelConfig`, `get_env_variable` |

Bytes are the subset type `0 <= x < 256` of `int` rather than `bv8`, so the encoders are proved with integer division and remainder.

### What the script does and does not do

- **No callback listener, timeout or token exchange.** `scripts/oauth_login.py` has no loopback listener, no bounded wait and no request to `/oauth/token`. `requests` is imported and never used. The redirect URL is an argument of `validate_callback_params`.
- **One failure value.** `validate_callback_params` returns `("", False)` for every failure and `(code, True)` for success, and `CheckCallback` returns the same pair. Which guard refused a redirect shows only in the printed message. The lemmas `CallbackWithError`, `CallbackBlankCode` and `StaleStateRejected` each state one of the three refusals.
- **`saved_at`.** It is `secrets.token_hex(16)`: 32 lower-case hex digits of fresh random bytes, not a time.
- **Errors while saving.** An error while writing the token file propagates out of `save_tokens` as an exception. Those exceptions are not modelled (see below).

## Model

| member | source | states |
|---|---|---|
| Pkce.NewPkceParams | scripts/oauth_login.py:22-28 | building `PKCEParams` succeeds exactly when the verifier has 43 to 128 characters and the challenge and state are nonempty; a failure names at least one field |
| Pkce.GenerateCodeVerifier | scripts/oauth_login.py:105-116 | the verifier is exactly 43 characters of `[A-Za-z0-9_-]`, with no `=` |
| Pkce.GenerateCodeChallenge | scripts/oauth_login.py:119-128 | the challenge of any verifier is 43 base64url characters with no `=` |
| Pkce.GenerateState | scripts/oauth_login.py:131-133 | `token_urlsafe(32)` gives 43 base64url characters with no `=` |
| Pkce.GeneratePkceParams | scripts/oauth_login.py:136-147 | the parameters meet every `PKCEParams` constraint, so construction never raises; the challenge is the challenge of the verifier; the method is `S256` |
| Pkce.VerifierInjective | scripts/oauth_login.py:112-115 | different random bytes give different verifiers |
| Pkce.StateInjective | scripts/oauth_login.py:133 | different random bytes give different states |
| Pkce.ChallengeInputIsAscii | scripts/oauth_login.py:125 | the bytes hashed for the challenge are the verifier's 43 ASCII codes |
| Base64Url.EncodeNoPad | scripts/oauth_login.py:113-115 | `urlsafe_b64encode(b).decode().rstrip("=")`; its contract is carried by `EncodeNoPadShape`, `EncodeNoPadInjective` and `DecodeDigitsOfDigits` |
| Base64Url.EncodePadded | scripts/oauth_login.py:114 | padded base64 of `n` bytes has `4 * ceil(n / 3)` characters |
| Base64Url.EncodeNoPadShape | scripts/oauth_login.py:113-115 | after `rstrip("=")`, the encoding of `n` bytes has `ceil(4n / 3)` characters, all url-safe, none `=` |
| Base64Url.EncodeNoPadInjective | scripts/oauth_login.py:113-115 | unpadded base64url is injective; the proof decodes it back (`DecodeDigitsOfDigits`) |
| Base64Url.DecodeDigitsOfDigits | scripts/oauth_login.py:113-115 | decoding the unpadded digits gives the bytes back |
| Utf8.Encode | scripts/oauth_login.py:125 | `str.encode("utf-8")`, character by character; its contract is carried by `EncodeChar`, `DecodeEncode` and `EncodeAscii` |
| Utf8.DecodeReplace | scripts/oauth_login.py:241 | UTF-8 decoding with `errors="replace"`, one U+FFFD per maximal invalid subpart; its contract is carried by `DecodeEncode` |
| Utf8.EncodeChar | scripts/oauth_login.py:125 | a character encodes to 1 to 4 bytes; it is one byte, its own code, exactly when it is ASCII |
| Utf8.DecodeEncode | scripts/oauth_login.py:241 | decoding with replacement inverts UTF-8 encoding |
| Utf8.EncodeAscii | scripts/oauth_login.py:125 | an ASCII string encodes to its character codes |
| Bytes.HexLower | scripts/oauth_login.py:172 | `bytes.hex()` gives two lower-case hex digits per byte |
| Text.Split | scripts/oauth_login.py:87 | `split(",")` gives at least one piece, none holding the separator |
| Text.JoinSplit | scripts/oauth_login.py:87 | joining the pieces with the separator gives back the text |
| Text.SplitJoin | scripts/oauth_login.py:87 | splitting a join of separator-free pieces gives back the pieces |
| Text.Trim | scripts/oauth_login.py:87-90 | trimming gives the infix between a leading and a trailing run of the given whitespace, and the infix starts and ends with non-whitespace |
| Text.Strip | scripts/oauth_login.py:87 | `str.strip()` is `Trim` with the `str.isspace()` characters; its contract is `Trim`'s |
| Text.Join | scripts/oauth_login.py:222 | `sep.join(parts)`; its contract is carried by `JoinSplit` and `SplitJoin` (splitting and joining are inverse) |
| Text.SplitOnce | scripts/oauth_login.py:241 | the split at the first `c` is absent exactly when `c` does not occur; otherwise the prefix holds no `c` and the parts rebuild the text |
| Text.ParseInt | scripts/oauth_login.py:90 | `int()` of a string: `int()` whitespace (the six ASCII ones, and non-ASCII `str.isspace()` characters), a sign, digits with single underscores between them, at most 4300 digits; its contract is carried by `ParseIntToString`, `ParseIntRejectsSeparator` and `ParseIntRejectsLong` |
| Text.ParseIntToString | scripts/oauth_login.py:90 | `int(str(n)) == n` for every `n` of at most 4300 digits (beyond that `str(n)` itself raises) |
| Text.ParseIntRejectsSeparator | scripts/oauth_login.py:90 | `int()` rejects text starting with U+001C..U+001F, although `str.isspace()` holds of those characters |
| Text.ParseIntRejectsLong | scripts/oauth_login.py:90 | `int()` rejects more than 4300 decimal digits |
| Text.IntToString | scripts/oauth_login.py:215 | `str(n)` is nonempty and made of digits and `-` (its `ValueError` beyond 4300 digits is under "## Left out") |
| UrlCodec.QuotePlus | scripts/oauth_login.py:231 | `quote_plus(s)`: UTF-8 bytes, unreserved characters kept, space as `+`, everything else `%XX`; its contract is carried by `QuotePlusShape` and `UnquotePlusQuotePlus` |
| UrlCodec.UrlEncode | scripts/oauth_login.py:231 | `urlencode(pairs)`: `name=value` fields of `quote_plus`ed text joined by `&`, in order; its contract is carried by `ParseQslUrlEncode` and `UrlEncodeExcludes` |
| UrlCodec.UnquotePlus | scripts/oauth_login.py:241 | `unquote_plus(s)`: `+` as space, `%XX` escapes decoded as UTF-8 with replacement; its contract is carried by `UnquotePlusQuotePlus` and `UnquoteAscii` |
| UrlCodec.ParseQsl | scripts/oauth_login.py:241 | `parse_qsl(qs)`: the `&`-separated fields through `ParseField`, in order; its contract is carried by `ParseField` and `ParseQslUrlEncode` |
| UrlCodec.ParseQs | scripts/oauth_login.py:241 | `parse_qs(qs)`: the pairs of `parse_qsl` grouped by name; its contract is carried by `ParseQsValues` and `ParseQsOnly` |
| UrlCodec.UrlQuery | scripts/oauth_login.py:240 | the `query` of `urlparse(url)`: tab, CR and LF removed, cut at the first `#`, the text after the first `?`; its contract is carried by `UrlQueryOf` |
| UrlCodec.QuotePlusShape | scripts/oauth_login.py:231 | `quote_plus` output holds only unreserved characters, `+` and `%` |
| UrlCodec.UnquotePlusQuotePlus | scripts/oauth_login.py:231-241 | `unquote_plus(quote_plus(s)) == s` for every string |
| UrlCodec.UnquoteQuoteBytes | scripts/oauth_login.py:231-241 | percent-decoding inverts percent-encoding at the byte level |
| UrlCodec.ParseField | scripts/oauth_login.py:241 | a field yields a pair only when it has an `=` with a nonempty value after it; the pair is the unquoted name and value |
| UrlCodec.ParseEncodedField | scripts/oauth_login.py:231-241 | an urlencoded field parses back to its pair, or to nothing when the value is empty |
| UrlCodec.ParseQslUrlEncode | scripts/oauth_login.py:231-241 | `parse_qsl(urlencode(pairs))` gives back the pairs with nonempty values, in order |
| UrlCodec.NonBlank | scripts/oauth_login.py:241 | the kept pairs all have nonempty values and come from the input |
| UrlCodec.ParseQsValues | scripts/oauth_login.py:241-253 | a name is a key of `parse_qs` exactly when some pair carries it, and its list is that name's values in order |
| UrlCodec.ValuesOfPresent | scripts/oauth_login.py:244-253 | a name has values exactly when some pair carries it |
| UrlCodec.ValuesOfOnly | scripts/oauth_login.py:258 | a name carried by one pair has that pair's value as its only value |
| UrlCodec.ParseQsOnly | scripts/oauth_login.py:258 | `parse_qs(q)[name]` is the single value when one pair carries the name |
| UrlCodec.UrlEncodeExcludes | scripts/oauth_login.py:231 | `urlencode` output never holds `#`, `?`, whitespace or other characters outside unreserved, `+`, `%`, `=`, `&` |
| UrlCodec.UrlQueryOf | scripts/oauth_login.py:240 | the query of `base?q` is `q` when the base has no `?`, `#` or control characters and `q` no `#` or control characters |
| UrlCodec.UnquoteAscii | scripts/oauth_login.py:241 | unquoting ASCII text is UTF-8 decoding, with replacement, of its percent-decoded bytes |
| Auth0.LoadFromEnv | scripts/oauth_login.py:72-97 | a missing variable is a required one that is unset or empty; a rejected port names the port text read; a configuration is built only when the three required variables are set, from their values, with at least one scope |
| Auth0.LoadFromEnvRequired | scripts/oauth_login.py:73-83 | loading fails with a missing variable exactly when one of the three required variables is unset or empty, and it names the first such in the order checked |
| Auth0.LoadFromEnvFields | scripts/oauth_login.py:85-97 | with the required variables set, loading fails exactly when `int()` rejects the port text; otherwise the fields are the variables, the port is the parsed text, and the scopes are the stripped comma pieces, which rebuild the text |
| Auth0.LoadFromEnvDefaultPort | scripts/oauth_login.py:89-90 | without `AUTH0_REDIRECT_PORT` loading succeeds, with port 8080 |
| Auth0.LoadFromEnvDefaultScopes | scripts/oauth_login.py:86-87 | without `AUTH0_SCOPES` the scopes are `openid`, `profile`, `offline_access` |
| Auth0.StripEach | scripts/oauth_login.py:87 | the comprehension strips every piece, keeping their number |
| TokenStore.RecordOf | scripts/oauth_login.py:164-173 | the saved record carries every token field unchanged, with a `saved_at` of 32 lower-case hex digits |
| TokenStore.Read | scripts/oauth_login.py:182-192 | a load raises exactly for a file that is not text in the locale's encoding; otherwise it finds a record exactly when the file holds one, and returns it |
| TokenStore.ReadOrNone | scripts/oauth_login.py:182-192 | a load that catches every read error finds a record exactly when the file holds one, and None otherwise |
| TokenStore.ReadOrNoneAgrees | scripts/oauth_login.py:187-192 | the two loads agree on every file state except one that is not text, where `load_tokens` raises and the catching load gives None |
| TokenStore.TokenStorage.constructor | scripts/oauth_login.py:153-162 | the directory is owner-only (0o700) and an existing token file is left as it is |
| TokenStore.TokenStorage.SaveTokens | scripts/oauth_login.py:164-179 | the file then holds the new record and is owner read/write (0o600) |
| TokenStore.TokenStorage.LoadTokens | scripts/oauth_login.py:182-192 | returns the stored record; None for an absent, unreadable or non-JSON file; raises `UnicodeDecodeError` for a file that is not text |
| TokenStore.TokenStorage.LoadTokensOrNone | scripts/oauth_login.py:182-192 | the load with `UnicodeDecodeError` also caught: the stored record, or None for every other file state |
| TokenStore.TokenStorage.ClearTokens | scripts/oauth_login.py:194-198 | the file is gone afterwards; clearing an absent file changes nothing |
| TokenStore.SaveThenLoad | scripts/oauth_login.py:153-192 | save then load returns every saved token field, a 32-hex-digit `saved_at`, with modes 0o700 and 0o600 |
| TokenStore.ClearTwiceThenLoad | scripts/oauth_login.py:194-198 | a second clear changes nothing and a load after it finds nothing |
| TokenStore.UndecodableFileRaises | scripts/oauth_login.py:187-192 | loading a token file that is not text raises `UnicodeDecodeError`; the catching load returns None |
| OAuthFlow.CheckCallback | scripts/oauth_login.py:235-265 | the callback is accepted exactly when there is no `error`, `code` and `state` are present and the first `state` equals the expected one, so nothing is accepted while no parameters have been drawn; then the code is the first `code`, otherwise it is `""` |
| OAuthFlow.OAuth2PkceFlow.constructor | scripts/oauth_login.py:204-207 | the flow keeps the configuration, opens the `oauth-precommit` storage at 0o700 over the token file already on disk, and holds no PKCE parameters |
| OAuthFlow.OAuth2PkceFlow.BuildAuthorizationUrl | scripts/oauth_login.py:209-233 | the flow's parameters are replaced by fresh ones, and the URL is the one built from them |
| OAuthFlow.OAuth2PkceFlow.ValidateCallbackParams | scripts/oauth_login.py:257-261 | acceptance implies that parameters were drawn and that the first received state equals theirs |
| OAuthFlow.AuthorizationUrlParams | scripts/oauth_login.py:214-233 | on a plain host with nonempty values, the query of the URL parses back to exactly the eight parameters in order; `parse_qs` finds the drawn state and challenge |
| OAuthFlow.EncodedQuery | scripts/oauth_login.py:231-241 | the query of `base?urlencode(pairs)` parses back to the pairs with nonempty values |
| OAuthFlow.CallbackWithCode | scripts/oauth_login.py:257-265 | a redirect with a nonempty code and state is accepted with that code exactly when the state is the expected one |
| OAuthFlow.CallbackWithError | scripts/oauth_login.py:243-250 | any redirect carrying a non-blank `error` is refused, whatever else it carries; a blank `error=` is dropped by `parse_qs` and does not refuse |
| OAuthFlow.CallbackBlankCode | scripts/oauth_login.py:252-255 | `code=` with an empty value counts as missing and the redirect is refused |
| OAuthFlow.StaleStateRejected | scripts/oauth_login.py:209-261 | once new parameters are drawn from different bytes, a redirect carrying the earlier state is refused |
| OAuthFlow.RedirectUri | scripts/oauth_login.py:215 | `f"http://localhost:{port}/callback"`; its contract is carried by `RedirectUriPlain` |
| OAuthFlow.AuthorizationParams | scripts/oauth_login.py:218-227 | the eight pairs in the dictionary's order; its contract is carried by `AuthorizationUrlParams` (the server reads exactly these back) and `AuthorizationNames` (only the seventh is `state`, only the fifth `code_challenge`) |
| OAuthFlow.AuthorizationUrl | scripts/oauth_login.py:230-231 | `https://{domain}/authorize?` followed by the urlencoded pairs; its contract is carried by `AuthorizationUrlParams` |
| OAuthFlow.RedirectUriPlain | scripts/oauth_login.py:215 | the redirect URI holds no `?`, `#` or control characters for any port |
| OAuthFlow.Reauthorize | scripts/oauth_login.py:204-265 | the redirect answering the flow's first URL is refused before that URL is built, accepted with its code once it is built, and refused again after a rebuild from different bytes |
| ModelConfig.GetEnvVariable | src/utils.py:7-12 | the lookup fails exactly when the variable is unset; an empty value is returned as is |
| ModelConfig.FromDict | src/config.py:24-32 | `from_dict` fails exactly when `OPENAI_API_KEY` is unset, even if `client_args` is supplied; otherwise each field is the dictionary's entry or its default (`gpt-4o`; 800 tokens at temperature 0.1; the API key under `api_key`) |
| ModelConfig.ToDict | src/config.py:34-39 | exactly the keys `model_id`, `params` and `client_args`, each with its field's value |
| ModelConfig.FromDictToDict | src/config.py:24-39 | `from_dict(to_dict(c)) == c` when `OPENAI_API_KEY` is set |
| ModelConfig.FromDictEmpty | src/config.py:27-31 | an empty dictionary gives the three defaults |

## Left out

- Randomness (`secrets.token_bytes`, `token_urlsafe`, `token_hex`) is not modelled. The drawn bytes are parameters, so only the shape and injectivity of what is built from them are proved.
- SHA-256 internals are not modelled. The digest is a parameter function known only to return 32 bytes.
- `load_dotenv` is not modelled, including the rule that it does not override variables already set. The environment is the map after loading.
- `os.getenv`'s process environment, and the `env_file` argument, are not modelled.
- `int()` on non-ASCII decimal digits is not modelled: the model rejects them where `int()` accepts them. ASCII digits, a sign, single underscores between digits and the whitespace `int()` skips are modelled.
- The 4300-digit limit of `int()` is the default of `sys.get_int_max_str_digits()`. `PYTHONINTMAXSTRDIGITS`, `-X int_max_str_digits`, `sys.set_int_max_str_digits` and Python versions without the limit are not modelled.
- Text.IntToString: `str(n)` raises `ValueError` for more than 4300 digits under the default `sys.get_int_max_str_digits()`; `IntToString` returns the digits of every `n`.
- OAuthFlow.RedirectUri: the f-string's `str()` of a port of more than 4300 digits raises `ValueError`, so `build_authorization_url` raises where `RedirectUri`, `AuthorizationUrl` and `BuildAuthorizationUrl` return a URL. `load_from_env` cannot produce such a port (its `int()` rejects it); only an `Auth0Config` built directly can.
- LoadFromEnvFields: "fails exactly when `int()` rejects the port text" holds for ports written in ASCII digits and under the default digit limit; a port written in non-ASCII decimal digits, which `int()` accepts, is rejected by the model.
- Paths are not modelled: `Path.home()`, `~/.config/<app_name>` and `tokens.json`. Storage is one abstract file plus its mode and its directory's mode.
- Filesystem failures are not modelled: `mkdir` or `chmod` errors, write errors in `save_tokens`, `unlink` errors in `clear_tokens`. A write either happens or is outside the model.
- The JSON text of the token file, and a file holding valid JSON that `save_tokens` did not write, are not modelled. Such a file would be returned as is by `load_tokens`. The model's `Corrupt` covers unreadable or non-JSON files, and `Undecodable` files whose bytes are not text in the locale's encoding; the locale itself is not modelled.
- The moment between writing the token file and `chmod` to 0o600, when the file has the process's default mode, is not modelled. `SaveTokens` is atomic.
- Every `print` is left out. This includes the `error` / `error_description` diagnostics of `validate_callback_params` and the `main()` demonstration.
- The `ValueError`s that `urlparse` raises on the network location are not modelled: a malformed bracketed IPv6 host, and a non-ASCII host that NFKC normalisation turns into one holding `/`, `?`, `#`, `@` or `:`. `UrlQuery` models only the query component and returns a query for such URLs.
- Lone surrogates are not modelled: a Dafny `char` is a Unicode scalar value. On POSIX, `os.getenv` returns lone surrogates for environment bytes that are not valid in the file system encoding. For such a `client_id`, `audience` or scope, `quote_plus` raises `UnicodeEncodeError` in `build_authorization_url`, where the model always returns a URL.
- Dictionary iteration order is a sequence where the code lists pairs (`urlencode`). It is a map where only lookups matter (`parse_qs`, `from_dict`, `to_dict`).
- pydantic's type coercion is not modelled. The fields are typed in Dafny.
- `OpenAIModelConfig` field values are opaque `Value`s. `from_dict` does not check that `params` or `client_args` are dictionaries, and neither does the model. The temperature `0.1` is the real 0.1, not its binary floating-point value.
- The callback listener, bounded wait and token exchange are not modelled, because the code does not contain them.
- `ValidateCallbackParams`: its own contract states only the CSRF direction (acceptance implies a matching state). The full decision, both directions, is on `CheckCallback`, which it returns.
- `load_json_config` and `load_markdown_file` of src/utils.py are not modelled. They are plain file reads.

## Findings

| source | as written | input that shows it | evidently intended | confidence | as-written member | corrected member |
|---|---|---|---|---|---|---|
| scripts/oauth_login.py:187-192 | `load_tokens` catches only `json.JSONDecodeError` and `IOError`, so the `UnicodeDecodeError` raised while reading a file that is not text in the locale's encoding escapes it | a `tokens.json` holding the single byte 0xFF, read under a UTF-8 locale (`UndecodableFileRaises`) | an unreadable token file reads as no tokens (None), as the handler does for the other unreadable files | not executed; likely | TokenStore.TokenStorage.LoadTokens | TokenStore.TokenStorage.LoadTokensOrNone |
