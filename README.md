# go-parodus device-identity bootstrap, in Dafny

A model of the part of go-parodus that derives and validates a managed
device's identity before the upstream session is opened:

- `Provide` (config.go) turns the raw flag values into a `Config`: it
  lower-cases the MAC, appends `/api/v2/device` to the upstream URL, derives
  `DeviceID` as `mac:` and the MAC without colons, and returns the populated
  configuration together with the verdict of `validateConfig`;
- `validateConfig` (config.go) checks, in this order, that model, serial and
  manufacturer are set, that the MAC passes `validateMAC`, and that the URL is
  set, returning the first failure;
- `validateMAC` (utils.go) accepts a string when its regular expression
  matches anywhere in it: six hex pairs with an optional `:` or `-` after
  each of the first five, or three dot-separated groups of four hex digits;
- the pure part of `getThemisToken` (utils.go): the GET request with its ten
  `X-Midt-*` headers, and the rule that turns the reply into the token.

Files, one module each: `wrappers.dfy` (`Option`), `go_strings.dfy` (the two
Go `strings` operations used), `mac_address.dfy` (`validateMAC`),
`device_config.dfy` (`Provide`, `validateConfig`), `themis_token.dfy`
(`getThemisToken`).

The MAC check is given twice. `MacAddress.ContainsMac` is the meaning of the
regular expression: some substring belongs to its language, a grammar on whole
strings that allows both ways of matching each optional separator.
`MacAddress.ValidateMAC` is a deterministic matcher tried at every start
position. `MacAddress.ValidateMACCorrect` proves that the two agree; the other
properties of the check are proved from whichever side is more convenient.

The flag set, the version-print callback, the HTTP client and the UUID
generator are not modelled: the flag values arrive as a `Flags` record, the
UUID is a parameter, and the HTTP exchange is a function from the request to
either a transport failure or a response (status, body bytes read, optional
read error).

Three consequences of the code that are easy to miss:

- the MAC is only lower-cased, never rewritten into colon-delimited form;
- the URL check in `validateConfig` cannot fail for a configuration built by
  `Provide`, because the path is appended first (`ProvideNeverMissingURL`);
- a response whose body read fails still yields the bytes read as the token,
  next to the error.

## Model

| member | source | states |
|---|---|---|
| GoStrings.LowerChar | config.go:133 | ASCII upper-case letters are shifted to lower case; every other character is kept |
| GoStrings.ToLower | config.go:133 | same length as the input, each character lower-cased, and no ASCII upper-case letter left |
| GoStrings.ToLowerIdempotent | config.go:133 | lower-casing an already lower-cased string changes nothing |
| GoStrings.ColonSurvivesLower | config.go:133 | a string has a ':' exactly when its lower-cased form has one |
| GoStrings.StripColons | config.go:148 | the result holds no ':', is no longer than the input, and is strictly shorter when the input had a ':' |
| GoStrings.StripColonsConcat | config.go:148 | colon removal distributes over concatenation, so the kept characters stay in order |
| GoStrings.StripColonsKeepsColonFree | config.go:148 | a string without ':' is returned unchanged |
| GoStrings.StripColonsCounts | config.go:148 | every character other than ':' occurs in the result as often as in the input |
| MacAddress.PairGroups | utils.go:36 | a string of the first alternative's grammar with n optional separators has between 2n+2 and 3n+2 characters |
| MacAddress.MacShaped | utils.go:36 | a string in the language of the expression has between 12 and 17 characters |
| MacAddress.ContainsMac | utils.go:36-39 | the meaning of "at least one match": some substring is in the language, which needs at least 12 characters |
| MacAddress.ValidateMAC | utils.go:30-44 | the check tried at every start position; it accepts only inputs of at least 12 characters, and `ValidateMACCorrect` shows it decides exactly `ContainsMac` |
| MacAddress.PairsEnd | utils.go:36 | a match of the first alternative from position i ends inside the string, after at least 2n+2 characters |
| MacAddress.PairsEndSound | utils.go:36 | what the deterministic matcher finds is a string of the first alternative's grammar |
| MacAddress.PairsEndComplete | utils.go:36 | every substring in the first alternative's grammar is found by the matcher, with the same end |
| MacAddress.QuadsAtSpec | utils.go:36 | the dotted-form matcher holds exactly when the 14 characters from i are three dot-separated hex quads |
| MacAddress.MatchAtSpec | utils.go:36-37 | a match starts at i exactly when some substring starting at i is in the expression's language |
| MacAddress.ValidateMACCorrect | utils.go:36-43 | validateMAC holds exactly when some substring has one of the two shapes |
| MacAddress.SubstringLoose | utils.go:37-39 | if validateMAC(s) holds then validateMAC(p + s + q) holds for all p and q |
| MacAddress.InterleaveGroups | utils.go:36 | hex pairs joined by separators that are each empty, ':' or '-' form a string of the first alternative's grammar |
| MacAddress.AnySeparatorsAccepted | utils.go:36 | six hex pairs with any mix of empty, ':' and '-' separators are accepted |
| MacAddress.TwelveHexDigitsAccepted | utils.go:36 | twelve consecutive hex digits with no separators are accepted |
| MacAddress.DottedQuadsAccepted | utils.go:36 | three dot-separated groups of four hex digits are accepted |
| MacAddress.LowerCharClasses | utils.go:36 | lower-casing keeps hex digits, separators and dots in their classes |
| MacAddress.PairsEndLower | utils.go:36 | the first-alternative matcher gives the same result on the lower-cased string |
| MacAddress.ValidateMACIgnoresCase | utils.go:36 | validateMAC gives the same verdict on a string and on its lower-cased form |
| MacAddress.DefaultMACAccepted | config.go:68 | the default MAC `11:22:33:44:55:66` is accepted |
| DeviceConfig.Message | config.go:167-179 | the `fmt.Errorf` text: a missing-field message starts with the key and adds ` must be set`; a bad-MAC message ends with the MAC after the 17-character prefix `bad mac address: ` |
| DeviceConfig.ConfigValid | config.go:165-182 | the conditions under which `validateConfig` returns nil; a valid configuration has a model, a URL and a MAC of at least 12 characters |
| DeviceConfig.ValidateConfig | config.go:165-182 | no error exactly when model, serial and manufacturer are set, the MAC is valid and the URL is set; otherwise the first failing check in the order model, serial, manufacturer, MAC, URL decides the error |
| DeviceConfig.Provide | config.go:127-163 | the error is the validation of the returned config; the config is populated whatever the error: copied fields, lower-cased MAC, URL with the path appended, DeviceID `mac:` plus the MAC without colons, Protocol and UUID empty |
| DeviceConfig.ProvideLowersMAC | config.go:132-133 | the stored MAC has the input's length, no ASCII upper-case letter, and is its own lower-cased form |
| DeviceConfig.ProvideAppendsPathOnce | config.go:138-139 | the stored URL is the input URL followed by exactly one `/api/v2/device` |
| DeviceConfig.ProvideDeviceID | config.go:148 | DeviceID starts with `mac:`; the rest holds no ':' and keeps every other character of the lower-cased MAC, dashes and dots included, as often as it occurs |
| DeviceConfig.StripColonDelimited | config.go:148 | for a MAC of colon-free groups joined by ':' the DeviceID suffix is the groups run together |
| DeviceConfig.ProvideErrorIff | config.go:162-182 | Provide reports no error exactly when model, serial and manufacturer flags are set and the raw MAC, in any case, is valid |
| DeviceConfig.ProvideNeverMissingURL | config.go:178-180 | the URL check never fires on a config built by Provide |
| DeviceConfig.ProvideModelCheckedFirst | config.go:166-168 | an empty model gives the `hw-model must be set` error whatever the other flags hold |
| DeviceConfig.ProvideBadMAC | config.go:175-177 | a bad MAC is reported exactly when the three string flags are set and the MAC is invalid, and the error carries the lower-cased MAC |
| DeviceConfig.ExampleProvide | config.go:127-163 | `AA:BB:CC:DD:EE:FF`, `X1`, `S123`, `Acme`, `https://host:1234` give URL `https://host:1234/api/v2/device`, DeviceID `mac:aabbccddeeff` and no error |
| ThemisToken.EveryHeaderListed | utils.go:68-79 | the set of header names holds every header |
| ThemisToken.WireName | utils.go:68-79 | each header's wire name starts with `X-Midt-`; its length and eighth character are those listed by `NameSignature` |
| ThemisToken.WireNameInjective | utils.go:68-79 | the ten wire names are pairwise different, so no Set call overwrites another |
| ThemisToken.TokenRequest | utils.go:67-79 | a GET of the token URL with exactly the ten headers, each holding one value: `mac:` plus the MAC with colons, the serial, the supplied UUID, and the other seven fields verbatim |
| ThemisToken.GetThemisToken | utils.go:81-91 | a transport failure gives the empty token and that error; otherwise the token is the body bytes read, unchanged, with the read error if any |
| ThemisToken.TokenOnlyFromBody | utils.go:81-91 | a non-empty token comes from a response, and there is no error exactly when a response was read in full |
| ThemisToken.StatusIgnored | utils.go:63-65 | the response status plays no part, so a redirect's body is the token like any other |
| ThemisToken.ProvidedRequestHeaders | utils.go:68-77 | for a Provide'd config the MAC header is `mac:` plus the lower-cased MAC, differing from DeviceID exactly when the MAC has a colon; the protocol header is empty; the serial header is the raw flag |

## Left out

- `SetupFlagSet` and the pflag lookups, with their defaults and the boot time taken from the clock: the flag values are the `Flags` input.
- The `PrintVersionFunc` call in `Provide` when the version flag is set: the callback is external, and the flag's help text (config.go:87) says it prints the version and exits, so the source's `Provide` may never return in that case; the model's `Provide` always returns the pair, and the process ending is not modelled.
- `getTLSConfig`: loading a certificate and key from files is I/O; the TLS configuration passed to `getThemisToken` is not modelled.
- The HTTP client, its transport and the no-follow redirect policy as a mechanism: the exchange is an input, and a redirect arrives as an ordinary response.
- `xid.New()`: the UUID is a parameter.
- The error of `http.NewRequest`, which the source discards: URL parsing is not modelled, so neither is the nil request a malformed token URL would leave behind.
- `GoStrings.LowerChar`: lowers only the ASCII letters `A` to `Z`; Go's `strings.ToLower` also lowers non-ASCII upper-case letters (such as `Ä`), and this per-character map keeps them unchanged.
- `GoStrings.ToLower`: lower-cases ASCII letters only; Go's Unicode case mapping of other characters is not modelled (no non-ASCII character lower-cases into a hex digit, a separator or a dot, so the MAC check is unaffected).
- `ThemisToken.TokenRequest`: the header map is keyed by a datatype of the ten names rather than by strings; `WireNameInjective` shows the string keys are as many and as distinct. Canonicalisation of header keys is not modelled, because the ten names are already canonical.
- Go's `int` is taken to be 64 bits wide; the integer fields are only copied, so no arithmetic on them is modelled.
- upstream.go: network wait, client construction and lifecycle hooks are composition with external libraries. In that code a construction error is logged but the stop hook is still registered and `client, nil` is returned.
- Logging.
