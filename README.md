# Real-estate tokenisation DApp: verified model of its utility core

The DApp tokenises properties on an EVM chain. A Hardhat package holds the
contracts and their deployment scripts; a Next.js front end lists the
properties and talks to the contracts. This project models, in Dafny, the
pure helpers that both packages rely on:

- **Property metadata URIs.** The Hardhat test helper `generateUri` writes
  a property's attributes as a JSON object. It encodes the object's bytes
  in Base64 (section 4 of RFC 4648) and wraps them in a
  `data:application/json;base64,` URI (RFC 2397). The property listing
  page reads such a URI back: it splits at the ',' and calls `atob` and
  then `JSON.parse`. Modules `Base64`, `Decimal` and `PropertyMetadata`.
- **Token/wei conversions and number formatting.** The front end's
  `tokenAmountInWEI` and `weiToTokenAmount` are BigInt scalings that round
  down. `formatNumber` inserts '_' as a thousands separator through a
  regular expression. Module `Conversions`.
- **Environment constants.** NODE_ENV selects the environment flags. The
  core web app's server URL comes from its environment variables, and the
  `api.base` route is joined onto it. Module `Config`; the environment
  variables are parameters.
- **Script argument checks.** `checkParameters`, `checkAddress` and
  `checkNumber` either throw an `Error` or return. Here they return the
  error's message as `Some(message)`. Module `ScriptChecks`.

`Wrappers` holds the `Option` type and the JavaScript `x || default` idiom
on optional strings.

The main results:

- Base64 decoding inverts encoding, and the encoding has the standard
  shape: alphabet characters, then exactly the padding the length calls for.
  The encoding is the one text that decodes to its bytes and leaves the
  unused bits before the padding zero (section 3.5 of RFC 4648).
- The page reading a URI made by `generateUri` gets back exactly the
  metadata that was written.
- `tokenAmountInWEI` is the floor of amount × value / ratio, is monotone,
  and round-trips through `weiToTokenAmount` when the division is exact.
- `formatNumber` on a numeral splits it into groups of three from the
  right, and deleting the separators gives the numeral back.
- The environment flags can never be "local". `api.base` always ends in
  `/api/` and never doubles the '/'.
- The parameter-count check is one short of its `count` argument.

## Model

| member | source | states |
|---|---|---|
| Wrappers.OrDefault | packages/nextjs/utils/constants.ts:5 | `v \|\| d` for an optional string: the value when it is present and non-empty, otherwise the default |
| Base64.CharOf | packages/hardhat/test/utils.ts:14 | every sextet maps to a character of the Base64 alphabet |
| Base64.IndexOf | packages/nextjs/components/property/PropertyListings.tsx:167 | every alphabet character is the character of the sextet found for it |
| Base64.IndexOfCharOf | packages/nextjs/components/property/PropertyListings.tsx:167 | looking up the character of a sextet gives the sextet back, so the alphabet has 64 distinct characters |
| Base64.Encode | packages/hardhat/test/utils.ts:14 | `toString("base64")` of n bytes has 4 × ceil(n / 3) characters |
| Base64.EncodeShape | packages/hardhat/test/utils.ts:14 | the encoding is alphabet characters followed by exactly (3 − n mod 3) mod 3 '=' characters, and '=' appears nowhere else |
| Base64.Decode | packages/nextjs/components/property/PropertyListings.tsx:167 | the model's strict decoder succeeds only on text whose length is a multiple of 4 |
| Base64.DecodeIgnoresTrailingBits | packages/nextjs/components/property/PropertyListings.tsx:167 | like `atob`, the decoder drops the unused low bits before the padding without checking them: "AB==" decodes to the byte 0, whose encoding is "AA==" |
| Base64.DecodeEncode | packages/nextjs/components/property/PropertyListings.tsx:167 | decoding the encoding of any byte sequence gives the same bytes back |
| Base64.EncodeInjective | packages/hardhat/test/utils.ts:14 | distinct byte sequences have distinct encodings |
| Base64.PadBitsZeroOfEncode | packages/hardhat/test/utils.ts:14 | the encoder leaves the unused low bits before the padding zero: the sextet before "==" is a multiple of 16, the one before a single '=' a multiple of 4 |
| Base64.EncodeDecode | packages/nextjs/components/property/PropertyListings.tsx:167 | a text with zero pad bits that decodes to some bytes is exactly the encoding of those bytes |
| Base64.CanonicalEncoding | packages/hardhat/test/utils.ts:14 | a text is the encoding of a byte sequence if and only if it decodes to that sequence and its pad bits are zero |
| Decimal.NatToDecimal | packages/hardhat/test/utils.ts:8-11 | the decimal numeral of n is non-empty, all digits, has no leading zero and denotes n |
| Decimal.NatToDecimalInjective | packages/hardhat/test/utils.ts:8-11 | distinct numbers have distinct numerals, so the attribute strings the reader gets back identify the numbers that were written |
| PropertyMetadata.NumberToString | packages/hardhat/test/utils.ts:8-11 | `"" + n` of an integer in the safe range: a leading '-' exactly when n is negative, then digits denoting \|n\| with no leading zero, and nothing that JSON escapes |
| PropertyMetadata.MetadataJson | packages/hardhat/test/utils.ts:3-13 | `JSON.stringify` of the metadata object is ASCII text, so `Buffer.from` gives one byte per character |
| PropertyMetadata.Layout | packages/hardhat/test/utils.ts:3-13 | the JSON text opens with `{"name":` and closes with the "}}" of the attributes object and the outer object |
| PropertyMetadata.ParseMetadataJson | packages/hardhat/test/utils.ts:3-13 | the JSON text holds, in order, name "Property", description "Property Description", image "" and the attributes rooms, squareFoot, propertyAddress and listPrice, the numbers as decimal strings and the address verbatim |
| PropertyMetadata.ParseLayout | packages/nextjs/components/property/PropertyListings.tsx:167 | `JSON.parse` of the metadata layout filled with any seven plain strings returns those seven strings in their fields |
| PropertyMetadata.AsciiBytes | packages/hardhat/test/utils.ts:2 | the UTF-8 bytes of ASCII text are its character codes, one per character |
| PropertyMetadata.BinaryString | packages/nextjs/components/property/PropertyListings.tsx:167 | `atob`'s result has one character per decoded byte, with that byte as its code |
| PropertyMetadata.BinaryStringOfAscii | packages/nextjs/components/property/PropertyListings.tsx:167 | the binary string of the UTF-8 bytes of ASCII text is the text itself |
| PropertyMetadata.DataUri | packages/hardhat/test/utils.ts:2-14 | the URI is `data:application/json;base64,` and then a payload of 4 × ceil(n / 3) characters; the payload is the standard padded shape, decodes to the bytes and has zero pad bits, so by `Base64.CanonicalEncoding` it is exactly the encoding of the bytes; the prefix's ',' is the URI's only ',' |
| PropertyMetadata.GenerateUri | packages/hardhat/test/utils.ts:1-15 | the URI starts with `data:application/json;base64,` and has a non-empty payload after it, which decodes to exactly the bytes of the metadata's JSON text and has zero pad bits, so it is the Base64 encoding of those bytes |
| PropertyMetadata.TextDataUri | packages/hardhat/test/utils.ts:2-14 | for a JSON text of n characters, the payload has 4 × ceil(n / 3) characters, has the padded shape, decodes to the text's bytes and has zero pad bits, so it is their Base64 encoding |
| PropertyMetadata.PrefixedPayload | packages/hardhat/test/utils.ts:2 | placing the prefix before Base64 text can be undone, and leaves the prefix's ',' as the only ',' |
| PropertyMetadata.Split | packages/nextjs/components/property/PropertyListings.tsx:167 | `split(",")` returns at least one piece, more than one exactly when the text holds a ',', and no piece holds a ',' |
| PropertyMetadata.SplitNoSeparator | packages/nextjs/components/property/PropertyListings.tsx:167 | a string without the separator splits into itself alone |
| PropertyMetadata.SplitAtFirst | packages/nextjs/components/property/PropertyListings.tsx:167 | splitting at a first separator gives the text before it, then the pieces of the rest |
| PropertyMetadata.PayloadOf | packages/nextjs/components/property/PropertyListings.tsx:167 | `split(",")[1]` is defined exactly when the URI holds a ',', and holds no ',' itself |
| PropertyMetadata.PayloadOfDataUri | packages/nextjs/components/property/PropertyListings.tsx:167 | `uri.split(",")[1]` of a data URI is its whole Base64 payload |
| PropertyMetadata.ReadChars | packages/nextjs/components/property/PropertyListings.tsx:167 | a string value read from JSON text holds only characters that need no escape |
| PropertyMetadata.ReadField | packages/nextjs/components/property/PropertyListings.tsx:167 | a field is read only after its key, and its value holds only characters that need no escape |
| PropertyMetadata.ParseMetadata | packages/nextjs/components/property/PropertyListings.tsx:167 | `JSON.parse` of the metadata layout succeeds only on text that opens with `{"name":`, and every field it returns is escape-free text |
| PropertyMetadata.ReadMetadata | packages/nextjs/components/property/PropertyListings.tsx:167 | reading a URI succeeds only when it holds a ',' and the piece after the first ',' decodes as Base64 of a length that is a multiple of 4; the name and address read are escape-free text |
| PropertyMetadata.ReadTextDataUri | packages/nextjs/components/property/PropertyListings.tsx:167 | reading the data URI of an ASCII text back parses exactly that text |
| PropertyMetadata.ReadGeneratedUri | packages/nextjs/components/property/PropertyListings.tsx:167 | the listing page reading a URI from `generateUri` gets back exactly the metadata that was written |
| Conversions.EffectiveAmount | packages/nextjs/utils/index.ts:13 | `amount \|\| 1n`: at least 1, and the amount itself when that is non-zero |
| Conversions.TokenAmountInWei | packages/nextjs/utils/index.ts:12-14 | fails exactly when the ratio is zero (BigInt division throws); otherwise gives the unique w with ratio·w ≤ amount·value < ratio·(w+1), a zero amount counting as 1 |
| Conversions.WeiToTokenAmount | packages/nextjs/utils/index.ts:22-24 | fails exactly when the value is zero; otherwise gives the unique t with value·t ≤ amount·ratio < value·(t+1), a zero amount counting as 1 |
| Conversions.FloorUnique | packages/nextjs/utils/index.ts:13 | only one quotient satisfies the rounding-down bounds, so the conversions' bounds determine their results |
| Conversions.ZeroAmountIsOne | packages/nextjs/utils/index.ts:13 | converting an amount of 0 gives the same result as an amount of 1 (the bare scale factor), in both directions |
| Conversions.RoundTrip | packages/nextjs/utils/index.ts:12-24 | when the ratio divides amount·value, converting to wei and back returns the amount |
| Conversions.TokenAmountInWeiMonotone | packages/nextjs/utils/index.ts:12-14 | a larger displayed amount never gives fewer wei |
| Conversions.SeparatorAtInDigits | packages/nextjs/utils/index.ts:41 | in a string of digits, the pattern matches at position i exactly when 0 < i < length and the digits after i are a multiple of three |
| Conversions.FormatNumber | packages/nextjs/utils/index.ts:40-42 | for any string, deleting the '_' characters after the replace gives the same result as deleting them before, so the replace changes only '_' characters |
| Conversions.FormatNumberRemovesBack | packages/nextjs/utils/index.ts:40-42 | deleting the separators from the formatted digits gives the digits back |
| Conversions.FormatNumberShort | packages/nextjs/utils/index.ts:40-42 | numerals of up to three digits are unchanged |
| Conversions.FormatNumberAppendGroup | packages/nextjs/utils/index.ts:40-42 | three more digits at the end of a numeral add "_" and those digits to its formatting |
| Conversions.FormatNumberGroups | packages/nextjs/utils/index.ts:40-42 | the formatting of a numeral is its groups joined by '_': a first group of 1-3 digits, then groups of exactly 3, which together flatten back to the numeral |
| Conversions.FormatNumberEnds | packages/nextjs/utils/index.ts:40-42 | the formatted numeral starts and ends with the numeral's own first and last digits |
| Conversions.FormatAmount | packages/nextjs/utils/index.ts:40-42 | `formatNumber` of a non-negative BigInt, or of a non-negative integer Number up to 2^53 − 1, is its decimal numeral in groups of three from the right joined by '_', and deleting the separators gives the numeral back |
| Conversions.FormatNumberThousand | packages/nextjs/utils/index.ts:37 | 1000 formats as "1_000" |
| Conversions.FormatNumberMillion | packages/nextjs/utils/index.ts:37 | 1000000 formats as "1_000_000" |
| Config.Environment | packages/nextjs/utils/constants.ts:5 | NODE_ENV when it is set and non-empty, otherwise "development"; never empty |
| Config.Flags | packages/nextjs/utils/constants.ts:6-9 | prod exactly for "production" or "prod"; dev exactly when not prod; local never; devOrLocal the same as dev |
| Config.DefaultEnvironmentIsDevelopment | packages/nextjs/utils/constants.ts:5-9 | an absent or empty NODE_ENV gives "development", a dev and not prod environment |
| Config.CwaServerHost | packages/nextjs/utils/constants.ts:11 | CWA_SERVER_HOST when it is set and non-empty, otherwise "http://localhost" |
| Config.CwaServerPort | packages/nextjs/utils/constants.ts:12 | CWA_SERVER_PORT when it is set and non-empty, otherwise "3000" (the number 3000 as the template literal writes it) |
| Config.CwaServerUrl | packages/nextjs/utils/constants.ts:11-13 | the public URL when it is set and non-empty, otherwise host ':' port; never empty |
| Config.DefaultServerUrl | packages/nextjs/utils/constants.ts:11-13 | with no URL variables set, the server is http://localhost:3000 and its API base is http://localhost:3000/api/ |
| Config.CharAt | packages/nextjs/utils/constants.ts:41 | `charAt(i)` is the one-character string of the character at i inside the string, and "" outside it (so `charAt(-1)` of "" is "") |
| Config.ApiBase | packages/nextjs/utils/constants.ts:41 | the URL stays a prefix and the base ends in "/api/"; one '/' is added exactly when the URL does not already end in '/' |
| Config.ApiBaseOfEmpty | packages/nextjs/utils/constants.ts:41 | an empty URL (where `charAt(-1)` is "") gives "/api/" |
| Config.ConstantsOf | packages/nextjs/utils/constants.ts:15-44 | the frozen constants: `prod` exactly for the environments "production" and "prod", flags that are never local, host, port and server URL as the environment gives them (the port kept as text), and an API base that is that URL joined with "/api/", so it extends the URL and ends in "/api/" |
| ScriptChecks.TemplateText | packages/hardhat/scripts/utils.ts:13 | a template literal writes an absent value as "undefined" |
| ScriptChecks.CheckParameters | packages/hardhat/scripts/utils.ts:12-14 | throws exactly when the list is absent or shorter than count − 1, with "Parameters not provided. " and the tip |
| ScriptChecks.CheckParametersAcceptsOneShort | packages/hardhat/scripts/utils.ts:13 | a list of count − 1 entries passes the check |
| ScriptChecks.CheckParametersSmallCount | packages/hardhat/scripts/utils.ts:13 | with count ≤ 1, every present list passes, including the empty one |
| ScriptChecks.CheckParametersIgnoresEntries | packages/hardhat/scripts/utils.ts:13 | a present list with at least count entries always passes, even when every entry is undefined: only the length is checked |
| ScriptChecks.CheckAddress | packages/hardhat/scripts/utils.ts:16-24 | an absent or empty address gives "… address not provided."; otherwise it fails exactly when the address is invalid, with "Invalid … address provided." |
| ScriptChecks.CheckAddressPasses | packages/hardhat/scripts/utils.ts:16-24 | the check passes exactly when the address is present, non-empty and valid |
| ScriptChecks.MissingIsNotInvalid | packages/hardhat/scripts/utils.ts:16-24 | a missing address is never reported as invalid, whatever the validator says |
| ScriptChecks.CheckNumber | packages/hardhat/scripts/utils.ts:26-34 | an absent or empty value gives "… not provided."; otherwise it fails exactly when `Number` gives NaN, with "Invalid … provided." |
| ScriptChecks.CheckNumberPasses | packages/hardhat/scripts/utils.ts:26-34 | the check passes exactly when the value is present, non-empty and numeric |

## Left out

- `weiToFractionalTokenAmount` (packages/nextjs/utils/index.ts:32-34) is left out because it computes in floating point.
- `gasPrices` (in both packages) and `formatBigInt` are left out because they format through `formatEther` and `Intl.NumberFormat`, which are library code.
- The Solidity contracts, the API routes, the React components and hooks, and the deployment scripts built on these helpers are left out; only the helpers are modelled.
- Reading `process.env` and `Object.freeze` are left out. The environment variables are a `ProcessEnv` parameter. The constants that are only `process.env.X || ""` or fixed strings (app name, contract addresses, API keys, date format) are not modelled.
- GenerateUri: the property address must be printable ASCII without `"` or `\`. The escapes `JSON.stringify` writes for other characters are not modelled, and neither is the UTF-8 encoding of non-ASCII text.
- NumberToString: covers only integers within ±(2^53 − 1). Fractions, exponent notation, NaN and the infinities, which `"" + n` would also print, are not modelled.
- ParseMetadata: `JSON.parse` is modelled only for text of the metadata object's own layout: escape-free strings, these keys in this order, no white space. Other JSON is rejected rather than parsed.
- Base64.Decode: decodes strictly. It accepts only padded text whose length is a multiple of 4. `atob` also accepts white space and missing padding; the model treats those inputs as failures. Like `atob`, it ignores the unused low bits before the padding.
- TokenAmountInWei: amounts are non-negative integers. String amounts (`BigInt("…")`, where the non-empty string "0" is truthy and so is not replaced by 1) and negative BigInts (whose division truncates toward zero) are not modelled.
- FormatAmount: covers non-negative BigInts and integer Numbers up to 2^53 − 1 (`Number.MAX_SAFE_INTEGER`). A larger Number prints the shortest digits that round back to it (`String(2**64)` is "18446744073709552000") or, from 10^21 on, exponent form ("1e+21"); the model does not produce either. FormatNumber models the regular expression on any string, but its grouping lemmas are stated for strings of digits only.
- ConstantsOf: `cwaPort` is always text. When CWA_SERVER_PORT is unset, the program's `constants.cwa.port` (packages/nextjs/utils/constants.ts:12, 26) is the number 3000; the model keeps the text "3000" that the template literal at line 13 writes.
- CheckAddress: `isAddress` from ethers is a parameter, so the model does not capture what counts as a valid address.
- CheckNumber: `isNaN(Number(val))` is a parameter, so the model does not capture which strings JavaScript reads as numbers.
- CheckParameters: `count` is an integer. A fractional `count` is not modelled.
