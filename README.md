# WebAPI keyword dispatcher, in Dafny

This project models the `WebAPI` component of ESPWebManager, a library that
serves a small web site from an ESP32. `WebAPI` holds a table of keywords
supplied by the application. Each entry binds:

- a request keyword;
- an HTML placeholder name;
- a value kind (bool, `uint32_t`, `int32_t`, float or `String`);
- a pointer to one of the application's variables;
- an optional change callback.

`apiHandler` receives a request token. A token without `=` is a read: the
first entry whose request keyword occurs anywhere in the token answers
`{200, value as text}`. A token with `=` is split at its first `=`. The part
before it selects the entry, and the part after it is parsed into the entry's
kind, written through the pointer, and answered with `{200, "Ok"}`; the
callback, if any, then runs once. A token that matches no entry gets
`{404, "Not found"}`. `htmlProcessor` looks up placeholder names in the same
way and returns the rendered value, or `""` when nothing matches.

The project has four modules:

- `ArduinoString` (arduino_string.dfy) is the part of the Arduino `String`
  class and of the C library that the dispatcher depends on:
  - `indexOf` is modelled exactly, including its first statement: searching an
    empty string always gives -1, even for an empty needle.
  - `toInt()` is `atol`, that is `strtol` in base 10: leading white space, an
    optional sign, the longest run of digits, and 0 when there are no digits.
    The result is pinned into the range of C's `long`, whose width is a
    parameter (`LongWidth`): `Long32` is the ESP32, where `long` is 32 bits;
    `Long64` is the 64-bit reading the comments beside the casts describe.
  - `String(int)` renders decimal text.
  - The `int32_t` and `uint32_t` casts wrap modulo 2^32.
- `WebApiTypes` (web_api_types.dfy) holds the declarations of WebAPI.h:
  - The `valueTypes` enumeration (src/WebAPI.h:41-47) is `ValueType`; its
    numbering, which the `uint8_t valueType` tag holds, is `KindCode`.
  - The header's `void *` plus kind tag (src/WebAPI.h:59-60) becomes `Value`,
    a tagged union.
  - Each application variable is a `Variable` object with one mutable field.
  - `apiKeyword` and `apiResponse` (src/WebAPI.h:56-77) are the datatypes
    `ApiKeyword` and `ApiResponse`.
- `WebApi` (web_api.dfy) is WebAPI.cpp:
  - Pure specifications of the lookup (`FirstMatch`), of the split at the
    first `=` (`SplitRequest`), of rendering (`Rendered`) and of parsing
    (`Parsed`), with their lemmas.
  - Class `WebAPI`, whose methods follow the C++ member functions one for one.
    The lookups are loops with early return. The set writes in place through
    the entry's `Variable`. `ApiHandler` overwrites the caller's string.
- `ApiClient` (api_client.dfy) states what a caller such as the LEDs_from_Web
  example page can rely on.

Modelling choices:

- A callback's body is foreign code. Each invocation is recorded in the ghost
  trace `callbackTrace` as `Invoked(callback, value seen)`. The recorded value
  is the variable's new value, which shows that the call comes after the
  write.
- Float values are opaque 32-bit patterns. `String::toFloat` and `String(float)`
  are functions given to the constructor, and so is the width of `long`.
- The table's entries and the variables they point to belong to the
  application. `Valid()` states the agreement the C++ leaves to its caller:
  the variable behind each entry holds a value of the entry's declared kind.
- The ghost set `variables` is the footprint of writes. `Valid()` puts every
  entry's variable in it. `OnlyTableVariables()` says that nothing else is in
  it. The constructor establishes both. `OnlyTableVariables()` reads only the
  table, which no method writes, so it holds for the life of the object.
- `ESPWebManager` passes the whole request path (for example
  `/api/LED1State=1`) to `apiHandler`. Because matching is by containment, the
  path prefix does not prevent a match (`ApiClient.PrefixedTokenFindsEntry`).
- "An empty request name matches every token" holds only for non-empty
  tokens. `String::indexOf` returns -1 when the searched string is empty, so
  the empty token matches nothing. The model follows the code
  (`WebApi.EmptyNameMatchesNonEmptyTokens`, `WebApi.EmptyTokenMatchesNothing`).

## Model

| member | source | states |
|---|---|---|
| ArduinoString.SearchFrom | src/WebAPI.cpp:137 | the `strstr` scan from position `from` returns -1 or a position at or after `from` where the needle fits; an empty needle is found at `from` |
| ArduinoString.SearchFromIsFirst | src/WebAPI.cpp:137 | the scan returns a position where the needle occurs, skips no earlier occurrence at or after `from`, and returns -1 only when there is none |
| ArduinoString.IndexOfIsFirst | src/WebAPI.cpp:137 | `indexOf` returns a position where the needle occurs, with no occurrence before it, and -1 exactly when the searched string is empty or holds no occurrence |
| ArduinoString.IndexOf | src/WebAPI.cpp:137 | the result of `indexOf` is -1 or a position inside the searched string |
| ArduinoString.ContainsIff | src/WebAPI.cpp:137 | `indexOf(name) >= 0` holds exactly when the token is non-empty and the name occurs in it somewhere |
| ArduinoString.ContainsSelf | src/WebAPI.cpp:161 | a name is found in itself exactly when it is non-empty |
| ArduinoString.ContainsTransitive | src/WebAPI.cpp:137 | a name occurring in a string that occurs in the token also occurs in the token |
| ArduinoString.ToUInt32 | src/WebAPI.cpp:269 | the `uint32_t` cast gives the number in `[0, 2^32)` congruent to its argument modulo 2^32 |
| ArduinoString.ToInt32 | src/WebAPI.cpp:264 | the `int32_t` cast gives the number in `[-2^31, 2^31)` congruent to its argument modulo 2^32 |
| ArduinoString.UIntThroughInt32Cast | src/WebAPI.cpp:264 | `(uint32_t)(int32_t)x` is `x` modulo 2^32, and is `x` itself when `x` is in the `uint32_t` range |
| ArduinoString.IntThroughUInt32Cast | src/WebAPI.cpp:269 | `(int32_t)(uint32_t)x` is the plain `int32_t` cast of `x`, congruent to `x` modulo 2^32, and is `x` itself when `x` is in the `int32_t` range |
| ArduinoString.Int32CastRoundTrip | src/WebAPI.cpp:269 | an `int32_t` survives the trip through `uint32_t` |
| ArduinoString.UInt32CastRoundTrip | src/WebAPI.cpp:264 | a `uint32_t` survives the trip through `int32_t` |
| ArduinoString.NatText | src/WebAPI.cpp:218 | the decimal text of a natural number is a non-empty run of digits with no leading zero |
| ArduinoString.IntText | src/WebAPI.cpp:218-221 | decimal text is non-empty and starts with `-` exactly for negative numbers |
| ArduinoString.IntTextInjective | src/WebAPI.cpp:218-221 | two numbers with the same decimal text are equal |
| ArduinoString.LeadingNumberOfIntText | src/WebAPI.cpp:218-221 | parsing the decimal text of any integer gives the integer back |
| ArduinoString.LeadingNumber | src/WebAPI.cpp:259 | the number `strtol` reads is negative only when the text after the white space starts with `-` |
| ArduinoString.ToInt | src/WebAPI.cpp:263-269 | `toInt()` read as the 64-bit conversion the comments describe: the leading number of the text, pinned into the `int64_t` range |
| ArduinoString.ToIntOn32BitLong | src/WebAPI.cpp:264 | `toInt()` as it behaves where `long` is 32 bits: the leading number pinned into the `int32_t` range |
| ArduinoString.ReadLong | src/WebAPI.cpp:259-269 | `toInt()` on a target with the given width of `long`: the leading number of the text when it fits `long`, otherwise the nearest bound of `long` |
| ArduinoString.ReadLongOfIntText | src/WebAPI.cpp:259-269 | `toInt()` of the decimal text of any number that fits `long` is that number |
| ArduinoString.LeadingNumberWithoutDigits | src/WebAPI.cpp:259 | text without any digit reads as 0 |
| ArduinoString.NoDigitsParsesToZero | src/WebAPI.cpp:259 | text without any digit gives 0 from both readings of `toInt()` |
| WebApi.FirstMatch | src/WebAPI.cpp:135-149 | the lookup's result is -1 or the index of an entry whose name occurs in the token |
| WebApi.FirstMatchIsFirst | src/WebAPI.cpp:129-150 | the lookup returns the smallest index whose name occurs in the token, and -1 exactly when no entry's name does |
| WebApi.FirstMatchFromIsFirst | src/WebAPI.cpp:135-143 | the scan from entry `from` on skips no matching entry |
| WebApi.OwnNameFindsEntry | src/WebAPI.cpp:135-143 | an entry's own non-empty name selects it, unless an earlier entry's name occurs inside that name |
| WebApi.ShadowedEntryIsUnreachable | src/WebAPI.cpp:135-143 | an entry declared after one whose name occurs inside its own name is never selected, by any token |
| WebApi.EmptyTokenMatchesNothing | src/WebAPI.cpp:137 | the empty token selects no entry |
| WebApi.EmptyNameMatchesNonEmptyTokens | src/WebAPI.cpp:137 | an entry with an empty name, or an earlier one, catches every non-empty token |
| WebApi.IndexOfEquals | src/WebAPI.cpp:48-50 | `indexOf("=") >= 0` exactly when the token holds `=`, and then it is the position of the first `=` |
| WebApi.SplitRequest | src/WebAPI.cpp:48-60 | a token with `=` is a set whose keyword (free of `=`), `=` and value rebuild the token; a token without `=` is a get of the whole token |
| WebApi.SplitRequestOfJoin | src/WebAPI.cpp:48-54 | splitting `keyword=value` gives back exactly `keyword` and `value` when the keyword holds no `=`, whatever `=` the value holds |
| WebApi.NameOnlyInValueIsNotFound | src/WebAPI.cpp:54-56 | in a set request only the text before the first `=` is searched: a name occurring only in the value does not select its entry |
| WebApi.Rendered | src/WebAPI.cpp:212-228 | a read renders a bool as "1" or "0", an unsigned integer as a non-empty run of digits, and a signed integer as text that starts with `-` exactly when it is negative |
| WebApi.RenderedMeaning | src/WebAPI.cpp:212-228 | a read renders a bool as "1" or "0", an unsigned integer as digits that read back as the number, a signed integer as text that reads back as the number, and a string verbatim |
| WebApi.Parsed | src/WebAPI.cpp:256-281 | a set stores a value of the entry's own kind, reading numbers with `toInt()` at the target's width of `long` |
| WebApi.ParsedBoolMeaning | src/WebAPI.cpp:259 | a bool becomes true exactly when the text starts with a non-zero number |
| WebApi.ParsedUIntMeaning | src/WebAPI.cpp:264 | an unsigned integer receives what `toInt()` returned, modulo 2^32: exactly the number read when it fits both `long` and `uint32_t`, and the largest `long` modulo 2^32 when the number is above the range of `long` |
| WebApi.ParsedIntMeaning | src/WebAPI.cpp:269 | a signed integer receives what `toInt()` returned, modulo 2^32, and exactly the number read when it is in the `int32_t` range; with a 32-bit `long` it receives what `toInt()` returned, unwrapped |
| WebApi.RenderParseRoundTrip | src/WebAPI.cpp:212-281 | writing back the text a read returned restores the value for every bool, signed integer and string, and for an unsigned integer exactly when it fits `long`; every other non-float value changes |
| WebApi.UIntReadBack | src/WebAPI.cpp:218-264 | the decimal text of a `uint32_t` is stored back as the same number exactly when `long` is 64 bits or the number is at most 2^31 - 1 |
| WebApi.IntReadBack | src/WebAPI.cpp:221-269 | the decimal text of an `int32_t` is stored back as the same number, whatever the width of `long` |
| WebApi.ParseRenderRoundTrip | src/WebAPI.cpp:256-281 | reading after writing canonical text returns that text: for strings always, for signed integers in range, and for unsigned integers in range that fit `long` |
| WebApi.BoolReadsBackAsDigit | src/WebAPI.cpp:259 | a bool written with some text reads back as "1" when the text starts with a non-zero number, as "0" otherwise |
| WebApi.UIntRoundTripFailsOn32BitLong | src/WebAPI.cpp:262-264 | with a 32-bit `long`, the decimal text of any `uint32_t` above 2^31 - 1 is stored as 2^31 - 1 |
| WebApi.IntTextAboveInt32Parts | src/WebAPI.cpp:267-269 | on text of a number above 2^31 - 1 that a 64-bit number holds, a signed entry receives 2^31 - 1 with a 32-bit `long` but the number wrapped into `int32_t` with a 64-bit one, so "2147483648" stores -2^31 there |
| WebApiTypes.KindCode | src/WebAPI.h:41-47 | each kind's enumerator is a number below 5 |
| WebApiTypes.KindOfCode | src/WebAPI.h:59 | a `uint8_t` tag names a kind exactly when it is below 5, and then the kind whose enumerator it is |
| WebApiTypes.KindCodeRoundTrip | src/WebAPI.h:41-47 | every kind is named by its own enumerator |
| WebApiTypes.Variable.constructor | src/WebAPI.h:60 | a new variable holds the value it was given |
| WebApi.CallbacksFired | src/WebAPI.cpp:320-322 | a successful write makes one callback invocation when a callback is registered, none otherwise |
| WebApi.WebAPI.constructor | src/WebAPI.cpp:39 | the table and count are stored as given, the footprint is exactly the set of the entries' variables, and no callback has run |
| WebApi.WebAPI.VariablesAreTableVariables | src/WebAPI.h:96-99 | on a valid object the footprint of writes is exactly the set of variables the first `keywords` entries point at |
| WebApi.WebAPI.SharedVariableSameKind | src/WebAPI.h:56-60 | two entries that point at the same variable declare the same kind |
| WebApi.WebAPI.FindKeywordIndex | src/WebAPI.cpp:129-150 | the loop returns the first entry whose request keyword occurs in the token, or -1 |
| WebApi.WebAPI.FindPlaceholderIndex | src/WebAPI.cpp:153-209 | the loop returns the first entry whose placeholder occurs in the token, or -1 |
| WebApi.WebAPI.GetValueByType | src/WebAPI.cpp:212-249 | a read answers 200 with the variable's text; for every kind but float, a set of that text restores the variable's value exactly when the value reads back on the target (an unsigned value above 2^31 - 1 does not where `long` is 32 bits) |
| WebApi.WebAPI.ProcessPlaceholderByType | src/WebAPI.cpp:328-365 | the template text for an entry is exactly the body a read of that entry returns |
| WebApi.WebAPI.SetValueByType | src/WebAPI.cpp:252-325 | the entry's variable now holds the parsed value, every variable not shared with the entry is unchanged, the callback ran once after the write if registered, and the reply is `{200, "Ok"}` |
| WebApi.WebAPI.ApiGet | src/WebAPI.cpp:85-104 | a miss answers `{404, "Not found"}`; a hit answers what a read of the first matching entry gives |
| WebApi.WebAPI.ApiSet | src/WebAPI.cpp:107-126 | a hit writes the first matching entry and answers Ok; a miss answers 404, changes no variable and runs no callback |
| WebApi.WebAPI.ApiHandler | src/WebAPI.cpp:42-61 | the caller's string is left holding the keyword; a token with `=` is dispatched as a set of its first-`=` split, any other token as a read that changes nothing; every reply is 200 or `{404, "Not found"}` |
| WebApi.WebAPI.HtmlProcessor | src/WebAPI.cpp:64-78 | a miss gives ""; a hit gives the body a read of the first matching entry returns |
| ApiClient.PrefixedTokenFindsEntry | src/ESPWebManager.cpp:151-162 | the whole request path, with its `/api/` prefix, still selects the keyword's entry unless an earlier keyword occurs in the path |
| ApiClient.SetThenGet | src/WebAPI.cpp:42-61 | `keyword=value` followed by a read of the string the handler leaves behind returns `value` for a string entry, and for an integer entry when `value` is canonical decimal text in range that fits `long`; with a 32-bit `long` an unsigned entry given a number above 2^31 - 1 reads back as "2147483647"; a bool entry reads back as "1" or "0" |
| ApiClient.TextAfterWrite | src/WebAPI.cpp:212-281 | the text a read returns after a write, case by case: the written text for strings and for in-range integers that fit `long`, "2147483647" for a larger unsigned number with a 32-bit `long`, "1" or "0" for a bool |
| ApiClient.SetLeavesOtherVariables | src/WebAPI.cpp:107-126 | a set request leaves every variable of the footprint other than the matched entry's with its value |

## Left out

- Serial logging (every `useVerboseSerial` block) is output only and does not change any result.
- ESPWebManager.cpp and ESPWebManager.h (server set-up, routing, file serving, custom-handler selection) are not part of this model. Only the fact that they pass the whole request path is used.
- The browser script of the LEDs_from_Web example is not part of this model.
- Callback bodies are foreign code. Only the fact and the order of each invocation are recorded.
- Float numerics: `String::toFloat` and `String(float)` are parameters, so nothing is proved about float round trips.
- `valueType` is a `uint8_t` in the header and may hold a value outside the five kinds. The model's kind is a datatype, so the default branches for such a value are not modelled (`{404, "Not found"}` from a read, `""` from the template processor, and an uninitialised reply from a set).
- The commented-out `keyValue` union and its cases are dead code. The declared but never defined `WebAPI()` and `~WebAPI()` are not modelled either.
- `int16_t equalsIndex` in `apiHandler` wraps when the first `=` is at index 32768 or later. The model splits at the true position, so it does not capture what such a token does.
- Strings are assumed to hold no NUL character. The C functions behind `indexOf` and `toInt` stop at the first NUL.
- Concurrent requests are not modelled; the server is taken to call the handler one request at a time.

## Findings

| source | as written | input that shows it | evidently intended | confidence | as-written member | corrected member |
|---|---|---|---|---|---|---|
| src/WebAPI.cpp:262-269 | `toInt()` returns a `long`, which is 32 bits on the ESP32, so `strtol` pins larger numbers at 2^31 - 1 before the casts to `uint32_t` and `int32_t` | set `3000000000` on a `uint32_t` entry: the variable becomes 2147483647, and a read returns `2147483647`; set `2147483648` on an `int32_t` entry: the variable becomes 2147483647, where the 64-bit reading the comments describe gives -2147483648 | the comments say the text is read as a 64-bit integer, so every `uint32_t` written as decimal text is stored exactly | medium, not executed | ArduinoString.ToIntOn32BitLong, WebApi.UIntRoundTripFailsOn32BitLong, WebApi.IntTextAboveInt32Parts | ArduinoString.ToInt, ArduinoString.ReadLong, WebApi.RenderParseRoundTrip |
