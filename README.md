# ppp-access-server utility and error core, in Dafny

This project models the part of ppp-access-server that the service layer stands on:

- the static helpers of `Util`: path lookup (`getPath`, `getPropertyValue`), comparison (`areEqual`, `modifiedProps`, `isEmptyObj`, `areArraysEqual`), collections (`removeDuplicates`, `toKeyValue`, `getValueOfKey`), character scans (`indexOf`, `lastIndexOf`, `_wasFound`), conversions (`removeLeadingZeros`, `intToHex`) and batch enrichment (`hydrate`);
- the three error classes: `DomainError`, `DeepError` with its `generateMsg`, and `RequestError` with its `toString`;
- `RequestApi.post`, which turns a failed HTTP call into a `RequestError`.

JavaScript values are one closed datatype, `Values.Value`:
- undefined, null, booleans, integers, strings, arrays, and objects as ordered lists of own properties;
- truthiness, `===`, the `Object.prototype.toString` tag, `Object.keys`, property reads and assignments, and ToString are written out as functions.

Reading a property of `null` or `undefined` throws a TypeError in JavaScript. Where a null or undefined value can reach such a read through the model's parameter types, the model states the throw explicitly: the operation returns a `Completion` that is either `Normal(value)` or `TypeError`. A few throws are excluded by the parameter types instead; "## Left out" lists them.

`hydrate` assigns to the objects it receives. Those objects are instances of the class `Hydration.JsObject`, whose `props` field the methods update in place. The functions that loop (`getPath`, `modifiedProps`, `toKeyValue`, `getValueOfKey`, `indexOf`, `lastIndexOf`, `generateMsg`, `hydrate`) are methods with `while` or `for` loops. Most are proved against a specification function whose properties are proved as lemmas. `indexOf`, `lastIndexOf` and `getValueOfKey` are proved against quantified postconditions that state the index or value found and that nothing earlier (or later) matches.

Modules:

| module | file | models |
|---|---|---|
| `Text` | text.dfy | decimal numerals, array-index keys, `Array.prototype.join` |
| `Values` | values.dfy | the value model, property access, ToString, the `Error` message rule |
| `Collections` | collections.dfy | `removeDuplicates`, `toKeyValue`, `getValueOfKey` |
| `PathLookup` | path_lookup.dfy | `getPropertyValue`, `getPath`, `String.prototype.split` |
| `Comparison` | comparison.dfy | `isEmptyObj`, `areEqual`, `modifiedProps`, `areArraysEqual` |
| `StringScan` | string_scan.dfy | `_wasFound`, `indexOf`, `lastIndexOf`, `removeLeadingZeros`, `intToHex` |
| `Hydration` | hydration.dfy | `hydrate` |
| `Errors` | errors.dfy | `DomainError`, `DeepError`, `RequestError` |
| `RequestApi` | request_api.dfy | `RequestApi.post` |

Some behaviours of the code are easy to misread; the model follows the code as written:

- `areEqual` carries the comment "If an object or array, compare recursively" (Util.js:92), but its inner `compare` ends in `return false` on every path (Util.js:109), so the first entry compared stops the loop (Util.js:115, Util.js:120). Two arrays or objects are therefore equal only when both are empty, and `modifiedProps` flags every listed property whose old and new values are non-empty arrays or objects. `Comparison.AreEqualOutcome` states this behaviour exactly.
- The doc comment of `getPath` reads "Gets path in object if it does not exist return value" (Util.js:140). The loop condition `currentObj && ...` (Util.js:149) stops the walk at any falsy value (`0`, `""`, `false`, `null`, `undefined`), not only at an absent one, and the final read falls back to the default only when it is `undefined` (Util.js:157).
- The catch block of `post` (RequestApi.js:24-38) rethrows a `RequestError` for most failures. It throws a TypeError instead in three cases: the parameters are null or undefined (destructuring at RequestApi.js:11); the rejection value is null or undefined (`err.response` at RequestApi.js:28); or the response has no `data` (`data.message` at RequestApi.js:33).

## Model

| member | source | states |
|---|---|---|
| Text.ParseIndexOfNatToString | src/util/Util.js:114-115 | the printed form of an index, used as a property key, names that same array index |
| Text.NatToStringOfParseIndex | src/util/Util.js:114-115 | every canonical index key is the printed form of the index it denotes, so index keys and indices correspond one to one |
| Values.FalsyValues | src/util/Util.js:130 | the falsy values are exactly undefined, null, false, 0 and ""; every array and object is truthy |
| Values.TypeTag | src/util/Util.js:72-78 | the tag is "[object Array]" exactly for arrays and "[object Object]" exactly for objects, so the two-tag test of `areEqual` singles out arrays and objects |
| Values.TypeTagIdentifiesKind | src/util/Util.js:72-75 | two values report the same `Object.prototype.toString` tag exactly when they are of the same kind |
| Values.Lookup | src/util/Util.js:131 | reading a property that is not an own key gives undefined |
| Values.LookupIsOwnValue | src/util/Util.js:131 | reading a property of an object gives undefined or one of its own values |
| Values.GetReadsOwnData | src/util/Util.js:131 | `obj[property]` finds only data the value holds: an own property value, an array element, a one-character piece of a string, or the length of an array or string (its number of keys); on a boolean or number it gives undefined |
| Values.PutProp | src/util/Util.js:40 | `obj[k] = v` keeps the key order, appends a new key at the end, makes `obj[k]` read `v` and leaves every other key's value unchanged |
| Values.OwnKeysReadBack | src/util/Util.js:118-120 | every key a for-in loop or `Object.keys` reports reads back its own value |
| Values.GetArrayIndex | src/util/Util.js:115 | `v1[i]` on an array yields element i |
| Values.ToJsString | src/service/RequestApi.js:15 | a template literal prints a string as itself, an object as "[object Object]", an empty array as "", and a one-element array as its element ("" for null or undefined) |
| Values.ErrorMessage | src/error/DomainError.js:3 | `new Error(m)` records m for a string and "" for undefined |
| Collections.RemoveDuplicates | src/util/Util.js:67 | `[...new Set(values)]` has exactly the elements of values, each once, and is no longer |
| Collections.RemoveDuplicatesKeepsFirstOccurrenceOrder | src/util/Util.js:67 | the survivors appear in the order of their first occurrence |
| Collections.RemoveDuplicatesIdempotent | src/util/Util.js:65-68 | a sequence without repeats comes back unchanged, so deduplicating twice changes nothing |
| Collections.RemoveDuplicatesOf | src/util/Util.js:65-68 | a non-array is wrapped in a one-element array; an array yields its distinct elements |
| Collections.KeyValuePairs | src/util/Util.js:46-52 | the object built by `toKeyValue` never has the same key twice |
| Collections.KeyValuePairsKeys | src/util/Util.js:46-52 | its keys are exactly the printed `obj[key]` of the input objects |
| Collections.KeyValuePairsLastWins | src/util/Util.js:48-50 | when several objects share a key, the value of the last one is kept |
| Collections.ToKeyValue | src/util/Util.js:46-52 | throws exactly when some element is null or undefined; otherwise returns the object of key/value pairs |
| Collections.ItemsAreOwnValues | src/util/Util.js:167-168 | the for-in loop reads `array[item]` once per key `Object.keys` reports: an array's elements in order, a string's characters as one-character strings, an object's own property values in order, and nothing from null, undefined, booleans or numbers |
| Collections.GetValueOfKey | src/util/Util.js:165-173 | returns the display of the first item whose value `===` key, throws at a null or undefined item met earlier, and returns null when there is no match |
| PathLookup.Split | src/util/Util.js:146 | `split('.')` yields at least one segment, and no segment contains a dot |
| PathLookup.JoinSplit | src/util/Util.js:146 | joining the segments with the separator gives back the path |
| PathLookup.SplitJoin | src/util/Util.js:146 | splitting a join of dot-free names gives back the names |
| PathLookup.GetPropertyValueCases | src/util/Util.js:129-137 | a falsy obj is returned as it is; outside type mode a truthy obj gives `obj[property]`; in type mode a truthy `obj[property]` is replaced by the value of its first own key: the first element, first character or first property value, and undefined when it has no own keys; a falsy one is returned as it is |
| PathLookup.FirstKeyRead | src/util/Util.js:133-134 | `obj[Object.keys(obj)[0]]` on a truthy value reads its first element, first character or first property value, and undefined when there is no key |
| PathLookup.FalsyAbsorbs | src/util/Util.js:149-155 | once a walk reaches a falsy value, later steps leave it there |
| PathLookup.GetPath | src/util/Util.js:145-158 | the loop and the final read compute `Resolve` |
| PathLookup.ResolveMeaning | src/util/Util.js:145-158 | returns the value at the end of the path when every value before the last segment is truthy and the last read is not undefined, and the default otherwise |
| PathLookup.ResolveMissingPath | src/util/Util.js:156-157 | a path that leads to undefined resolves to the default |
| PathLookup.ResolveShortCircuits | src/util/Util.js:149-155 | a falsy value met before the last segment gives the default |
| PathLookup.ResolveThree | src/util/Util.js:145-158 | a three-segment path reads two levels down and then, if the value there is truthy, reads once more |
| PathLookup.ResolveExampleFound | src/util/Util.js:145-158 | "a.b.c" in {a:{b:{c:5}}} gives 5 |
| PathLookup.ResolveExampleMissing | src/util/Util.js:145-158 | "a.x.c" in the same object gives the default |
| Comparison.IsEmptyObj | src/util/Util.js:4-9 | true exactly for an empty object, an empty array, the empty string and every other scalar |
| Comparison.Compare | src/util/Util.js:88-110 | the inner compare reports false for every pair of items |
| Comparison.AreEqual | src/util/Util.js:70-127 | scalars are equal exactly when they are the same value; equal values share the type tag, and equal arrays or objects have the same length |
| Comparison.AreEqualOutcome | src/util/Util.js:70-127 | equal iff the tags match and: scalars are `===`; arrays or objects are both empty |
| Comparison.AreEqualReflexiveExactlyWhenEmpty | src/util/Util.js:70-127 | a value equals itself exactly when it is a scalar or an empty array or object |
| Comparison.AreEqualSymmetric | src/util/Util.js:70-127 | the comparison is symmetric |
| Comparison.Differing | src/util/Util.js:38-42 | the listed properties the comparison rejects, and only those |
| Comparison.ChangeSetOrder | src/util/Util.js:35-42 | the change set maps the changed properties to true, once each, in the order of their first listing |
| Comparison.ChangeSetMeaning | src/util/Util.js:35-43 | the change set has distinct keys, exactly the changed listed properties, each mapped to true, and is empty exactly when nothing changed |
| Comparison.ModifiedProps | src/util/Util.js:34-44 | throws exactly when `Object.keys` or a property read meets null or undefined; returns null exactly when no listed property changed, and the change set otherwise |
| Comparison.IndexOfValue | src/util/Util.js:55 | `indexOf` returns the first position holding a `===` value, or -1 when there is none |
| Comparison.AreArraysEqual | src/util/Util.js:54-56 | true iff the lengths match and every element of a1 is `===` some element of a2 |
| Comparison.AreArraysEqualOnPermutations | src/util/Util.js:54-56 | two scalar arrays that are permutations of each other compare equal |
| Comparison.AreArraysEqualIsNotSymmetric | src/util/Util.js:54-56 | [1, 1] against [1, 2] is equal, while [1, 2] against [1, 1] is not |
| StringScan.IncludesShort | src/util/Util.js:12 | every string includes ""; a one-character string is included iff that character occurs |
| StringScan.CharAtReadsIndex | src/util/Util.js:12 | `charAt` at an in-range position gives the same one-character string as the property read `str[pos]`; the result is at most one character, and it is "" exactly when the position is out of range |
| StringScan.WasFound | src/util/Util.js:11-14 | in range: whether the character is in chars, negated by not; out of range: true, or false when not is set |
| StringScan.WasFoundComplement | src/util/Util.js:11-14 | with and without not the test gives opposite answers at every in-range position |
| StringScan.IndexOf | src/util/Util.js:16-23 | returns the least position from pos up where the test holds, or -1 when there is none |
| StringScan.LastIndexOf | src/util/Util.js:25-32 | returns the greatest position in [0, pos] where the test holds, or -1 when there is none |
| StringScan.StripLeadingZeros | src/util/Util.js:162 | the result is a suffix of the input, only zeros are removed, and it does not start with '0' |
| StringScan.StripPaddedZeros | src/util/Util.js:162 | stripping undoes any zero padding of a string that does not start with '0' |
| StringScan.StripIdempotent | src/util/Util.js:162 | stripping twice is stripping once |
| StringScan.RemoveLeadingZeros | src/util/Util.js:160-163 | throws exactly for null or undefined; strips a string's leading zeros; 0 becomes "" |
| StringScan.RemoveLeadingZerosOfPaddedNumber | src/util/Util.js:160-163 | a zero-padded positive number comes back as its own decimal text |
| StringScan.HexText | src/util/Util.js:186 | `toString(16)` prints lower-case hex digits with no leading zero for a positive number, one digit exactly below 16 and at most two below 256 |
| StringScan.HexValueOfHexText | src/util/Util.js:186 | reading the hex text back gives the number |
| StringScan.HexValueLeadingZero | src/util/Util.js:186 | the '0' that `padStart` adds does not change the value |
| StringScan.IntToHex | src/util/Util.js:185-187 | at least two characters; all hex digits for a non-negative number; '-' and the hex text for a negative one |
| StringScan.IntToHexRoundTrip | src/util/Util.js:185-187 | for a non-negative number, reading the padded text back gives the number |
| StringScan.IntToHexOfByte | src/util/Util.js:185-187 | a byte prints as exactly two hex digits, with a leading '0' below 16 |
| Hydration.TruthyOnly | src/util/Util.js:193 | keeps exactly the truthy key values |
| Hydration.RequestedKeys | src/util/Util.js:190-195 | the keys passed to hydrateFn are exactly the truthy key values, each once |
| Hydration.HydratedIdempotent | src/util/Util.js:200-202 | when keyProp differs from hydratedProp, hydrating twice with the same key data is hydrating once |
| Hydration.CollectKeyValues | src/util/Util.js:190-194 | the first loop collects the truthy key values in order |
| Hydration.AssignHydrated | src/util/Util.js:200-203 | throws before any change exactly when keyData is null or undefined; otherwise every object gets `keyData[obj[keyProp]]` under hydratedProp |
| Hydration.Hydrate | src/util/Util.js:189-204 | hydrateFn is called once with the requested keys, and not at all when there are none; the objects come back untouched without keys or on a TypeError, and hydrated otherwise |
| Errors.CauseIsSmaller | src/error/DeepError.js:10-11 | a truthy cause is a proper part of the error that holds it; the model's values are finite trees, so the chain it walks is finite (a cyclic chain, on which the source loops forever, is listed under "## Left out") |
| Errors.LinkReadsAreGets | src/error/DeepError.js:7 | the reads of `e.message`, `e.reason` and `e.cause` are ordinary property reads |
| Errors.CauseChain | src/error/DeepError.js:6-11 | the links visited start at the error, each next link is the previous one's truthy cause, and the last one's cause is falsy |
| Errors.GenerateMsg | src/error/DeepError.js:3-14 | throws exactly for null or undefined; otherwise the message is what the links of the cause chain contribute |
| Errors.ChainMessageIsBracketed | src/error/DeepError.js:3-14 | the message is "[m1][m2]...", one bracket per truthy link text, outermost first |
| Errors.BracketedLengthIsSum | src/error/DeepError.js:10 | the bracketed message has length equal to the sum of the texts' lengths plus 2 per text |
| Errors.ChainMessageEmpty | src/error/DeepError.js:3-14 | the message is empty exactly when no link has a truthy text |
| Errors.CauseChainExample | src/error/DeepError.js:6-11 | a three-level error yields its three links, outermost first |
| Errors.GenerateMsgExample | src/error/DeepError.js:3-14 | {message: "a"} caused by {reason: "b"}, caused by an error with an empty message, gives "[a][b]" |
| Errors.NewDeepError | src/error/DeepError.js:17-21 | named DeepError, keeps its argument as the cause, and its message brackets the chain's texts |
| Errors.NewDomainError | src/error/DomainError.js:2-7 | named after its class; the message is kept as given, "" for undefined |
| Errors.NewRequestError | src/error/RequestError.js:4-8 | named RequestError; keeps the HTTP code and the cause as given |
| Errors.BaseStringDeterminesMessage | src/error/RequestError.js:11 | two errors of one class print the same base string only when their messages are the same |
| Errors.Name | src/error/DomainError.js:4 | each class is named after its constructor: "DomainError", "DeepError" or "RequestError", one name per class, with no line break |
| Errors.BaseString | src/error/RequestError.js:11 | `super.toString()` is the name alone for an empty message, and otherwise the name, ": " and the message |
| Errors.ToString | src/error/RequestError.js:10-12 | throws exactly for a RequestError whose cause is null or undefined |
| Errors.ToStringStartsWithBase | src/error/RequestError.js:10-12 | the printout starts with "Name: message"; for a RequestError whose message has no line break, that is its whole first line |
| Errors.RequestErrorPrintsStackOrCause | src/error/RequestError.js:11 | the printout ends with the cause's stack when it is truthy, and with the printed cause otherwise |
| Errors.RequestErrorPrintsCode | src/error/RequestError.js:11 | right after the base string the printout holds "\nHTTP Code: ", the printed code and " \n Error: " |
| RequestApi.CallFor | src/service/RequestApi.js:13-22 | the path is "/" followed by the printed endpoint, apiName and body pass through unchanged, and the Content-Type is application/json |
| RequestApi.Rejected | src/service/RequestApi.js:24-38 | the catch block never returns; it throws a TypeError exactly when the response is truthy and its data is null or undefined, and otherwise a RequestError keeping err as cause, with the response status or 0 as code and data.message, err.message or err as message |
| RequestApi.Post | src/service/RequestApi.js:11-39 | returns the client's result unchanged; a rejection becomes a RequestError that keeps it as the cause, carrying the status and data.message of a response, else code 0 and err.message or err; TypeError exactly in the null and undefined cases |
| RequestApi.PostErrorPrints | src/service/RequestApi.js:37 | every RequestError that post throws prints without throwing; its first line is "RequestError: message" |
| RequestApi.PrintedRequestError | src/error/RequestError.js:10-12 | a RequestError with a cause that is not null or undefined prints, and its base line is "RequestError: message" |
| RequestApi.PostNotFoundExample | src/service/RequestApi.js:28-33 | a 404 with data.message "Not found" becomes RequestError("Not found", 404, err) |
| RequestApi.PostNetworkErrorExample | src/service/RequestApi.js:34-36 | a failure without a response, with message "Network Error", becomes RequestError("Network Error", 0, err) |
| RequestApi.PostStringRejection | src/service/RequestApi.js:35 | a rejection with a non-empty string uses that string as the message |

## Left out

- Prototype members are not modelled. Property reads see own properties, plus array and string indices and `length`; inherited members such as `toString` are not visible.
- Reference identity is not modelled. Two arrays or objects are never `===`. `new Set` in `removeDuplicates` compares them structurally, whereas JavaScript compares them by reference.
- Objects keep their properties in insertion order. JavaScript's rule that integer-like keys are enumerated first, in ascending order, is not modelled.
- Strings are sequences of Unicode characters. JavaScript's `length`, `charAt` and string indices count UTF-16 code units, so a character outside the Basic Multilingual Plane counts once here and twice in JavaScript. This affects `StringScan.IndexOf`, `StringScan.LastIndexOf`, `StringScan.WasFound`, `StringScan.CharAt`, `Values.Get` on a string (indices and `length`) and `Values.OwnKeys` of a string.
- Cyclic values are not modelled, because `Values.Value` is an inductive datatype and every value is a finite tree. In JavaScript, `generateMsg` loops forever on a cause chain that returns to an earlier error, and `areEqual` overflows the stack on an array or object that contains itself.
- Some TypeErrors are excluded by the parameter types rather than modelled: `areArraysEqual` on null, undefined or a string (`.some` throws or is missing), `toKeyValue` with a null or undefined list, `getPath` with a path that is not a string (`path.split` throws), and `indexOf`, `lastIndexOf` and `_wasFound` with a searched value that is not a string.
- Numbers are integers. Floating point, NaN, -0 and exponent notation in `toString` are not modelled.
- `hydrate` and `post` are asynchronous. The awaited calls become a function parameter (`hydrateFn`) and a transport parameter (`send`). A rejected `hydrateFn` promise, concurrency and scheduling are not modelled.
- The `aws-amplify` client, console output (`console.log` in `DomainError` and `post`) and `Error.captureStackTrace` are left out as I/O. A stack trace is modelled only as a `stack` property the cause may carry.
- Functions as values are not modelled, and neither is the `[object Function]` branch of `compare`.
- `Util.cloneArray`, `Util.isString` and `Util.getRandomString` are not part of this model. `getRandomString` draws random bytes. The hex formatting it relies on is `StringScan.IntToHex`, covered by `StringScan.IntToHexOfByte`.
- `ProfileApi`, `AuthApi`, `PPP` (pagination and the service facade) and `index.js` are not part of this model.
- Hydration.Hydrate: when keyProp equals hydratedProp and the same object occurs twice in the list, the second visit reads the value written by the first. For that case the contract only promises that the result is `Normal(objs)`, not each object's final properties.
- Hydration.Hydrate: the elements of `objs` are objects. A null or primitive element of the list is not modelled.
- Errors.ToString: a cause that is itself an `Error` prints through the generic ToString of the value model (`[object Object]`), not through its own `toString`.
- RequestApi.Post: the headers are reduced to the single Content-Type value.
