# Closure script: expiry selection and closure messages

A model of the closure script's one pass. It scans the Redis keys of a
namespace. Each key has the form `<namespace>:<delivery-execution id>:<timestamp>`.
The keys whose timestamp has passed are handed to `DEL`. For each of their
delivery-execution ids, one closure message is published.

The model has four modules:

- `GoStrings` (go_strings.dfy) models `strings.Split` with a one-character
  separator. It is specified by its inverse, `Join`.
- `GoStrconv` (go_strconv.dfy) models `strconv.ParseInt(s, 10, 64)`, following
  Go's own algorithm. An optional sign is read first. Then `ParseUint`'s digit
  loop runs: an invalid digit is `ErrSyntax`, and a prefix past 2^64 - 1 is
  `ErrRange`. Last, the int64 bounds are applied. The lemmas give a reference
  description of exactly what it accepts.
- `Expiry` (expiry.dfy) models the `for` loop of `getDataFromRedis` as the
  method `SelectExpired`. The method is proved equal to a reference definition,
  `ExpirySelection`, which filters the due keys first and takes their ids
  second. The selection properties are lemmas about that definition.
- `Closure` (closure.dfy) builds the `ClosureMessage` envelope for one id. It
  also models `main` as `CloseExpired`: scan, delete, and publish only when
  some id was found.

Inputs are parameters. The key list stands for the result of `KEYS ns:*`.
`now` stands for `time.Now().UnixNano()` and is an `int64` in the same units.
The deleted keys and the messages to publish are results.

Go panics when it indexes `parts[2]` of a key with fewer than two `:`. Here that
is an explicit outcome, not a precondition: `IndexOutOfRange(key)` names the
first such key. The panic ends the process before `Del` and before any publish.

What the code does at the edges of the key format, and what the model keeps:

- A key with fewer than two `:` crashes the whole run (`Expiry.CompletesIff`).
  Only a key whose third segment fails to parse is skipped.
- Only `parts[1]` and `parts[2]` are read; later segments are ignored
  (`Expiry.ExtraSegmentsIgnored`).
- Timestamps are compared with `time.Now().UnixNano()`; no unit conversion is made.
- The body built at main.go:114 carries only `deliveryExecutionId`.

`Closure.ReadClosureMessage` stands for no code of the closure script. It is a
receiver's reading of a message, the partner against which the envelope built by
`NewClosureMessage` is proved to round-trip.

## Model

| member | source | states |
|---|---|---|
| `GoStrings.Split` | main.go:74 | the parts are at least one, none holds a `:`, and joined with `:` they give back the key |
| `GoStrings.SplitJoin` | main.go:74 | splitting undoes joining when no part holds the separator, so Split is the unique such decomposition |
| `GoStrings.SplitAppend` | main.go:74 | splitting `a:b` gives the parts of `a` followed by the parts of `b` |
| `GoStrings.SplitCount` | main.go:74 | a key splits into one more part than it has `:` |
| `GoStrconv.Accumulate` | main.go:76 | ParseUint's digit loop: a successful run yields a value between the accumulator and 2^64 - 1 (exactly characterised by `AccumulateValue`) |
| `GoStrconv.ParseUint` | main.go:76 | the unsigned parse succeeds exactly on a non-empty ASCII digit string whose value is at most 2^64 - 1, and yields that value |
| `GoStrconv.ParseInt` | main.go:76 | a successful parse yields a value inside [-2^63, 2^63 - 1] |
| `GoStrconv.AccumulateValue` | main.go:76 | the base-10 digit loop succeeds exactly on digit strings whose value fits uint64, yields that value, and reports ErrRange on overflow |
| `GoStrconv.ParseIntAccepts` | main.go:76 | err == nil exactly when the string is an optional `+`/`-` followed by one or more ASCII digits whose value lies in [-2^63, 2^63 - 1]; the value is that of the literal |
| `GoStrconv.ParseIntOverflow` | main.go:76 | a well-formed literal outside int64 fails with ErrRange and is never wrapped |
| `GoStrconv.ParseIntNoDigits` | main.go:76 | an empty string or a lone sign fails with ErrSyntax |
| `GoStrconv.ParseIntSmall` | main.go:76 | "100" parses to 100; "1_000" and "" are syntax errors |
| `Expiry.IdOf` | main.go:74-79 | the id is `parts[1]`: free of `:`, and the key starts with its first segment, a `:` and the id |
| `Expiry.IsDue` | main.go:76-77 | a due key has a third segment that is a signed decimal literal whose value is at most `now` |
| `Expiry.DueKeys` | main.go:76-78 | every key the filter keeps is due at `now` |
| `Expiry.SelectExpired` | main.go:70-86 | the loop's result is the reference selection: on completion the delete list is the due keys in scan order and the ids are their second segments; on a key without a third segment the outcome is that key's panic |
| `Expiry.CompletesIff` | main.go:73-76 | the loop completes iff every key has a third segment; otherwise it stops at the first key that has none |
| `Expiry.TimestampSegmentIffTwoColons` | main.go:74-76 | `parts[2]` exists iff the key holds at least two `:` |
| `Expiry.IsDueIff` | main.go:76-77 | a key is due iff its third segment is a signed decimal literal within int64 whose value is at most `now` |
| `Expiry.DueKeysMembership` | main.go:76-78 | a key is selected iff it is a scanned key and due |
| `Expiry.SelectedIff` | main.go:76-81 | a scanned key is deleted iff its third segment parses and `now >= timestamp`; an unparseable, overflowing or future timestamp leaves it undeleted |
| `Expiry.IdsPairWithDeletedKeys` | main.go:78-79 | ids and deleted keys have equal length, the i-th id is segment 1 of the i-th deleted key, and every deleted key was scanned and is due |
| `Expiry.DueIndices` | main.go:73-80 | the selected positions are strictly increasing, index the scan, pick out the due keys in order, and are exactly the positions whose key is due |
| `Expiry.DueIndicesPickDueKeys` | main.go:73-80 | there are as many selected positions as due keys, and the j-th selected position holds the j-th due key |
| `Expiry.OrderPreserved` | main.go:73-80 | both output lists are the image of one order-preserving subsequence of the keys, namely the due positions |
| `Expiry.DueKeysAppend` | main.go:73-82 | selecting from a concatenation is selecting from each part against the same `now` and concatenating |
| `Expiry.InertKeyIgnored` | main.go:76-77 | inserting anywhere a key whose timestamp does not parse, overflows, or lies after `now` changes neither the deleted keys, nor the ids, nor whether and where the loop panics |
| `Expiry.LaterInstantSelectsMore` | main.go:68-77 | the selection is monotone in `now`: the selection at an earlier `now` is exactly the earlier-due part of the selection at a later `now` |
| `Expiry.ExtraSegmentsIgnored` | main.go:74-79 | segments after the third do not change whether a key is due or what its id is |
| `Expiry.TimerKeyVerdict` | main.go:74-79 | a key written as `ns:id:t` from `:`-free parts splits into exactly those three parts, has id `id`, and is due iff `t` parses to a value at most `now` |
| `Expiry.ExtraSegmentsExample` | main.go:74-79 | `ns:a:5:x` has id `a`, is due at 5 and not at 4 |
| `Expiry.TwoKeyExample` | main.go:73-86 | at now = 200, of `ns:123:100` and `ns:456:300` only the first is deleted and only `123` is returned |
| `Closure.NewClosureMessage` | main.go:114-126 | the envelope for an id reads back as that id, has empty properties and exactly the shared headers map |
| `Closure.ClosureMessageRoundTrip` | main.go:122-126 | a built message reads back as its id and has exactly the headers of the map at main.go:34-37, `Content-Type` = `application/json` and `type` naming DeliveryExecutionClosureMessage |
| `Closure.ClosureMessageInjective` | main.go:114-126 | distinct ids give distinct messages |
| `Closure.ClosureMessages` | main.go:110-151 | one message per id, in the order of the ids, the i-th reading back as the i-th id |
| `Closure.OneMessagePerId` | main.go:110-128 | one message is built per id, the i-th reads back as the i-th id, and each has the fixed headers and no properties |
| `Closure.CloseExpired` | main.go:159-165 | the run panics iff some key lacks a third segment, naming the first such key; otherwise it deletes exactly the due keys, publishes iff at least one id was found, and the i-th message is exactly the envelope built for the id of the i-th deleted key |

## Left out

- Redis: the DSN parsing, `Ping`, `KEYS` and `DEL` calls (main.go:41-64, main.go:84) are network I/O. The key list is an input and the delete list a result. The error of `DEL`, including the one Redis gives a `DEL` with no keys, is ignored by the source and not modelled.
- The namespace prefix `ns:*` of the scan is not checked: the loop itself never looks at it. A namespace that itself contains `:` shifts the segments the loop reads; the model does the same as the code, since it works on the key alone.
- Environment variables and the `log.Panic` startup failures (main.go:41-44, main.go:59, main.go:90-95, main.go:97-102) are configuration plumbing.
- The Pub/Sub client, `topic.Publish` and the wait in `res.Get` (main.go:97-108, main.go:136-148) are a foreign network client. The model stops at the messages to be published.
- The per-id goroutines (main.go:112-149) are concurrency. Their publish order is unspecified. `main` does not wait for them, and `psclient.Close` is deferred when the spawning loop ends, so whether any publish completes before the process exits is not modelled.
- `encoding/json.Marshal` (main.go:114, main.go:128) is kept abstract: a message's body is the payload value, not its JSON text. Marshal cannot fail on these types, so its error branches (main.go:116-120, main.go:130-134) are not modelled. Its replacement of invalid UTF-8 by U+FFFD is not modelled either, because strings here are sequences of characters; `Closure.ClosureMessageInjective` holds for that reason, whereas in Go two distinct byte-string ids that are not valid UTF-8 can marshal to the same body.
- `time.Now()` (main.go:68) is the parameter `now`.
- All zerolog logging.
