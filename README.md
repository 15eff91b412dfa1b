# tsync core, modelled in Dafny

This project models the self-contained core of fortio/tsync, a Go program,
and proves properties of the model. The model covers four parts:

- **smap**: a map guarded by a read/write lock, with a version counter that
  every mutation raises by exactly one. It has unsorted and sorted iterators.
  `smap.dfy` models the type as the class `Smap.Map`, whose fields `m` and
  `version` are updated in place. `smap_scenarios.dfy` states call sequences
  adapted from the package's tests against that class and proves their outcomes.
- **table**: `CreateTableLines`. It measures every column, adds up the
  width, and writes one padded, aligned line per row. `table.dfy` keeps the
  Go code's three loops as methods over an `array` of column widths. Each
  method is proved against the functions `ColumnWidths`, `PadCell` and
  `FormatRow`, and lemmas state where each cell and each gap sits in a line.
- **tcrypto codec**: unpadded base64url, section 5 of RFC 4648 with padding
  omitted as section 3.2 allows. It follows Go's `RawURLEncoding`, and it
  includes that decoder's error offsets and its tolerance of stray low bits
  in the last character. `encoding.dfy` proves the round trip, that decoding
  is injective on canonical text, and the length facts.
- **tcrypto identities**: `HumanHash`, a DDD-DDDD fingerprint drawn from a
  SHA-256 digest by rejection sampling, and the signed-message envelope
  `base64(message) "/" base64(signature)`.
  - `humanhash.dfy` keeps the Go loop, its two counters and its 8-slot
    buffer. It proves the result equals the fingerprint function, and that
    rejecting bytes 250..255 removes the digit bias.
  - `identity.dfy` proves that a signed message verifies and comes back
    unchanged, and that malformed or wrongly signed text is refused with the
    source's error messages.
  - Ed25519 (RFC 8032) and SHA-256 (FIPS 180-4) are parameters of the model,
    not modelled.

`basics.dfy` holds shared vocabulary: `byte`, `Option`, `Result` and
decimal digits.

In `tcrypto/identity.go`, the calls to `EncodeBytes` and `DecodeBytes` pass
a tag argument (`SignedPrefix`, `PublicKeyPrefix`, `PrivateKeyPrefix` or
`""`). The functions in `tcrypto/encoding.go` take no tag. The tests also
expect a key text whose first two characters were overwritten to still
decode. The model therefore uses the untagged codec and drops the tag
arguments.

## Model

| member | source | states |
|---|---|---|
| Smap.SetAll | smap/smap.go:48-57 | storing a list of pairs leaves exactly the old keys plus the listed keys |
| Smap.SetAllLastWins | smap/smap.go:48-57 | the last pair listed for a key decides that key's value |
| Smap.SetAllUntouched | smap/smap.go:48-57 | a key that no pair names keeps its presence and its value |
| Smap.OverwriteKeepsSize | smap/smap.go:84-89 | overwriting a present key leaves the number of entries unchanged |
| Smap.SortBy | smap/smap.go:156-158 | sorting returns a permutation of its input |
| Smap.InsertSorted | smap/smap.go:156-158 | inserting a new key into a strictly sorted list keeps it strictly sorted under a strict total order |
| Smap.SortBySorted | smap/smap.go:156-158 | sorting distinct keys under a strict total order yields a strictly increasing list |
| Smap.SortedUnique | smap/smap.go:156-158 | two strictly sorted lists with the same elements are equal, so the sorted snapshot does not depend on map order |
| Smap.Map.constructor | smap/smap.go:25-29 | a new map is empty at version 0 |
| Smap.Map.Version | smap/smap.go:32-37 | returns the current version and changes nothing |
| Smap.Map.Set | smap/smap.go:39-46 | the map becomes the old map with key bound to value; the version rises by exactly 1 and is returned |
| Smap.Map.MultiSet | smap/smap.go:48-57 | the map becomes the old one with every pair stored in order; the version rises by exactly 1 for any number of pairs, including none |
| Smap.Map.Get | smap/smap.go:59-64 | a value is found exactly when the key is present, and it is the stored one; nothing changes |
| Smap.Map.Delete | smap/smap.go:66-75 | exactly the listed keys are gone, the others keep their values, absent keys are ignored, and the version rises by exactly 1 |
| Smap.Map.Has | smap/smap.go:77-82 | true exactly when the key is present; nothing changes |
| Smap.Map.Len | smap/smap.go:84-89 | the number of distinct keys; nothing changes |
| Smap.Map.Clear | smap/smap.go:91-96 | the map becomes empty and the version rises by exactly 1, also on an empty map |
| Smap.Map.All | smap/smap.go:103-113 | every pair visited is an entry of the map, no key twice; the visit goes on while the consumer accepts and ends after all entries or at the first refused pair |
| Smap.Map.Values | smap/smap.go:118-128 | every value visited belongs to a distinct present key; the visit goes on while the consumer accepts and ends after all entries or at the first refused value |
| Smap.Map.Keys | smap/smap.go:133-143 | every key visited is present, none twice; the visit goes on while the consumer accepts and ends after all keys or at the first refused key |
| Smap.Map.SnapshotKeys | smap/smap.go:150-153 | the key snapshot lists each key of the map exactly once |
| Smap.Map.SortedSnapshot | smap/smap.go:147-158 | the snapshot holds exactly the map's keys, strictly increasing under less |
| Smap.Map.KeysSorted | smap/smap.go:147-166 | the keys visited are a prefix of the sorted snapshot; any key not visited is greater than every visited one; the visit ends after all keys or at the first refused key |
| Smap.Map.KeysSortedCursor | smap/smap.go:147-158 | the cursor starts at the beginning of a snapshot that holds exactly the map's keys, strictly increasing under less |
| Smap.KeysCursor.Next | smap/smap.go:160-164 | keeps the cursor within the snapshot and returns the next snapshot key without consulting the map, so a key deleted since the snapshot is still returned; None once the snapshot is used up |
| Smap.Map.AllSorted | smap/smap.go:171-196 | the iterator starts at the beginning of a snapshot that holds exactly the map's keys, strictly increasing under less |
| Smap.SortedIterator.Next | smap/smap.go:184-194 | keeps the cursor within the snapshot and returns the next snapshot key still present in the map as it is now, with its current value, skipping deleted keys; None once the snapshot is used up |
| Smap.NextPresent | smap/smap.go:184-190 | the first snapshot position at or after the cursor whose key is present; every key passed over is absent |
| Smap.IntLessIsStrictTotal | smap/smap.go:200-208 | `<` on integers is a strict total order, so NaturalSort asks nothing of its caller |
| Smap.NaturalSort | smap/smap.go:200-221 | for integer keys, the iterator's snapshot is the map's keys in increasing order |
| SmapScenarios.SetAndGet | smap/smap.go:39-64 | Set then Get gives the value, a missing key gives nothing, an overwrite is seen, and since each Set raises the version by one the versions are 1 then 2 |
| SmapScenarios.Lengths | smap/smap_test.go:80-111 | Len is 0, 1, 3, then 3 after an overwrite and 2 after a delete |
| SmapScenarios.ClearTwice | smap/smap.go:91-96 | after Clear the map is empty, clearing an empty map is allowed, and since Set and Clear each raise the version by one it is 5 after three sets and two clears |
| SmapScenarios.MultiSetPairs | smap/smap.go:48-57 | four pairs over three keys give three entries, the later x wins, and the version is 1 |
| SmapScenarios.DeleteSeveral | smap/smap.go:66-75 | deleting a and b keeps c; deleting an absent key changes nothing in the map but still raises the version |
| SmapScenarios.SortedInts | smap/smap.go:208 | a strictly increasing list of integers is fixed by its elements |
| SmapScenarios.KeysSortedStops | smap/smap.go:160-164 | over keys 3, 1, 2 with a consumer refusing 2, exactly 1 and 2 are visited |
| SmapScenarios.KeysSortedYieldsDeleted | smap/smap.go:154-164 | over keys 3, 1, 2, a consumer that deletes 3 on seeing 1 is still handed 1, 2 and 3, and 3 is then absent from the map |
| SmapScenarios.NaturalSortSkipsDeleted | smap/smap_test.go:798-830 | key 2 deleted after key 1 was visited is skipped; 3 and 4 follow |
| Table.ColumnWidth | table/table.go:43-49 | the column width is at least the width of every cell in the column |
| Table.ColumnWidthAttained | table/table.go:43-49 | the column width is the width of some cell in the column, or 0 for a table without rows |
| Table.ColumnWidths | table/table.go:36-51 | one width per column, each the maximum over that column |
| Table.ColumnWidthOneMoreRow | table/table.go:46-48 | one more row widens a column exactly when its cell is wider than the column so far |
| Table.MeasureRow | table/table.go:42-50 | after a row, each entry of colWidths is the maximum over the rows so far, and the row's cell widths are returned |
| Table.MeasureColumns | table/table.go:36-51 | colWidths ends as the per-column maxima and allWidths holds every cell's width |
| Table.AddWidths | table/table.go:52-55 | maxw is the sum of the column widths |
| Table.PadCell | table/table.go:68-79 | a padded cell is exactly as wide as its column |
| Table.PadCellLayout | table/table.go:68-79 | Left puts the cell first, Right last, and Center puts delta/2 spaces before it and delta/2 + delta%2 after it |
| Table.AppendCell | table/table.go:68-79 | appending a cell writes exactly its padded form after what was already written |
| Table.Gap | table/table.go:65-67 | no spaces before the first column and columnSpacing spaces before each other one |
| Table.JoinedLength | table/table.go:62-81 | a line's first k columns take the first k widths plus the spacing between them |
| Table.SeparatorsProduct | table/table.go:56 | the gaps add up to columnSpacing * (ncols - 1) |
| Table.WriteLine | table/table.go:62-82 | the builder's text for a row is the row's formatted line |
| Table.WriteLines | table/table.go:57-83 | one line per row, each the formatted row |
| Table.CreateTableLines | table/table.go:32-85 | one line per row, each formatted with the column maxima; the width returned is the sum of the maxima plus columnSpacing * (ncols - 1) |
| Table.LinesAsWideAsReported | table/table.go:52-81 | every line is exactly as wide as the width returned |
| Table.JoinedGrows | table/table.go:62-80 | writing more columns only appends to a line |
| Table.CellPlacement | table/table.go:68-79 | column j of each line is the padded cell at the column's start offset |
| Table.SeparatorPlacement | table/table.go:65-67 | each column after the first is preceded by exactly columnSpacing spaces |
| Encoding.Sextet | tcrypto/encoding.go:6 | every 6-bit value encodes to a character of the URL-safe alphabet |
| Encoding.SextetValue | tcrypto/encoding.go:10 | every alphabet character decodes to the 6-bit value that encodes to it |
| Encoding.SextetValueOfSextet | tcrypto/encoding.go:6 | decoding a character inverts encoding it |
| Encoding.EncodedLenStep | tcrypto/encoding.go:6 | encoded length is never 1 mod 4 and grows by 4 per 3 bytes |
| Encoding.EncodeBytes | tcrypto/encoding.go:5-7 | the output has length 4*(n/3) plus 0, 2 or 3, and only alphabet characters, so it has no '/', '+' or '=' |
| Encoding.DecodeChars | tcrypto/encoding.go:10 | well-formed text decodes to 3*(len/4) + 0, 1 or 2 bytes |
| Encoding.DecodeBytes | tcrypto/encoding.go:9-11 | decoding succeeds exactly when every character is in the alphabet and the length is not 1 mod 4; otherwise the error gives the first illegal offset, or the last index for a bad length |
| Encoding.DecodeError.Text | tcrypto/encoding.go:9-11 | the decoder's error text is the fixed prefix followed by decimal digits that read back as the offending offset |
| Basics.DecimalValue | tcrypto/encoding.go:9-11 | the decimal text of the error offset reads back as that offset under `DigitsValue` |
| Encoding.DecodeWellFormed | tcrypto/encoding.go:10 | on well-formed text decoding returns the decoded bytes |
| Encoding.GroupRoundTrip | tcrypto/encoding.go:5-11 | a 3-byte group survives encoding and decoding |
| Encoding.Tail1RoundTrip | tcrypto/encoding.go:5-11 | a trailing single byte survives its 2-character encoding |
| Encoding.Tail2RoundTrip | tcrypto/encoding.go:5-11 | two trailing bytes survive their 3-character encoding |
| Encoding.DecodeCharsOfEncode | tcrypto/encoding.go:5-11 | decoding the characters of an encoding gives back the bytes |
| Encoding.DecodeEncode | tcrypto/encoding.go:5-11 | DecodeBytes(EncodeBytes(b)) succeeds with b for every byte sequence |
| Encoding.EncodeIsCanonical | tcrypto/encoding.go:6 | encoder output never has stray low bits in its last character |
| Encoding.EncodeDecodeChars | tcrypto/encoding.go:5-11 | re-encoding the decoding of canonical text gives the text back |
| Encoding.DecodeSuccessIsEncoding | tcrypto/encoding.go:5-11 | text decodes to b and is canonical exactly when it is the encoding of b |
| Encoding.DecodeInjectiveOnCanonical | tcrypto/encoding.go:10 | two different canonical texts decode to different bytes |
| Encoding.NonCanonicalTextsCollide | tcrypto/encoding.go:10 | the lenient decoder maps "AB" and "AA" to the same byte, and "AB" is not canonical |
| Encoding.FourCharactersGiveThreeBytes | tcrypto/ecdh_test.go:44-50 | "AAAA" decodes to three zero bytes, the wrong size for a key |
| Encoding.KeyTextLength | tcrypto/encoding.go:5-11 | a 32-byte key encodes to 43 characters, and any 43 alphabet characters decode to 32 bytes |
| Encoding.OverwrittenPrefixStillDecodes | tcrypto/identity_test.go:29-34 | a key text whose first two characters become "AA" still decodes to 32 bytes |
| Humanhash.AcceptedDigits | tcrypto/humanhash.go:15-25 | the digits are the accepted bytes (below 250) mod 10 in order, never more than the bytes |
| Humanhash.AcceptedDigitsAppend | tcrypto/humanhash.go:15-25 | the digits of two byte runs are the digits of each, concatenated |
| Humanhash.ReadAccepted | tcrypto/humanhash.go:16-24 | reading an accepted byte yields the next digit, and the bytes left still hold the missing digits |
| Humanhash.ReadRejected | tcrypto/humanhash.go:16-22 | reading a rejected byte yields no digit |
| Humanhash.Layout | tcrypto/humanhash.go:26-29 | the text has 8 characters, '-' at index 3 and ASCII digits elsewhere |
| Humanhash.Fingerprint | tcrypto/humanhash.go:11-30 | a fingerprint is 8 characters, '-' at index 3 and ASCII digits elsewhere |
| Humanhash.HumanHash | tcrypto/humanhash.go:11-30 | the loop's result is digits d0 d1 d2 '-' d4 d5 d6 d3 of the first seven accepted bytes |
| Humanhash.NothingRejected | tcrypto/humanhash.go:18-23 | with no byte rejected, the digits are the bytes mod 10 |
| Humanhash.FingerprintOfFirstSeven | tcrypto/humanhash.go:15-29 | when the first seven bytes are all below 250, they alone give the fingerprint |
| Humanhash.PreimagesClosedForm | tcrypto/humanhash.go:18-23 | the count of byte values below n with a given last digit |
| Humanhash.DigitsUnbiased | tcrypto/humanhash.go:18-23 | every digit has exactly 25 preimages among the accepted bytes 0..249 |
| Humanhash.BiasWithoutRejection | tcrypto/humanhash.go:18-21 | without the rejection, 0 would have 26 preimages and 9 only 25 |
| Identity.SignatureInvalidError.Error | tcrypto/errors.go:7-9 | the error text is "signature invalid: " followed by the message |
| Identity.SplitFirst | tcrypto/identity.go:26 | SplitN(s, "/", 2) gives one part (s) exactly when there is no '/', else the text before the first '/' and the text after it |
| Identity.SplitOfJoin | tcrypto/identity.go:26 | splitting a + "/" + b, where a has no '/', gives a and b back |
| Identity.EncodedHasNoSeparator | tcrypto/identity.go:22 | encoded text never contains '/' |
| Identity.SignMessage | tcrypto/identity.go:20-23 | the signed text is as long as the two encodings plus the separator |
| Identity.SignedMessageSplits | tcrypto/identity.go:20-26 | splitting a signed message at its first '/' recovers exactly the encoded message and the encoded signature |
| Identity.VerifySignedMessage | tcrypto/identity.go:25-42 | text without '/' is refused as malformed; a message is returned only if the text is its encoding, '/' and a decodable signature that verifies under the key |
| Identity.SignThenVerify | tcrypto/identity.go:25-42 | if genuine signatures verify, a signed message verifies under its own public key and comes back unchanged |
| Identity.WrongKeyRefused | tcrypto/identity.go:38-40 | under a 32-byte key that does not accept the signature, the result is the verification-failed error |
| Identity.TwoSeparatorsRefused | tcrypto/identity.go:26-37 | text with two or more '/' is refused with a decode error for the message or the signature |
| Identity.PublicKeyToString | tcrypto/identity.go:72-74 | the key text is canonical and 4*(n/3) plus 0, 2 or 3 characters long |
| Identity.IdentityPublicKeyString | tcrypto/identity.go:80-86 | reading a key succeeds exactly when the text is all alphabet characters and not 1 mod 4 long |
| Identity.PublicKeyRoundTrip | tcrypto/identity.go:72-86 | reading back a public key's text gives the same key bytes |
| Identity.TamperedKeyDiffers | tcrypto/identity_test.go:29-37 | a 32-byte key text whose first two characters become "AA" still reads, and gives a different key unless they were "AA" already |
| Identity.HumanID | tcrypto/identity.go:76-78 | the HumanHash fingerprint of the public key's digest; none exactly in the case where HumanHash panics |

## Left out

- Locking: the read/write mutex of `smap.Map` and its concurrency are not modelled, because the model is single-threaded. That includes the documented deadlock when mutating during `All`/`Keys` and the concurrent stress tests.
- Smap.Map.Set: the version is an unbounded `nat`, so the `uint64` wrap-around after 2^64 mutations is not modelled. The same holds for MultiSet, Delete and Clear.
- Smap.Map.Get: returns `Option` in place of Go's pair of a zero value and `false`. The zero value of an arbitrary type has no counterpart here.
- Smap.Map.All: the Go iterator and its range-over-func consumer become a method that calls a pure `visit` function. It returns the calls made, in an order the contract leaves open, as Go's map order is. `Keys` and `Values` are modelled the same way.
- Smap.Map.KeysSorted: requires `less` to be a strict total order on the keys. Go's `sort.Slice` accepts any function, but its result order is only defined for such an order. `AllSorted` has the same requirement.
- Smap.Map.KeysSorted: takes a pure consumer `visit: K -> bool`, so the map cannot change while it is visited, and its ensures that every visited key is in the map rests on that. Go holds no lock while it sorts and yields, so its consumer may Set or Delete, and Go still yields every snapshot key, deleted ones included. That case is modelled by `KeysSortedCursor` and `KeysCursor.Next`, whose consumer is the caller between two `Next` calls (`SmapScenarios.KeysSortedYieldsDeleted`).
- Smap.SortedIterator.Next: the iterator's `visit` loop is a cursor that the caller advances. The lookup of each key in the live map is kept.
- Smap.Map.AllSorted: Go returns a lazy `iter.Seq2` whose closure takes the key snapshot when ranging starts, and again on every later range. The model takes the snapshot at the call, and its `SortedIterator` is used once. A key set between the call and the first `Next` is never seen. `NaturalSort` is modelled the same way.
- Smap.NaturalSort: modelled for integer keys only. `cmp.Ordered` also covers strings and floats, whose orders are not modelled.
- Table.CreateTableLines: a cell's screen width is its length, because `ansipixels.ScreenWidth` (emoji and ANSI sequences) is not part of this model. The `ap` argument is dropped.
- Table.CreateTableLines: requires rectangular rows and, when a row has a second cell, a non-negative spacing. These are the cases where the Go code panics.
- Table.CreateTableLines: with no columns, the width is `-columnSpacing`, as the Go expression computes it.
- Table.Alignment: only the three named alignments exist. An out-of-range `Alignment` integer, which the Go switch writes nothing for, is not representable.
- `WriteTableBoxed` is not modelled, because it is terminal drawing.
- Encoding.DecodeBytes: Go's decoder skips `\r` and `\n` anywhere in the input. The model refuses them as illegal characters.
- Humanhash.HumanHash: takes the 32-byte SHA-256 digest as input, because SHA-256 is not modelled. It requires seven accepted bytes, since the Go loop panics without them. `Identity.HumanID` models that case as `None`.
- Identity: Ed25519 signing and verification are function-valued parameters. The one property assumed of them, that a key pair's own signatures verify, is the predicate `GenuineSignaturesVerify`, which `SignThenVerify` requires.
- Identity.VerifySignedMessage: Go's `ed25519.Verify` panics when the public key is not 32 bytes long. `IdentityPublicKeyString` performs no length check, so a key read from "AAAA" (3 bytes) makes `VerifySignedMessage` panic once both halves decode. The model's `verify` is total, so that panic becomes an ordinary result. `WrongKeyRefused` therefore requires a 32-byte key.
- Identity.SignMessage: Go's `ed25519.Sign` panics on a private key that is not 64 bytes long. The model's `sign` is total, so `SignMessage` returns a text there.
- Identity: the tag arguments of the `EncodeBytes`/`DecodeBytes` calls in `tcrypto/identity.go` are dropped, as explained above.
- Identity: key generation (`NewIdentity`), `IdentityFromPrivateKey` and `PrivateKeyToString` are not modelled, because they rest on randomness and on Ed25519's derivation of the public key.
- Identity: nothing is proved about detecting a tampered signature. Replacing the last character of a 64-byte signature's text can leave the decoded bytes unchanged, so no general claim holds.
- `tcrypto/ecdh.go`, `tcrypto/file.go`, `main.go` and `tsnet/tsnet.go` are not part of this model. They cover X25519 key exchange, file persistence, the terminal UI and network discovery.
