# fs-env edit pipeline in Dafny

fs-env keeps an application's environment variables in one DynamoDB record. The record is
keyed by stack name, and its `envs` attribute maps each variable to its value. The command
`fs-env -s stack [-d key] [-e] [key=value ...]` runs the pipeline modelled here:

- it loads the stored variables into an in-memory map;
- with no pairs and no `--delete`, it prints one `k=v` line per variable and stops;
- otherwise it applies the optional delete, then each `key=value` argument in order, and prints
  a diff line for each change (`- k=old`, `+ k=new`);
- when `--encrypt` is set, each value is replaced by KMS ciphertext and the key is renamed so
  that it ends in `_KMS`;
- it writes the final map back.

Any error on the way (a missing delete key, a pair without `=`, a KMS failure) stops the run
with exit status 1, and nothing is written back.

Modules:

- `Pairs` (`pairs.dfy`): `strings.SplitN(pair, "=", 2)` as a split on the first `=`.
- `KmsNames` (`kms.dfy`): the `_KMS` suffix rename.
- `DiffLines` (`diff.dfy`): the lines the program prints, and their exact text.
- `EnvEdit` (`env_edit.dfy`): the pipeline itself, as imperative methods over a map and an
  output-line sequence, each with its own contract:
  - `Load` copies the fetched record entry by entry, and ends with a map equal to it.
  - `ListEntries` loops over the keys and ends with lines satisfying `ListsExactly`: one
    `k=v` line per entry.
  - `SetPair` applies one argument, without a loop, and matches one `Step`.
  - `SetPairs` loops over the arguments and matches `Replay` of all of them.
  - `Run` chains these and matches `Edited` (the delete step `Delete`, then `Replay`),
    except on the list path, where it promises `ListsExactly`.
- `EditProperties` (`edit_properties.dfy`): what the specification guarantees across whole runs.
- `Scenarios` (`scenarios.dfy`): concrete runs worked out in full.

External inputs are parameters:

- The fetched record is a `map<string, string>`. An absent record is the empty map.
- The KMS service is `kms: nat -> KmsReply`, the reply to the i-th `Encrypt` call. The reply is
  either the base64 ciphertext text or the error message. With encryption on, every
  well-formed pair makes exactly one call, so call i belongs to argument i.
- Output is the sequence of printed lines, without the trailing newline. The persisted map and
  the exit status are carried by `Outcome`.

## Model

| member | source | states |
|---|---|---|
| Pairs.FirstIndexFrom | main.go:134 | the result is the first position at or after `from` holding the separator, or none when no later position holds it |
| Pairs.SplitPairRoundTrip | main.go:134-140 | a pair is rejected exactly when it has no `=`; otherwise `key + "=" + value` rebuilds the pair and the key holds no `=` |
| Pairs.SplitPairUnique | main.go:134-140 | any split of a pair into an `=`-free key, `=`, and a rest is the one the parser returns, so the value keeps later `=` signs |
| Pairs.SplitPairExamples | main.go:134-140 | `A=b=c` splits as `A` / `b=c`, `KEY=` gives an empty value, spaces around `=` are kept, `=v` gives an empty key |
| Pairs.SplitPairRejects | main.go:134-138 | `BADPAIR` and the empty string are not valid pairs |
| KmsNames.KmsNameShape | main.go:153-155 | the renamed key always ends in `_KMS`, equals the original exactly when the original already ends in `_KMS`, starts with the original key, and gains no `=` |
| KmsNames.KmsNameIdempotent | main.go:153-155 | renaming twice is the same as renaming once |
| DiffLines.RenderedLinesReparse | main.go:116-161 | a printed `k=v` line, and a `+ k=v` line after its two-character prefix, parse back to the same key and value |
| EnvEdit.Delete | main.go:122-130 | an empty flag changes nothing; a present key is removed, the other keys keep their values and one `- key=old` line is emitted; an absent key stops with `key doesn't exist` |
| EnvEdit.StopIsFinal | main.go:135-151 | once the run has stopped, no later argument changes the state or the output |
| EnvEdit.ListsKeysExtend | main.go:115-117 | adding the line for a not-yet-listed key extends a listing of some keys to a listing of one more key |
| EnvEdit.Load | main.go:108-112 | the in-memory map equals the fetched record |
| EnvEdit.ListEntries | main.go:114-117 | the lines are pairwise distinct, there is exactly one `k=v` line per entry, with that entry's value, and nothing else; no order is promised |
| EnvEdit.SetPair | main.go:133-161 | applying one argument gives the state and lines of `Step`, and reports whether the run goes on |
| EnvEdit.SetPairs | main.go:133-162 | the loop over the arguments ends in the state `Replay` assigns to the whole argument list |
| EnvEdit.Run | main.go:108-175 | with no arguments and no delete, the result is a listing of exactly the fetched entries and nothing is written; otherwise it is `Edited`: failure, or the final map to persist, with the printed lines |
| EditProperties.AssignmentMeaning | main.go:134-156 | a pair without `=` aborts with the malformed-pair message; a KMS error aborts with its message; otherwise the plain key and value are the split of the pair, and with encryption the key is the `_KMS` rename and the value is the ciphertext |
| EditProperties.SetStoresKey | main.go:157-161 | after a well-formed pair, its key holds its value and every other key is unchanged; the lines added are `- k=old` then `+ k=v` when the key existed, only `+ k=v` otherwise |
| EditProperties.DeleteAbsentFails | main.go:126-129 | deleting an absent key fails with exit status 1 and the single line `key doesn't exist`, whatever the arguments |
| EditProperties.ReplayAfterLines | main.go:133-162 | lines already printed before the loop are kept as a prefix; the loop only appends |
| EditProperties.DeleteComesFirst | main.go:121-162 | a run with a present delete key is the run without the key and without a delete flag, with the `- key=old` line printed first |
| EditProperties.DeleteOnly | main.go:122-175 | a delete with no pairs persists the record without the key, keeps every other value, and prints exactly the `- key=old` line |
| EditProperties.RunningBefore | main.go:133-162 | if the run is still going after n arguments, it was going after every earlier count |
| EditProperties.MalformedPairStops | main.go:135-138 | the first malformed argument ends the run: its error line comes right after the lines printed so far and no later argument is applied |
| EditProperties.RunsWhenWellFormed | main.go:133-162 | when every argument has `=` and, with encryption, every KMS call succeeds, the loop never stops |
| EditProperties.PersistsIffWellFormed | main.go:122-175 | the map is persisted exactly when the delete key was empty or present, every argument had `=`, and with encryption every KMS call succeeded |
| EditProperties.LastWriteWins | main.go:133-175 | in the persisted map, a key written by some argument holds the value of the last argument that wrote it; a key no argument wrote keeps its value from before the loop |
| EditProperties.AdditionsAppend | main.go:158-161 | the `+` lines of two concatenated outputs are the `+` lines of each, in order |
| EditProperties.AdditionsOfSetLines | main.go:157-161 | setting a key prints exactly one `+` line, for that key and value |
| EditProperties.AdditionsInOrder | main.go:133-162 | after n applied arguments, the `+` lines are the earlier ones followed by one `+ key=value` per argument, in input order |
| Scenarios.TwoNewKeys | main.go:133-175 | `FOO=bar BAZ=qux` on an empty record prints two `+` lines in order and persists both keys |
| Scenarios.OverwriteKey | main.go:157-161 | overwriting `FOO` prints `- FOO=old` then `+ FOO=new` and persists the new value |
| Scenarios.DeleteOnlyKey | main.go:122-175 | deleting the only key persists an empty record and prints `- FOO=bar` |
| Scenarios.DeleteMissingKey | main.go:126-129 | deleting `MISSING` fails with the single line `MISSING doesn't exist` |
| Scenarios.BadPairAfterGood | main.go:133-138 | `FOO=bar BADPAIR` prints `+ FOO=bar`, then the malformed-pair error, and persists nothing |
| Scenarios.EncryptedKey | main.go:142-161 | with encryption, `SECRET=topsecret` stores the ciphertext under `SECRET_KMS` |

## Left out

- Flag parsing, `--help`, `--version` and the missing-stack error (main.go:60-80) are command-line scaffolding. A flag error exits with status 12, `exitCodeFlagParseError` at main.go:25 and 63. `exitCodeAWSError` (13) is never used, since AWS failures exit with status 1. The model keeps only exit statuses 0 and 1.
- The AWS session, `GetItem`, `PutItem` and `dynamodbattribute.Marshal` (main.go:83-106, 165-179) are network I/O. The fetched record is an input map, and the persist is the `Persist` outcome. Their failures are not modelled. A stored entry without a `Value` string, which makes the program crash at main.go:110, is not modelled either.
- The KMS `Encrypt` call and the base64 encoding (main.go:143-152) are foreign calls. Their result, or their error message, is the `kms` parameter. The model makes no claim about which plaintext is encrypted. The code sends the fixed bytes `PAYLOAD`, not the value given on the command line, although the flag's help text says "Encrypt the config value with KMS" (main.go:37, 51). The model follows the code and leaves the plaintext out.
- Go map iteration order (main.go:115) is unspecified. `EnvEdit.ListEntries` picks keys in an arbitrary order, and its contract fixes the set of lines, not their order.
- The trailing newline on each printed line, and the fact that errors go to standard output rather than standard error, are not modelled.
- The `{"Value": v}` wrapper around each stored value (main.go:110, 160) is flattened: the model maps keys straight to values.
