# Redis adapter: a verified model

The program is a one-shot command-line adapter. It reads a JSON document holding a list of
`(inputname, compvalue)` parameters and runs one Redis command: `set`, `get`, `del`,
`exists` or `keys`. It prints a JSON envelope `{result, error}`. All of it is the function
`main` in `main.go`. This project models that function in three stages.

- **Parameter extraction** (`main.go:33-64`).
  - The imperative loop becomes the method `Params.Extract`, which has an invariant over the processed prefix. It is proved equal to the left fold `Params.Normalize`.
  - Names are matched after `strings.ToLower`. Values go through `strings.TrimSpace` (module `Text`).
  - `db` and `expiration` go through `fmt.Sscanf(val, "%d", …)`, modelled as `Scan.ScanInt`. The grammar is an optional sign and at least one decimal digit; trailing text is ignored. The value must fit in a 64-bit `int`, otherwise the scan fails. When the scan fails, the variable keeps its previous value.
  - An independent table-like description (`Params.Assignment`: which variable a parameter assigns, and to what) is connected to the fold by `Params.LastAssignmentWins`. The per-variable rules are derived from that.
- **Validation** (`main.go:66-74`). `Dispatch.Validate` checks in order: first `addr is required`, then `key is required`, unless the action is `keys`.
- **Dispatch and shaping** (`main.go:86-122`).
  - `Dispatch.Select` is the `switch` on the action.
  - The Redis server is replaced by `Store`: a keyspace of entries with distinct keys.
    - `Store.Execute` runs one command against it.
    - Whether the call fails (network, authentication, protocol) is a parameter `fault`.
  - `Dispatch.Shape` builds the envelope. `Dispatch.Respond` and `Adapter.Run` put the stages together.
  - `Adapter.Invoke` is `main` written step by step, and is proved equal to `Adapter.Run`.

Three behaviours of the code are easy to misread, and the model follows the code:

- The action names are `del` and `keys`, not `delete` and `list-keys`.
  - `delete` gets `invalid action` (`Dispatch.DeleteIsInvalid`).
  - `list-keys` without a key gets `key is required` (`Dispatch.ListKeysNeedsKey`).
- A `db` or `expiration` value that does not scan keeps the earlier value. It is not reset to 0.
- A negative `expiration` is accepted and passed on unchanged.

## Model

| member | source | states |
|---|---|---|
| Text.TrimSpaceSlice | main.go:45 | the trimmed value is a contiguous slice of the input; everything cut off is white space; the result neither starts nor ends with white space |
| Text.TrimSpacePadded | main.go:45 | white space added around an already trimmed value is removed again: trimming recovers exactly that value |
| Text.TrimSpaceIdempotent | main.go:45 | trimming twice is trimming once |
| Text.LowerChar | main.go:46 | the result is never an upper-case letter; upper-case ASCII letters map to their lower-case partner, every other character to itself |
| Text.LowerAt | main.go:46 | lower-casing keeps the length and maps each character independently |
| Text.LowerFixesLowerCase | main.go:46 | the result of lower-casing is lower-case, and a string is left unchanged exactly when it is already lower-case |
| Text.LowerIdempotent | main.go:55 | lower-casing twice is lower-casing once |
| Scan.DigitRun | main.go:52 | the length of the longest leading run of decimal digits |
| Scan.ScanInt | main.go:52 | a successful `%d` scan always yields a value within the 64-bit range |
| Scan.ScanUnsigned | main.go:52 | a value is produced only when the text after the sign begins with a digit, and it lies within the 64-bit range |
| Scan.FormatNat | main.go:52 | the decimal rendering is non-empty, all digits, and has no leading zero |
| Scan.DigitsValueFormatNat | main.go:52 | reading back the decimal rendering of a natural number gives the number |
| Scan.ScanFormat | main.go:52 | the decimal rendering of any integer, followed by anything that does not start with a digit, scans back to that integer when it fits in 64 bits, and fails otherwise |
| Scan.ScanNeedsDigit | main.go:52 | text that starts with neither a digit nor a sign followed by a digit (the empty value included) never scans |
| Store.Keys | main.go:93-108 | exactly the keys of the stored entries |
| Store.Lookup | main.go:92-93 | a value is found exactly when the key is present, and the entry stored is that key with that value |
| Store.Put | main.go:87-88 | SET adds the key, keeps the keys distinct, stores the value, and leaves every other key's value unchanged |
| Store.Remove | main.go:94-96 | DEL removes the key and keeps the keys distinct; no value is left behind under it; every other key is untouched |
| Store.GlobStar | main.go:104-107 | the pattern `*` matches every key |
| Store.GlobLiteral | main.go:104 | a pattern without wildcards matches exactly the key spelled the same way |
| Store.Matching | main.go:108 | KEYS lists exactly the present keys that match the pattern, without duplicates |
| Store.Execute | main.go:86-108 | the reply has the type the client returns for the command; a failing call is an error and leaves the store as it was; `redis.Nil` arises only from GET of an absent key; key distinctness is preserved |
| Params.Extract | main.go:33-64 | the extraction loop over the seven variables computes the fold `Normalize` of the parameter list |
| Params.StepAssigns | main.go:46-63 | one loop turn changes exactly the variable the parameter assigns, to the value it assigns, and no other |
| Params.LastAssigner | main.go:44-63 | the index of the last parameter that assigns a variable, or none when no parameter does |
| Params.LastAssignmentWins | main.go:33-64 | after the loop, each variable holds what its last assigning parameter assigned, and its initial value when none does |
| Params.LastAssignmentAt | main.go:44-63 | a variable holds the assignment of the parameter that is the last to assign it |
| Params.NoAssignment | main.go:33-41 | a variable that no parameter assigns keeps its declared initial value |
| Params.TextAssigns | main.go:47-60 | an `addr`/`password`/`key`/`value` parameter always assigns, whatever its value, and assigns the trimmed value |
| Params.ActionAssigns | main.go:53-56 | an action parameter assigns exactly when its trimmed value is non-blank, and assigns it lower-cased |
| Params.NumberAssigns | main.go:51-62 | a `db`/`expiration` parameter assigns exactly when its trimmed value scans as an integer, and assigns the scanned integer |
| Params.TextSlotDefault | main.go:34-39 | `addr`, `password`, `key` and `value` are empty when no parameter names them |
| Params.TextSlotLastWins | main.go:47-60 | with repeated `addr`/`password`/`key`/`value` parameters, the trimmed value of the last occurrence wins |
| Params.ActionDefault | main.go:37-56 | `action` is `get` when no action parameter has a non-blank value |
| Params.ActionLastNonBlankWins | main.go:53-56 | otherwise it is the lower-cased, trimmed value of the last non-blank action parameter; later blank ones change nothing |
| Params.NumberSlotDefault | main.go:36-62 | `db` and `expiration` stay 0 when no parameter of that name scans |
| Params.NumberSlotLastScannedWins | main.go:51-62 | otherwise they hold the scanned value of the last parameter that scans; later values that do not scan leave it unchanged |
| Params.IneffectiveStep | main.go:46-63 | a parameter with an unknown name, a blank action or an unscannable number changes no variable |
| Params.Effective | main.go:44-63 | a parameter of the input is kept exactly when it assigns something |
| Params.IneffectiveIgnored | main.go:44-63 | dropping every parameter that assigns nothing does not change the outcome of the loop |
| Params.CaseAndPaddingIgnored | main.go:45-46 | parameter lists whose names agree after lower-casing and whose values agree after trimming give the same variables |
| Params.NormalizeInvariant | main.go:37-62 | after the loop `action` is non-empty and lower-case, and `db` and `expiration` lie within the 64-bit range |
| Dispatch.Validate | main.go:66-74 | an empty address always gives `addr is required`; with an address, `key is required` is given exactly when the key is empty and the action is not `keys` |
| Dispatch.ActionOf | main.go:86-108 | every command the switch can issue belongs to one of the five action names |
| Dispatch.KeysPattern | main.go:102-107 | the pattern is never empty; it is the key when there is one |
| Dispatch.Select | main.go:86-112 | a command is selected exactly when the action is one of `set`, `get`, `del`, `exists`, `keys`, and it is the command of that action |
| Dispatch.SelectArguments | main.go:88-108 | every selected command carries the request's key (and for SET its value and expiration), or for KEYS the pattern made from the key |
| Dispatch.Shape | main.go:114-122 | the envelope never has both a result and an error; it has an error exactly when the call failed, namely `redis error: ` and the failure's text; the result is null exactly for a failure or `redis.Nil`; only DEL gives an integer; EXISTS gives a boolean |
| Dispatch.Respond | main.go:66-122 | the envelope is well formed; when no command is issued the keyspace is unchanged and there is an error with a null result; a command is issued exactly when both checks pass and the action is known |
| Dispatch.AddrChecked | main.go:67-70 | an empty address gives exactly `addr is required`, whatever else the request holds, and no command |
| Dispatch.KeyChecked | main.go:71-74 | with an address but no key, every action other than `keys` gives exactly `key is required` and no command |
| Dispatch.InvalidAction | main.go:109-111 | an unknown action that passes validation gives exactly `invalid action` and no command |
| Dispatch.DeleteIsInvalid | main.go:94-111 | the action `delete` is unknown and gives `invalid action` |
| Dispatch.ListKeysNeedsKey | main.go:71-102 | the action `list-keys` without a key is refused with `key is required` |
| Dispatch.StoreFailure | main.go:117-119 | a failing store call gives a null result and `redis error: ` followed by its text, and changes nothing |
| Dispatch.SetStores | main.go:87-91 | SET answers `OK`, issues SET with the key, value and expiration, stores the value, and leaves other keys alone |
| Dispatch.GetReads | main.go:92-121 | GET answers the stored text, or a null result with an empty error when the key is absent |
| Dispatch.DelCounts | main.go:94-97 | DEL answers the integer count of removed keys (1 or 0) and removes the key |
| Dispatch.ExistsTests | main.go:98-101 | EXISTS answers the boolean "is the key present", never a count |
| Dispatch.KeysLists | main.go:102-108 | KEYS answers a list of exactly the keys that match, each once; with an empty key every key is listed |
| Dispatch.KeysWithoutKey | main.go:71-108 | with action `keys` and no key, validation passes and the one command sent is KEYS `*` |
| Dispatch.SetThenGet | main.go:87-93 | a GET following a SET of the same key, sent to the same server and database, reads back the value that was set |
| Adapter.Run | main.go:26-122 | the envelope is well formed; the keyspace changes only when a command is issued; undecodable input gives `failed to decode input: ` and the decoder's text |
| Adapter.Invoke | main.go:26-122 | decoding, the extraction loop, the checks and the single store call, step by step, compute `Run` |
| Adapter.AddrRequired | main.go:44-70 | when every `addr` parameter is blank, or there is none, the run answers exactly `addr is required` and issues no command |

## Left out

- JSON decoding from standard input and encoding to standard output. The input arrives already decoded as a parameter list, or as a decoding failure with its text. The envelope is a datatype, and its JSON rendering is not modelled.
- The Redis client, its options (`addr`, `password`, `db`), `context.Background` and the network. The server is the abstract keyspace `Store`. Whether a call fails is the parameter `fault`. A failing call is assumed to leave the keyspace unchanged.
- Store.Execute: the TTL of SET is carried in the command but has no effect. Expiry over time and the `time.Duration(expiration)*time.Second` conversion and overflow are not modelled.
- Store.Glob: only `*`, `?` and literal characters. Character classes and backslash escapes of Redis patterns are not modelled. The server matches a key's UTF-8 bytes; the model matches characters. On non-ASCII keys the model's `?` is therefore not the server's `?`: the model's `?` matches `é`, while the server needs `??` for it. `*` and literal characters agree with the server on valid UTF-8.
- Store.Matching: the order of the KEYS reply is the keyspace's entry order. The real server's order is unspecified.
- Dispatch.Shape: requires that the reply has the type the client returns for the command (`Store.Answers`). That typing is the client library's and is not checked by `main`.
- Text.LowerChar: lower-cases ASCII letters only. `strings.ToLower` also maps non-ASCII letters, for example the Kelvin sign lower-cases to `k`, so the model would not treat such a name as `key`.
- Scan.ScanInt: assumes Go's `int` is 64 bits wide.
