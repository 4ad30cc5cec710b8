# Anonymous-download limiter: a Dafny model

This project models the before-download hook of a repository manager that
stops anonymous users from downloading out of repositories whose key contains
"local" (ignoring case). The key "c1" is exempt. Every other request proceeds.
The hook is a pure decision over three inputs:

- the requester's user context, which may be missing;
- the requested repository path, which may be missing;
- the original repository path, which is set when a virtual repository
  resolves to a backing repository.

Its output is a status (PROCEED or STOP), a message, and the repository path
echoed back unchanged.

Modules:

- `Options`: `Option`, standing for the `| undefined` fields.
- `Strings`: ASCII lower-casing, `startsWith` and `includes`. Each comes with
  a reference definition and a lemma connecting the two.
- `Types`: the consumed parts of `UserContext`, `RepoPath`,
  `DownloadMetadata`, the request, `ActionStatus` and the response.
- `Worker`: the hook itself, with these parts:
  - `IsAnonymous`, the anonymity test;
  - `CollectRepoKeys`, which gathers the candidate keys;
  - `Blocks`, the policy for one key;
  - `FirstBlocking`, the first-match scan;
  - `Decide`, the functional form of the decision;
  - `Run`, the handler as an imperative loop inside the fail-closed guard.
- `WorkerScenarios`: the hook's six test scenarios, plus two case-sensitivity
  examples.

Two details of the handler are easy to misread:

- On PROCEED the message is "Download request allowed" (worker.ts:67). It is
  not the initial empty string (worker.ts:8).
- A missing requested key does not by itself give PROCEED. The original key is
  still checked (worker.ts:40-42), so an anonymous request can stop on it
  alone. `Worker.OriginalKeyNamed` covers this case.

## Model

`Worker.KeyOf` (`path?.key` used as a condition, worker.ts:36, 40) and
`Worker.PassThrough` (`data.metadata?.repoPath`, worker.ts:83) are plain
definitions. Their meaning is stated by the contracts of
`Worker.CollectRepoKeys` and `Worker.Decide`, as is the case for
`IsAnonymous`, `Blocks`, `StartsWith` and `Contains`.

| member | source | states |
|---|---|---|
| Worker.IsAnonymousIff | worker.ts:24-29 | A requester is anonymous exactly when any of five things holds: there is no user context, the id is empty, the id is "anonymous", the id starts with "anonymous@", or the realm is "anonymous". All comparisons are case-sensitive. The trailing `id === ''` test adds nothing. |
| WorkerScenarios.IdentityIsCaseSensitive | worker.ts:24-29 | Identity fields are not case-folded: id "Anonymous" in realm "internal" is not anonymous. |
| Strings.StartsWithIffPrefix | worker.ts:27 | `startsWith` compares characters one by one. It holds exactly when the prefix is no longer than the string and equals the string's first characters. |
| Strings.LowerChar | worker.ts:47-48 | ASCII case folding never yields an upper-case letter. It shifts A-Z onto a-z and leaves every other character alone. |
| Strings.ToLower | worker.ts:47-48 | Lower-casing keeps the length and folds each character in place. |
| Strings.ToLowerIdempotent | worker.ts:47-48 | Lower-casing an already lower-cased string changes nothing. |
| Strings.ToLowerOfLowerCase | worker.ts:47-48 | A string with no upper-case letter is its own lower-cased form. |
| Strings.ToLowerPointwise | worker.ts:47-48 | Lower-casing is fixed by its per-character results. A string of the same length whose every character is the folded character of the input is the lower-cased form. |
| Strings.OccurrencesStartWithPair | worker.ts:47 | Wherever a fragment of two or more characters occurs, its first two characters stand side by side in the string. |
| Strings.NoAdjacentPairNoContains | worker.ts:47 | `includes` fails for a fragment of two or more characters when its first two characters never stand side by side in the string. |
| Strings.ContainsIffOccurs | worker.ts:47 | The left-to-right `includes` scan succeeds exactly when the fragment occurs at some offset of the string. |
| Strings.ContainsIsBounded | worker.ts:47 | A string contains only fragments no longer than itself. |
| Strings.ContainsFirstChar | worker.ts:47 | When a non-empty fragment occurs in a string, its first character occurs in that string too. |
| Worker.CollectRepoKeys | worker.ts:34-42 | There are at most two candidate keys and none is empty. The list has one entry for each present non-empty key, so two equal keys appear twice. A string is a candidate exactly when it is the non-empty key of the requested path or of the original path. The requested key, when present, comes first. The original key, when present, comes last. |
| Worker.FirstBlocking | worker.ts:46-61 | The scan finds nothing exactly when no candidate blocks. Otherwise it returns a blocking candidate, and no earlier candidate blocks. |
| Worker.ExemptionIsVacuous | worker.ts:47-50 | The "c1" exemption never decides anything. A key blocks exactly when its lower-cased form contains "local", because such a form has at least five characters. |
| Worker.OccurrenceBlocks | worker.ts:47-50 | Any occurrence of "local" in the lower-cased key blocks it. |
| Worker.NoLetterLNeverBlocks | worker.ts:47-50 | A key with no `l` or `L` in it never blocks. |
| Worker.BlocksIgnoresCase | worker.ts:47-48 | A key blocks exactly when its lower-cased form blocks. |
| Worker.BlockedMessage | worker.ts:53 | The stop message is the fixed prefix followed by the key exactly as supplied, not lower-cased. |
| Worker.BlockedMessageInjective | worker.ts:53 | Different keys give different stop messages, so the message identifies the key. |
| Worker.ErrorMessage | worker.ts:76 | The failure message starts with "Error processing download request: ". The cause follows, or "Unknown error" when the cause is empty. |
| Worker.MessagesAreDistinct | worker.ts:53-76 | The stop, allow and failure messages never coincide. |
| Worker.Decide | worker.ts:24-84 | The result is STOP exactly when metadata is present, the requester is anonymous and some candidate key blocks. A STOP message is the prefix plus a blocking candidate key. A PROCEED message is "Download request allowed". The echoed path is always `metadata.repoPath` unchanged, and absent when there is no metadata. |
| Worker.Run | worker.ts:5-85 | An error raised while reading the request gives STOP with the failure message, and the request's path is still echoed. Otherwise the loop with its early return gives exactly the decision of `Decide`. |
| Worker.NonAnonymousProceeds | worker.ts:32-67 | A requester who is not anonymous always proceeds with "Download request allowed", whatever the repository keys. |
| Worker.MissingMetadataProceeds | worker.ts:32-83 | Without metadata the request proceeds even when anonymous, and no path is echoed. |
| Worker.StopIffSomeKeyBlocks | worker.ts:32-62 | Without the candidate list: STOP holds exactly when metadata is present, the requester is anonymous, and the present non-empty requested key or original key blocks. |
| Worker.RequestedKeyWins | worker.ts:36-60 | When the requested key blocks, the stop message names it. This holds whatever the original key is. |
| Worker.OriginalKeyNamed | worker.ts:40-60 | When the requested key is missing or does not block but the original key blocks, the result is STOP and the message names the original key. |
| WorkerScenarios.AnonymousStoppedAt | worker.ts:46-60 | An anonymous request for any blocking key stops. The message names that key and the request's path is echoed. |
| WorkerScenarios.AnonymousStoppedThrough | worker.ts:40-60 | An anonymous request for a virtual repository stops when the repository's own key does not block but its original key does. The message names the original key, and the requested path is echoed. |
| WorkerScenarios.LowerCaseOccurrence | worker.ts:47-50 | A key with no upper-case letter and "local" at some offset blocks. |
| WorkerScenarios.FoldsToOccurrence | worker.ts:47-50 | A key whose folded characters spell a string with "local" at some offset blocks. |
| WorkerScenarios.LowerCaseWithoutLo | worker.ts:47-50 | A key with no upper-case letter in which `l` is never followed by `o` does not block. |
| WorkerScenarios.AnonymousProceedsAt | worker.ts:46-67 | An anonymous request for any key that does not block proceeds and echoes the path. |
| WorkerScenarios.AuthenticatedUserProceeds | worker.spec.ts:21-39 | "authenticated-user" in realm "internal" proceeds at "my-local-repo". |
| WorkerScenarios.AnonymousStoppedAtLocalRepo | worker.spec.ts:41-60 | An anonymous user stops at "my-local-repo", and the message starts "Anonymous users are not allowed". |
| WorkerScenarios.AnonymousProceedsAtC1 | worker.spec.ts:62-80 | An anonymous user proceeds at "c1". |
| WorkerScenarios.AnonymousProceedsAtRemoteRepo | worker.spec.ts:82-100 | An anonymous user proceeds at "remote-repo". |
| WorkerScenarios.AnonymousStoppedAtRemoteLocalRepo | worker.spec.ts:102-121 | An anonymous user stops at "remote-local-repo", and the message is "Anonymous users are not allowed to download from repository: remote-local-repo". |
| WorkerScenarios.AnonymousStoppedAtVirtualRepoOverLocal | worker.spec.ts:123-150 | An anonymous user stops at "virtual-repo" resolving to "my-local-repo". The message is the stop prefix followed by "my-local-repo", and the "virtual-repo" path is echoed. |
| WorkerScenarios.UpperCaseKeyStops | worker.ts:47-48 | Keys are folded before matching, so "MY-LOCAL-REPO" stops an anonymous user. |

## Left out

- Logging (worker.ts:15-17, 54, 70, 77): it has no effect on the decision.
- The `async` wrapper and the `PlatformContext` argument (worker.ts:1, 5): the context is never used. The handler is modelled as a plain function and method.
- Exceptions (worker.ts:73-78): nothing in the body can throw on well-typed input. The guard is modelled by the `fault` argument of `Worker.Run`, which stands for an error raised while reading the request. Its value is the error's message, with "" standing for a missing or empty message.
- Strings.ToLower: folds only ASCII `A`-`Z`, whereas the runtime's `toLowerCase` folds all of Unicode. Non-ASCII characters are left unchanged. The decision is unaffected. The only non-ASCII characters whose Unicode lower-case form contains ASCII letters are U+212A (to "k") and U+0130 (to "i" plus a combining dot). Neither letter occurs in "local" or "c1", so under either folding a key's lower-cased form contains "local" in the same cases, and equals "c1" in the same cases.
- Strings.ToLower: JavaScript strings are sequences of UTF-16 code units, and the model's strings are sequences of Unicode scalar values, so lone surrogates cannot be represented. This makes no difference to the decision, because "local", "c1" and the "anonymous" texts are all ASCII.
- Worker.IsAnonymous: `UserContext.id` and `realm` are strings, as their type declares (types.ts:75-82). An `id` missing at runtime is falsy just as "" is, so it falls under the empty-id case.
- Unused fields: request headers, the metadata fields other than the two repository paths, and the response's `executionStatus`, `headers` and `expired` (types.ts:8, 24-55, 98-100, 105). The decision never reads or writes them.
- Unused enum members: `UNSPECIFIED`, `WARN` and `UNRECOGNIZED` of `ActionStatus`, and the `RepoType` enum. The decision produces only PROCEED and STOP.
