# Project registry model

A Dafny model of the Mori "project root" registry. It is a small state machine that records conservation and regeneration projects. It keeps:

- one `admin` identity, the only caller allowed to pause registration, hand over the admin role, or deactivate a project;
- a global `paused` flag, which blocks new registrations only;
- a monotonic `projectCounter`, which hands out IDs 1, 2, 3, …;
- a `projects` map from ID to a `Project` record (owner, location, metadata URI, registration block height, active flag).

Every operation answers either a value or exactly one error from a closed set. Each error has a numeric code: 100 NotAuthorized, 101 AlreadyRegistered, 102 NotFound, 103 InvalidMetadata, 104 Paused.

The project has two modules:

- `RegistryState` (`registry_state.dfy`) models the registry as values. It holds the records, the error codes and the registry state. It has one pure transition function per state-changing operation (`SetPausedStep`, `TransferAdminStep`, `RegisterProjectStep`, `DeactivateProjectStep`). It also has a `Call` datatype and a function `Run` that applies a sequence of calls. The lemmas cover single operations and, by induction, whole sequences of calls.
- `ProjectRoot` (`project_root.dfy`) holds `class Registry`. Its four fields are updated in place, as the original object's are. Each state-changing method has `modifies this`. Its contract states the new fields and the answer outright, and also shows that the method takes exactly the matching `RegistryState` transition from `old(Snapshot())`. So every trace lemma holds for any sequence of method calls on one registry. The lookups are functions with `reads this`.

The invariant `Inv` is stated more strongly than "every key lies in [1, projectCounter]". It says the keys of `projects` are exactly 1 through `projectCounter`. This holds after construction and after every call. From it follows that the counter equals the number of stored projects, deactivated ones included.

The original stores a project's `registeredAt` as whatever block height the caller passes. Here that height is a `nat` parameter, and caller identities are opaque strings compared only for equality.

The original performs no check that the admin identity is non-empty. `TransferAdmin` accepts any string, the empty string included, and the model follows the code in this.

## Model

| member | source | states |
|---|---|---|
| `RegistryState.Code` | tests/project-root.test.ts:14-20 | every error is reported under a code in 100..104; 100 is exactly NotAuthorized and 104 exactly Paused |
| `RegistryState.CodeInjective` | tests/project-root.test.ts:14-20 | no two errors share a code |
| `RegistryState.NonAdminRejected` | tests/project-root.test.ts:30-67 | a caller other than the admin gets NotAuthorized from setPaused, transferAdmin and deactivateProject, and the state is unchanged |
| `RegistryState.SetPausedByAdmin` | tests/project-root.test.ts:34-38 | the admin sets `paused` to the argument and gets it back, nothing else changes, and repeating the call is a successful no-op |
| `RegistryState.TransferAdminHandsOver` | tests/project-root.test.ts:40-44 | the admin can hand the role to any identity with no validation and gets true; afterwards the admin test passes exactly for the new admin, so the old one is refused |
| `RegistryState.PausedRejectsRegistration` | tests/project-root.test.ts:46-47 | while paused, registration answers Paused for every input, with no state change, before any length check |
| `RegistryState.InvalidMetadataRejected` | tests/project-root.test.ts:47-49 | when not paused, a location of length 0 or over 100, or a URI of length 0 or over 256 (the limits of lines 11-12), answers InvalidMetadata with no state change |
| `RegistryState.RegisterProjectSucceeds` | tests/project-root.test.ts:46-64 | registration succeeds iff unpaused and both lengths are valid; it then answers old counter + 1, which was unused, sets the counter to it, stores the caller's active record there, and leaves other records, admin and paused unchanged |
| `RegistryState.DeactivateProjectByAdmin` | tests/project-root.test.ts:66-74 | the admin's deactivation of an existing ID clears only that record's active flag and answers true, and repeating it yields the same outcome; a missing ID answers NotFound with no change |
| `RegistryState.RejectedCallChangesNothing` | tests/project-root.test.ts:34-74 | any call that answers an error leaves the state unchanged, and no call ever answers AlreadyRegistered |
| `RegistryState.CallStep` | tests/project-root.test.ts:51-72 | each call keeps the invariant, assigns at most the ID after the counter, advances the counter by exactly the number of IDs it assigns, and never removes a record or changes it except from active to inactive |
| `RegistryState.RunKeepsInv` | tests/project-root.test.ts:27-28 | over any sequence of calls the keys stay exactly 1..projectCounter and the counter never decreases |
| `RegistryState.IssuedIdsAreConsecutive` | tests/project-root.test.ts:51-63 | over any sequence of calls, the IDs handed out are the numbers after the starting counter, in order and without gaps, however they are interleaved with other calls; the counter grows by exactly their number |
| `RegistryState.RecordsPersist` | tests/project-root.test.ts:66-74 | over any sequence of calls a registered project is never removed, its owner, location, URI and height never change, and once inactive it stays inactive |
| `RegistryState.CounterCountsProjects` | tests/project-root.test.ts:88-90 | under the invariant, the counter equals the number of stored projects, deactivated ones included |
| `RegistryState.FromInitial` | tests/project-root.test.ts:105-110 | from the reset state, the n successful registrations of any call sequence get IDs 1..n, and afterwards the counter is n and n projects are stored |
| `ProjectRoot.Registry.constructor` | tests/project-root.test.ts:105-110 | a fresh registry has the fixed initial admin, is unpaused, has counter 0 and no projects, and satisfies the invariant; isPaused, getAdmin and getProjectCount report false, the initial admin and 0 |
| `ProjectRoot.Registry.IsAdmin` | tests/project-root.test.ts:30-32 | the admin test accepts exactly the identity that getAdmin reports; it is the same test the transitions use |
| `ProjectRoot.Registry.SetPaused` | tests/project-root.test.ts:34-38 | a non-admin gets NotAuthorized with no change; the admin sets `paused` and gets the value back, isPaused then reports it, and the other fields are unchanged; this is the `SetPausedStep` transition |
| `ProjectRoot.Registry.TransferAdmin` | tests/project-root.test.ts:40-44 | a non-admin gets NotAuthorized with no change; the admin replaces `admin` by `newAdmin` and gets true, getAdmin then reports `newAdmin`, the admin test passes exactly for `newAdmin`, and the other fields are unchanged; this is the `TransferAdminStep` transition |
| `ProjectRoot.Registry.RegisterProject` | tests/project-root.test.ts:46-64 | when paused, the answer is Paused; then bad lengths answer InvalidMetadata, both with no change; otherwise the answer is old counter + 1, an ID not in use, and the new record is stored at that ID, which becomes the counter; this is the `RegisterProjectStep` transition and keeps the invariant |
| `ProjectRoot.Registry.DeactivateProject` | tests/project-root.test.ts:66-74 | a non-admin gets NotAuthorized, and a missing ID gets NotFound, both with no change; otherwise only that record's active flag becomes false and the answer is true; this is the `DeactivateProjectStep` transition |
| `ProjectRoot.Registry.GetProject` | tests/project-root.test.ts:76-80 | NotFound exactly when the ID is not a key, otherwise the stored record; under the invariant it succeeds exactly for IDs 1..projectCounter |
| `ProjectRoot.Registry.IsProjectActive` | tests/project-root.test.ts:82-86 | fails with NotFound exactly when getProject does, and otherwise gives the active flag of the record getProject returns |
| `ProjectRoot.Registry.GetProjectCount` | tests/project-root.test.ts:88-90 | the counter; under the invariant it equals the number of stored projects and bounds every ID getProject finds |
| `ProjectRoot.Registry.IsPaused` | tests/project-root.test.ts:92-94 | always succeeds with the current pause flag |
| `ProjectRoot.Registry.GetAdmin` | tests/project-root.test.ts:96-98 | always succeeds with the current admin identity |

## Left out

- The test suite and its runner (tests/project-root.test.ts:101-176) are not modelled. Only their reset values shape the constructor, and their scenarios are covered by the lemmas above.
- `ZERO_ADDRESS` (tests/project-root.test.ts:22) is never read by any operation, so it is not modelled.
- The model adds no duplicate detection for AlreadyRegistered, because the original has none. The code is kept in `Error`, and `RejectedCallChangesNothing` proves that no call produces it.
- ProjectRoot.Registry.GetProject: returns the stored record as a value. The original's getProject hands out the very object held in its map, so a caller could change a stored record (its owner, or its active flag back to true) by writing through that reference. The model does not capture that aliasing. Reading an old reference matches the model, because deactivation stores a new object rather than editing the old one.
- RegistryState.RecordsPersist: the promise that records stay unchanged except for a one-way deactivation covers only changes made by the registry's own operations. It does not cover writes through a reference that getProject handed out. The same holds for the record clauses of DeactivateProjectByAdmin and CallStep.
- Identities are opaque strings. Their address format is not validated, just as the original does not validate it.
- String lengths are sequence lengths of `seq<char>`. The UTF-16 code-unit counting of the original's `.length` is not modelled.
- The original's numbers are floating-point. The model gives the counter and block heights as unbounded `nat`, so it does not model precision loss past 2^53. Project IDs passed in are `int`, so negative IDs get NotFound. Fractional IDs are not modelled.
- Serialising concurrent calls is the host's job, not the registry's. The model applies one call at a time.
- The original's mock is a single object with hard-coded initial fields. The model is a class whose constructor reproduces the reset values instead.
