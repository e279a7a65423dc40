# DeadW3 landing page: waitlist dialog and network figure

The DeadW3 landing page is a single-page marketing site. Two pieces of it hold logic rather than
presentation, and this project models both in Dafny and proves their properties.

- **The waitlist dialog** (`WaitlistModal`) collects an email address. On submit it clears the
  error. It then rejects a blank input with "Email is required" and an input that fails the shape
  test `^[^\s@]+@[^\s@]+\.[^\s@]+$` with "Please enter a valid email address". Otherwise it sets
  the loading flag and schedules a callback 1000 ms later. That callback reads the list stored in
  the browser under `deadw3_waitlist` (an absent key reads as `[]`). It refuses an address
  already on the list with "This email is already on the waitlist". Otherwise it appends the
  address, writes the list back, shows the success view and schedules a second callback 3000 ms
  later that clears the input and closes the dialog. Closing the dialog clears the input, the
  error and the success flag. Typing clears the error.
- **The network figure** (`Visualization`) draws twelve nodes on a circle. Its `connections` loop
  joins each node `i` to `(i + 1) mod 12`, and each even node also to `(i + 6) mod 12`.

Files:

- `email.dfy`, module `EmailValidation`: the whitespace class, `validateEmail` as an executable
  predicate, the literal reading of the pattern, and `trim`.
- `waitlist.dfy`, module `Waitlist`: the checks of `handleSubmit`, the stored-list commit, and the
  class `WaitlistModal`. The class holds the dialog's fields `email`, `error`, `isLoading` and
  `isSubmitted`. It also holds the parent's open flag, the stored list (`None` when the key is
  absent) and the callbacks scheduled but not yet run. Each timer callback is a method of its own
  (`CommitStep`, `ResetStep`), taken whenever the environment chooses; time is not modelled.
- `topology.dfy`, module `NetworkTopology`: the `connections` loop over node indices, its
  specification `Connections`, and the properties of the list it builds.

## Model

| member | source | states |
|---|---|---|
| `EmailValidation.ValidateEmailMatchesPattern` | src/components/WaitlistModal.tsx:15-18 | `validateEmail` accepts a string exactly when it matches the pattern: a non-empty run of `[^\s@]`, an `@`, a non-empty run, a `.`, and a non-empty run, covering the whole string (both directions) |
| `EmailValidation.ValidateEmailRejects` | src/components/WaitlistModal.tsx:16 | an accepted string holds exactly one `@` and no whitespace anywhere, so a string with no `@`, two or more `@`, or leading, inner or trailing whitespace is rejected |
| `EmailValidation.AcceptsLocalDomainTld` | src/components/WaitlistModal.tsx:16 | every `a@b.c` whose three parts are non-empty and free of whitespace and `@` is accepted |
| `EmailValidation.TrimStart` | src/components/WaitlistModal.tsx:24 | everything dropped from the front is whitespace and the result does not start with whitespace |
| `EmailValidation.TrimStartIsSuffix` | src/components/WaitlistModal.tsx:24 | what the leading trim keeps is exactly a suffix of the input |
| `EmailValidation.TrimEnd` | src/components/WaitlistModal.tsx:24 | everything dropped from the back is whitespace and the result does not end with whitespace |
| `EmailValidation.TrimEndIsPrefix` | src/components/WaitlistModal.tsx:24 | what the trailing trim keeps is exactly a prefix of the input |
| `EmailValidation.Trim` | src/components/WaitlistModal.tsx:24 | the trimmed input is empty exactly when the input is all whitespace; otherwise it starts and ends with a non-whitespace character |
| `EmailValidation.TrimIsSlice` | src/components/WaitlistModal.tsx:24 | the trimmed input is the slice of the input between a whitespace prefix and a whitespace suffix |
| `Waitlist.CheckInputCases` | src/components/WaitlistModal.tsx:24-32 | blank after trimming gives the "required" outcome exactly for all-whitespace input; a non-blank input that fails the shape test gives the "invalid" outcome; the input passes exactly when the shape test accepts it, and a passing input has no whitespace |
| `Waitlist.AbsentStoreFirstCommit` | src/components/WaitlistModal.tsx:39-47 | with the storage key absent (read as the empty list), the first commit of any address succeeds and writes the one-element list |
| `Waitlist.CommitEmail` | src/components/WaitlistModal.tsx:41-47 | a duplicate is reported exactly when the address is already on the list (exact string equality); otherwise the new list is one longer, keeps the old list as its prefix and ends with the address, and it keeps the list duplicate-free and all-valid |
| `Waitlist.CommitTwiceIsDuplicate` | src/components/WaitlistModal.tsx:41-47 | committing a new address appends it, and committing it again reports a duplicate |
| `Waitlist.WaitlistModal.constructor` | src/components/WaitlistModal.tsx:10-13 | the dialog starts with an empty input, no error, not loading, not submitted, closed, nothing scheduled, over whatever the browser has stored |
| `Waitlist.WaitlistModal.Open` | src/App.tsx:13 | the hero's button sets the parent's open flag |
| `Waitlist.WaitlistModal.OnChange` | src/components/WaitlistModal.tsx:138-141 | typing sets the input to the new text and clears the error |
| `Waitlist.WaitlistModal.Submit` | src/components/WaitlistModal.tsx:20-37 | a blank input sets "Email is required" and a malformed one "Please enter a valid email address", each leaving the loading flag and the schedule unchanged; a passing input clears the error, sets the loading flag and schedules its commit; the stored list is untouched and only validated addresses are ever scheduled |
| `Waitlist.WaitlistModal.CommitStep` | src/components/WaitlistModal.tsx:37-59 | the first scheduled address is committed: a duplicate sets "This email is already on the waitlist" and leaves the stored list and the success flag unchanged; otherwise the stored list becomes the old list (empty if absent) with the address appended, the success flag is set and a reset is scheduled; either way loading ends; a duplicate-free, all-valid store stays so |
| `Waitlist.WaitlistModal.ResetStep` | src/components/WaitlistModal.tsx:54-58 | the reset callback clears the input and the success flag and closes the dialog |
| `Waitlist.WaitlistModal.HandleClose` | src/components/WaitlistModal.tsx:62-67 | closing clears the input, the error and the success flag and closes the dialog; the stored list, the loading flag and any scheduled commit are unchanged |
| `Waitlist.SubmitSession` | src/components/WaitlistModal.tsx:20-51 | opening, typing a valid address, submitting and running the 1000 ms callback stores the address unless it was already listed; a listed address is reported as a duplicate and the list is unchanged |
| `Waitlist.SubmitTwiceScenario` | src/components/WaitlistModal.tsx:20-59 | from an absent store, submitting a valid address, letting the reset close the dialog, reopening it and submitting the same address again stores it once and reports the duplicate on the second commit |
| `Waitlist.CloseBeforeCommitScenario` | src/components/WaitlistModal.tsx:62-67 | closing after a valid submit leaves the dialog closed, and the scheduled commit still stores the address |
| `NetworkTopology.BuildConnections` | src/components/Visualization.tsx:20-31 | the loop builds `Connections(n, n)`: `n + ceil(n/2)` edges, every endpoint in `[0, n)`, the ring edge of each node `i` at position `GroupStart(i)` and, for even `i`, its opposite edge right after it |
| `NetworkTopology.ConnectionsLength` | src/components/Visualization.tsx:22-29 | after `m` iterations the list has `m + ceil(m/2)` edges |
| `NetworkTopology.ConnectionsBlock` | src/components/Visualization.tsx:22-28 | every edge lies in the block of positions belonging to its source; the first edge of a block is the ring edge and a second one is the opposite edge of an even source; no other edge occurs |
| `NetworkTopology.ConnectionsAt` | src/components/Visualization.tsx:22-28 | the ring edge of each node is at the head of its block, and the opposite edge of each even node right after it |
| `NetworkTopology.SourcesAscending` | src/components/Visualization.tsx:22-28 | edges appear grouped by ascending source index |
| `NetworkTopology.OppositeEdgeIffEven` | src/components/Visualization.tsx:24-28 | the edge `i -> (i + 6) mod n` is in the list exactly when `i` is even, whenever it differs from the ring edge of `i` |
| `NetworkTopology.TwelveNodeConnections` | src/components/Visualization.tsx:128 | for the twelve nodes there are 18 edges, and the first six, which the particles travel, are 0-1, 0-6, 1-2, 2-3, 2-8, 3-4 |
| `NetworkTopology.TwelveNodeNoSelfLoop` | src/components/Visualization.tsx:23-28 | for the twelve nodes no edge joins a node to itself |
| `NetworkTopology.TwelveNodeDiametersTwice` | src/components/Visualization.tsx:24-28 | for the twelve nodes each opposite edge from an even node is matched by its reverse, so each of the three diameters appears twice |

## Left out

- Rendering, CSS classes, framer-motion animation and `AnimatePresence` are not modelled. They are presentation only; this covers `Hero.tsx`, `Features.tsx`, `Footer.tsx`, `StealYourFace.tsx` and the markup of `App.tsx`.
- Timer delays (1000 ms and 3000 ms) are not modelled. Each callback is an explicit step; the order in which scheduled commits and resets run is left to the environment, commits among themselves first in, first out.
- `localStorage`, `JSON.parse` and `JSON.stringify` are foreign browser calls. The store is an `Option<seq<string>>` that is written and read back unchanged. Only an absent key or an array of strings is modelled. Other stored values are not:
  - a stored empty string, which `'' || '[]'` reads as `[]`;
  - text that is not JSON, on which `JSON.parse` throws;
  - JSON `null` or an object, on which `includes` or `push` throws;
  - a JSON string, on which `includes` is a substring test: an address occurring inside the stored text is reported as a duplicate (src/components/WaitlistModal.tsx:41-44), and any other address reaches `push`, which throws;
  - an array holding non-strings.
- `localStorage` itself throwing is not modelled: `getItem` (src/components/WaitlistModal.tsx:39) throws when storage is blocked, and `setItem` (src/components/WaitlistModal.tsx:48) throws when the quota is exceeded. Neither is caught, so a failed `setItem` ends the 1000 ms callback after the `push`: the address is not saved, `isLoading` stays set and the dialog stays disabled. `CommitStep` always writes the list and always clears `isLoading`.
- The code never catches a `JSON.parse` failure, and `handleClose` cancels no timer and leaves the loading flag; the model follows the code (`HandleClose`, `CloseBeforeCommitScenario`).
- The browser's own checking of `<input type="email">` (src/components/WaitlistModal.tsx:135) inside a form without `noValidate` (src/components/WaitlistModal.tsx:129) is not modelled. The browser strips the value and blocks submission of strings it does not accept as addresses, so `"not-an-email"` never reaches `handleSubmit` there. `Submit` sees any string, which admits more inputs than the browser does.
- Characters are Unicode scalar values, where JavaScript strings hold UTF-16 code units. The whitespace class contains no surrogates, so `[^\s@]` treats both forms alike. The Unicode space-separator set is the current one.
- React's batching of state updates is not modelled. Each handler's updates apply in order; the final values are the same.
- `onClose` is modelled as clearing the parent's open flag, as `App.tsx` does. `e.preventDefault()` is not modelled.
- The disabled state of the input and button while loading is not modelled. `Submit` and `OnChange` may be called in any state, as the handlers themselves allow.
- Node coordinates (`Math.cos`, `Math.sin`), animation delays and the hero's random particles are floating-point or random values and are left out. An edge is recorded by the indices of its endpoints; `nodes[i].id == i` (src/components/Visualization.tsx:11-12), so these are the node ids.
- `tailwind.config.js` and `src/vite-env.d.ts` are static configuration; the declared environment values are never read.
