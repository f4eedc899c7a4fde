# Mergington High School activities: a Dafny model

This project models the logic of a small activity sign-up service. The
back end (`src/app.py`) keeps one document per extracurricular activity
in a document store. It seeds nine activities into an empty store, lists
them, signs a student's email up for an activity and unregisters it. The
page script (`src/static/app.js`) turns each participant's email into a
display name and shows how many spots are left.

- `roster.dfy`, module `Roster`. The store is a map from activity name to
  a stored `Document`, which holds the store's `_id` and the `Activity`
  fields. The handlers are the pure functions `Signup`, `Unregister` and
  `Listing`. Each returns the answer and the store after the request.
  `Response` has four cases: `Ok`, `NotFound`, `Conflict` and `Internal`,
  with the HTTP codes 200, 404, 400 and 500. The class `ActivityDirectory`
  runs the same steps imperatively. It finds the activity, checks the
  roster, calls `UpdateOne` with `$push` or `$pull`, and looks at the
  modified count. Each handler method is proved equal to its function,
  which shows that the 500 branch cannot be reached.
- `display.dfy`, module `Display`. `FormatParticipant` is built from
  `Split`, `NonEmpty`, `Capitalize` and `Join`, which model `split`,
  `filter(Boolean)`, the per-word upper-casing and `join`. `SpotsLeft` is
  the availability count.

## Model

| member | source | states |
|---|---|---|
| Roster.Signup | src/app.py:121-142 | 404 "Activity not found" exactly when the name is missing; 400 "Student already signed up for this activity" exactly when the email is listed; otherwise Ok with "Signed up {email} for {activity}" and the roster with the email appended at the end; the status is always 200, 400 or 404, and 404 exactly when the name is missing; a failure leaves the store unchanged; only the named activity's participants change |
| Roster.Unregister | src/app.py:145-166 | 404 "Activity not found" exactly when the name is missing; the distinct 404 "Participant not found for this activity" exactly when the email is not listed; otherwise Ok with "Unregistered {email} from {activity}" and the roster after `$pull`; never 400 or 500, so the status is always 200 or 404; a failure leaves the store unchanged; only the named activity's participants change |
| Roster.StatusCode | src/app.py:127-164 | the HTTP status of an answer is a 2xx code exactly for `Ok`, a 4xx code exactly for the two client errors (`NotFound`, `Conflict`) and a 5xx code exactly for `Internal` |
| Roster.Push | src/app.py:134-137 | `$push` appends the address at the end: one entry longer, the old roster as a prefix, and one more occurrence of the address |
| Roster.Pull | src/app.py:157-161 | `$pull` removes every occurrence of the email, leaves every other entry's count unchanged and keeps the order (the result is a subsequence) |
| Roster.WithParticipants | src/app.py:134-137 | an update filtered by name replaces that activity's participants only: same keys, same `_id`, other fields and every other activity unchanged |
| Roster.Listing | src/app.py:108-115 | the listing's keys are exactly the stored `name` values, and each entry is its stored record without `_id` |
| Roster.SeedNamesDistinct | src/app.py:30-94 | the nine seed records have pairwise distinct names |
| Roster.SeedRostersDistinct | src/app.py:30-94 | no seed roster lists an address twice |
| Roster.PullAbsent | src/app.py:157-161 | `$pull` of an unlisted address changes nothing |
| Roster.PullUndoesPush | src/app.py:133-137 | `$pull` undoes a `$push` of an address that was not listed |
| Roster.PushKeepsNoDuplicates | src/app.py:130-137 | appending an unlisted address keeps a roster duplicate-free |
| Roster.PullKeepsNoDuplicates | src/app.py:157-161 | removing an address keeps a roster duplicate-free |
| Roster.OccursOnce | src/app.py:154 | in a duplicate-free roster a listed address occurs exactly once |
| Roster.PullShrinksByOne | src/app.py:154-161 | in a duplicate-free roster, `$pull` of a listed address removes exactly one entry |
| Roster.SignupKeepsRostersDistinct | src/app.py:130-137 | the membership check before `$push` means signup keeps every roster duplicate-free |
| Roster.UnregisterKeepsRostersDistinct | src/app.py:153-161 | unregister keeps every roster duplicate-free |
| Roster.SignupThenUnregister | src/app.py:130-140 | signup then unregister of an unlisted address restores the original store, with both requests answered Ok |
| Roster.SignupTwiceConflicts | src/app.py:130-131 | repeating a successful signup is answered 400 |
| Roster.UnregisterTwiceNotFound | src/app.py:154-155 | repeating a successful unregister is answered "Participant not found for this activity" |
| Roster.SignupIgnoresCapacity | src/app.py:121-142 | signup never reads `max_participants`: changing it changes neither the answer nor the roster |
| Roster.ChessClubSignupScenario | src/app.py:121-142 | signing up "new@mergington.edu" for the Chess Club with its two seeded participants is answered Ok with the signed-up message, and the address is appended after them |
| Roster.ChessClubUnregisterScenario | src/app.py:145-166 | unregistering "michael@mergington.edu" from the Chess Club with its two seeded participants is answered Ok and leaves only "daniel@mergington.edu" |
| Roster.ActivityDirectory.constructor | src/app.py:16-19 | connecting to a store that already holds a valid collection |
| Roster.ActivityDirectory.SeedIfEmpty | src/app.py:96-100 | an empty store afterwards holds exactly the nine seed records, each under its own name, with duplicate-free rosters; a non-empty store is left unchanged; the store is never empty afterwards, so a second run changes nothing |
| Roster.ActivityDirectory.InsertEach | src/app.py:99-100 | `insert_one` of each record in turn into an empty store leaves exactly those records, each under its own name, with distinct `_id`s |
| Roster.InsertNext | src/app.py:99-100 | filing the next record under its name keeps the store equal to the records inserted so far |
| Roster.InsertKeepsValid | src/app.py:100 | filing a record under its name with a fresh `_id` keeps the store keyed by name with distinct `_id`s |
| Roster.ActivityDirectory.UpdateOne | src/app.py:134-139 | `update_one` filtered by name reports one modified document exactly when the activity exists and its roster really changes, and then stores the new roster; otherwise it reports zero and changes nothing |
| Roster.ActivityDirectory.SignupForActivity | src/app.py:121-142 | the step-by-step handler, including the modified-count check, gives the same answer and store as `Signup` |
| Roster.ActivityDirectory.UnregisterParticipant | src/app.py:145-166 | the step-by-step handler, including the modified-count check, gives the same answer and store as `Unregister` |
| Display.UpperAscii | src/static/app.js:106 | upper-casing maps ASCII lower-case letters to their capitals and leaves every other character unchanged |
| Display.Split | src/static/app.js:104-105 | `split` gives at least one piece; no piece contains a separator, and every character of a piece comes from the input; the first piece is the prefix before the first separator (all pieces are pinned down by `Display.JoinSplitReplaces` together with `Display.SplitJoin`) |
| Display.NonEmpty | src/static/app.js:105 | `filter(Boolean)` keeps exactly the non-empty pieces, each as often as it occurs, in their order (the result is a subsequence with the empty string's count set to zero) |
| Display.NonEmptyIsPull | src/static/app.js:105 | `filter(Boolean)` on strings removes exactly what a `$pull` of the empty string removes |
| Display.LocalPart | src/static/app.js:104 | the local part is the prefix of the address before its first `@`: it contains no `@`, and the address either ends there or continues with `@` |
| Display.Words | src/static/app.js:105 | every word is non-empty and contains none of `.`, `_`, `-` |
| Display.DisplayName | src/static/app.js:106 | the joined, capitalised words are empty exactly when there is no word |
| Display.FormatParticipant | src/static/app.js:103-108 | with no word the address itself is shown; otherwise the display name is shown and it is not empty |
| Display.Join | src/static/app.js:106 | `join` has no contract of its own; `Display.SplitJoin`, `Display.JoinSplit` and `Display.JoinSplitReplaces` state that it inverts `split` and `Display.JoinWellSpaced` states its spacing |
| Display.Capitalize | src/static/app.js:106 | a word keeps its length; only its first character may change, and it is upper-cased |
| Display.SpotsLeft | src/static/app.js:24 | spots left is negative exactly when the roster exceeds the capacity, and zero exactly when it is at capacity |
| Display.SplitJoin | src/static/app.js:106 | splitting a join at its separator gives back the pieces, provided no piece contains the separator |
| Display.JoinSplitReplaces | src/static/app.js:105-106 | joining the pieces of a split at several separators with one of them gives back the text with every separator replaced by that one |
| Display.JoinSplit | src/static/app.js:105-106 | with a single separator, joining the pieces of a split gives back the text |
| Display.JoinWellSpaced | src/static/app.js:106 | joining non-empty, space-free words with single spaces gives text with no leading, trailing or doubled space |
| Display.LocalPartBeforeAt | src/static/app.js:104 | the local part of `local@domain` is `local`, whatever the domain |
| Display.LocalPartWithoutAt | src/static/app.js:104 | an address without `@` is all local part |
| Display.WordsEmptyIff | src/static/app.js:105 | there is no word exactly when the local part consists of separators only |
| Display.FormatFallback | src/static/app.js:107 | when the local part has no non-separator character (e.g. "@x", "._-@x") the address is shown unchanged; otherwise the non-empty display name is shown |
| Display.FormatIgnoresDomain | src/static/app.js:104 | when the local part has a word, the text after the first `@` does not affect the result |
| Display.FormatHasNoSeparators | src/static/app.js:105-106 | a shown display name contains no `.`, `_`, `-` or `@` |
| Display.FormatFields | src/static/app.js:105-106 | for an address without spaces before its first `@`, the shown name has no leading, trailing or doubled spaces; it has one space-separated field per word, and each field is its word with only the first character upper-cased |
| Display.SplitPlain | src/static/app.js:105 | text without a separator splits into itself alone |
| Display.SplitTwo | src/static/app.js:105 | two separator-free pieces around one separator split into exactly those two pieces |
| Display.TwoWords | src/static/app.js:105 | two non-empty, separator-free pieces around one separator are exactly the words |
| Display.TwoWordsAddress | src/static/app.js:104-105 | the words of `a.b@domain` (any one separator) are `a` and `b`, whatever the domain |
| Display.TwoWordsShown | src/static/app.js:103-108 | `a.b@domain` (any one separator) is shown as the capitalised `a`, a space and the capitalised `b` |
| Display.JaneDoe | src/static/app.js:102-108 | "jane.doe@" followed by any domain is shown as "Jane Doe", the example the page script gives |
| Display.SignupTakesOneSpot | src/static/app.js:24 | a successful signup lowers spots left by exactly one |
| Display.OverbookedSignup | src/static/app.js:24 | an activity at or over capacity still accepts a new address, and its spots left then go below zero |
| Display.UnregisterFreesOneSpot | src/static/app.js:24 | in duplicate-free rosters, a successful unregister raises spots left by exactly one |

## Left out

- The store connection, the HTTP framework, the root redirect, the static
  mount and the `Cache-Control: no-store` header (src/app.py:16-27,
  103-105, 118). They are plumbing: errors are the `Response` datatype and
  the store is the `collection` map.
- Concurrency. Each handler runs as one atomic step, so the race between
  the membership check and `$push` is not modelled. That race can put a
  duplicate into a roster.
- Store failures such as an unreachable store, which are fatal and not
  handled by the source.
- The store as a list of documents. The map keyed by `name` assumes that
  no two documents share a name. This holds for the seed and is kept by
  every operation, because no operation creates or renames a document.
- `_id` values are modelled as consecutive numbers. The driver's
  ObjectIds are only required to be distinct.
- Roster.ActivityDirectory.InsertEach: requires an empty collection and
  distinct names, because it is only reached from the seed step, on an
  empty store, with the nine seed records.
- The DOM rendering, event handlers, `fetch`, `confirm`, `setTimeout` and
  message display (src/static/app.js:1-100, 110-158). These are UI and
  I/O.
- `encodeURIComponent`, which is a library call.
- `(email || "")` and the `|| ""` after `split("@")[0]`. The model takes
  the email as a string, so there is no null or undefined case.
- Display.UpperAscii: upper-cases ASCII letters only. `toUpperCase`
  follows Unicode, which can also change other letters or expand one
  character into two.
- Display.Words: splits at every single separator and then drops empty
  pieces. `split(/[._-]+/)` splits at runs of separators. Both give the
  same non-empty pieces in the same order, but that equivalence is not
  proved.
- Display.FormatIgnoresDomain: holds only when the local part has a word.
  Otherwise the whole address is shown, so the domain is visible
  (`"@x"` shows `"@x"`).
- Display.FormatFields: holds only for addresses without spaces before
  the first `@`. A space inside the local part is copied into the name, so
  `" a@x"` shows `" a"`.
- The order of the listing. `get_activities` builds its answer in the
  store's `find()` order, and the page renders the cards in that order
  (src/static/app.js:20). `Roster.Listing` returns a map, which has no
  order, so only which activities are listed and what they hold is
  modelled.
