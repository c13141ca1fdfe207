# dev-links: the link-list core in Dafny

dev-links is a small web application in which a signed-in developer keeps
an ordered list of profile links (GitHub, Frontend Mentor, Twitter,
LinkedIn, YouTube), each with a username and a position, and saves that list
to a Postgres `link` table. This project models and proves the parts of it
that carry logic:

- `actions.dfy` (module `Actions`) models the `saveLinks` server action. The
  `link` table is a map from id to row, together with the next value of its
  id sequence. The save transaction is the function `Reconcile`, which runs
  three phases:
  - it deletes the owner's rows whose id is not submitted;
  - it upserts the entries with a positive id;
  - it inserts the entries with a negative id under fresh ids.
  The class `LinkStore` holds the table. Its method `SaveLinks` commits the
  transaction's table or leaves the table untouched on failure. Lemmas state
  what a committed save does:
  - every row the owner holds afterwards is a submitted positive id or a
    row inserted by this save;
  - every submitted positive id names a row carrying the submitted website,
    username and position;
  - every submitted negative-id entry is inserted, for the owner, under a
    fresh id;
  - other owners' rows survive, and keep their owner;
  - no negative id is ever stored;
  - saving what was read back changes nothing.
  The same module holds the avatar object key, the profile image size check
  and the hourly idempotency key of the verification e-mail.
- `links_form.dfy` (module `LinksForm`) models the client-side editor of the
  list:
  - the initial fetch;
  - add, remove, drag-and-drop reorder;
  - the username and website edits.
  The class `LinksFormState` holds the list the React state holds. Each
  handler is specified by a pure function, and the properties of the
  handlers are proved about those functions.
- `utils.dfy` (module `Utils`) models `updatePositions`, which renumbers a
  list 1..n.
- `types.dfy` (module `Types`) holds the link record and the sign-up and
  login validation schemas as functions from a form to its list of issues.
- `wrappers.dfy` (module `Wrappers`) holds `Option` and `Result`.

The upsert's `ON CONFLICT (id) DO UPDATE` does not check who owns an
existing row. A submitted positive id that names another user's row
rewrites that row's website, username and position, and the row keeps its
stored owner. The model reproduces this. `SaveWritesClaimed` states it for
every claimed id, and `ForeignClaimRewritesRow` exhibits it on a concrete
table, where the submitting user ends up owning no row for the id.

## Model

| member | source | states |
|---|---|---|
| Utils.UpdatePositions | app/lib/utils.ts:9-14 | the result has the same length and the same entries in the same order with positions forgotten, and its positions are 1..n in list order |
| Utils.UpdatePositionsUnique | app/lib/utils.ts:9-14 | any list with positions 1..n and the same contents is the renumbered list: renumbering is determined by the order alone |
| Utils.ContiguousIsFixedPoint | app/lib/utils.ts:9-14 | a list already numbered 1..n is left unchanged |
| Utils.UpdatePositionsIdempotent | app/lib/utils.ts:9-14 | renumbering twice is renumbering once |
| Utils.OneTo | app/lib/utils.ts:12 | the set holds exactly the integers 1..n |
| Utils.ContiguousPositions | app/lib/utils.ts:9-14 | a list numbered in order holds every position 1..n, each exactly once |
| Utils.UpdatePositionsRange | app/lib/utils.ts:9-14 | after renumbering, the positions are exactly 1..n and pairwise distinct |
| Types.Utf16Length | app/lib/types.ts:7-10 | the length `.min(8)` compares, counted in UTF-16 code units: between the number of characters and twice that |
| Types.Utf16LengthOfBmp | app/lib/types.ts:7-10 | for text without characters beyond U+FFFF, the UTF-16 length is the number of characters |
| Types.FourEmojiPasswordIsLongEnough | app/lib/types.ts:7 | a password of four emoji, four characters but eight code units, raises no length issue |
| Types.EmailIssues | app/lib/types.ts:4-6 | the e-mail field raises no issue exactly when the e-mail check accepts it, and otherwise the one "Please enter a valid email" issue on `email` |
| Types.MinLengthIssues | app/lib/types.ts:7-10 | a password field raises no issue exactly when its UTF-16 length is at least 8, and otherwise the one length issue on that field |
| Types.BaseSignUpIssues | app/lib/types.ts:3-11 | the object schema reports no issue exactly when the e-mail is valid and both passwords have a UTF-16 length of at least 8 |
| Types.SignUpIssues | app/lib/types.ts:16-22 | the sign-up schema passes exactly when the object schema passes and the passwords are equal; a password or confirmation shorter than 8 UTF-16 code units yields its length issue; the mismatch issue on `confirmPassword` appears exactly when the passwords differ |
| Types.LoginIssues | app/lib/types.ts:13 | the login schema passes exactly when the e-mail is valid and the password has a UTF-16 length of at least 8, and it never reports an issue on `confirmPassword` |
| Types.LoginIsSignUpWithoutConfirmation | app/lib/types.ts:13 | the login issues of a form are its sign-up object issues with those on `confirmPassword` removed, in the same order |
| Types.IssuesOutside | app/lib/types.ts:13 | `.omit` of one field, as a filter of the issue list; its properties are `IssuesOutsideSpec` and `IssuesOutsideConcat` |
| Types.IssuesOutsideSpec | app/lib/types.ts:13 | an issue survives the omission exactly when it was raised and is attached to another field |
| Types.IssuesOutsideConcat | app/lib/types.ts:13 | omitting a field's issues distributes over concatenation |
| LinksForm.LinksFormState.constructor | app/ui/links-form.tsx:32 | the editor starts with an empty list |
| LinksForm.LinksFormState.ReceiveFetched | app/ui/links-form.tsx:43-63 | the list becomes the fetched list, or the empty list when the response is not ok or the fetch throws |
| LinksForm.Added | app/ui/links-form.tsx:98-109 | adding keeps the old entries as a prefix and appends one GitHub entry with an empty username at position n+1, with a negative id whenever the clock is positive; it keeps a list numbered 1..n numbered 1..n+1 |
| LinksForm.AddedKeepsIdsDistinct | app/ui/links-form.tsx:100 | when the minted id is not already in the list, ids stay pairwise distinct |
| LinksForm.AddTwiceInOneMillisecondCollides | app/ui/links-form.tsx:100 | two adds at the same clock reading always produce two entries with the same id |
| LinksForm.LinksFormState.HandleAdd | app/ui/links-form.tsx:98-115 | the new list is `Added` of the old one: old entries kept as a prefix, one more entry, a negative id, positions kept contiguous |
| LinksForm.WithoutId | app/ui/links-form.tsx:94 | the `filter` of handleRemove; its properties are `WithoutIdSpec`, `WithoutAbsentId`, `WithoutIdConcat` and `WithoutIdContentsSubsequence` |
| LinksForm.WithoutIdSpec | app/ui/links-form.tsx:94 | the filter drops exactly the entries with that id: none of them remains, every other entry keeps its multiplicity, and the survivors keep their order |
| LinksForm.WithoutAbsentId | app/ui/links-form.tsx:94 | filtering out an id that is not present changes nothing |
| LinksForm.WithoutIdConcat | app/ui/links-form.tsx:94 | the filter distributes over concatenation |
| LinksForm.WithoutIdContentsSubsequence | app/ui/links-form.tsx:94 | with positions forgotten, the filtered list is a subsequence of the original |
| LinksForm.Removed | app/ui/links-form.tsx:92-96 | after removal, no entry has the id, the positions are 1..n, the contents are the filtered list's, and they are a subsequence of the original contents |
| LinksForm.RemoveAbsentOnlyRenumbers | app/ui/links-form.tsx:92-96 | removing an absent id only renumbers: contents unchanged |
| LinksForm.RemoveAfterCollidingAdds | app/ui/links-form.tsx:92-109 | removing one of two entries added in the same millisecond removes both, returning to the renumbered original list |
| LinksForm.LinksFormState.HandleRemove | app/ui/links-form.tsx:92-96 | the new list is `Removed` of the old one: contiguous, without the id, its contents those of the filtered old list and a subsequence of the old contents |
| LinksForm.RemoveAt | app/ui/links-form.tsx:88 | removing one element shortens the list by one |
| LinksForm.RemoveAtMultiset | app/ui/links-form.tsx:88 | removing one element takes exactly that element out of the multiset |
| LinksForm.ArrayMove | app/ui/links-form.tsx:88 | the moved element lands at the target index, the others keep their relative order, and the result is a permutation |
| LinksForm.ArrayMoveInverse | app/ui/links-form.tsx:88 | moving back from the target to the source restores the list |
| LinksForm.ContentsOfMove | app/ui/links-form.tsx:88 | moving commutes with forgetting positions |
| LinksForm.FindIndex | app/ui/links-form.tsx:86-87 | the index of the first entry with the id, or -1 exactly when no entry has it |
| LinksForm.DragEnd | app/ui/links-form.tsx:84-90 | a drop with no target or onto itself leaves the list unchanged; a move puts the dragged entry where the target was, renumbers 1..n, and keeps the same entries |
| LinksForm.LinksFormState.HandleDragEnd | app/ui/links-form.tsx:84-90 | the new list is `DragEnd` of the old one |
| LinksForm.WithUsername | app/ui/links-form.tsx:117-123 | the entries with the id get the new username, every other field and entry is unchanged |
| LinksForm.WithWebsite | app/ui/links-form.tsx:125-131 | the entries with the id get the new website, every other field and entry is unchanged |
| LinksForm.EditsKeepContiguous | app/ui/links-form.tsx:117-131 | edits never disturb a 1..n numbering |
| LinksForm.UsernameLastEditWins | app/ui/links-form.tsx:117-123 | of two username edits of one entry, the later wins |
| LinksForm.UsernameEditUndone | app/ui/links-form.tsx:117-123 | editing back to the previous username restores the list |
| LinksForm.EditsCommute | app/ui/links-form.tsx:117-131 | a username edit and a website edit commute |
| LinksForm.EditOfAbsentIdIsNoOp | app/ui/links-form.tsx:117-131 | editing an id that is not in the list changes nothing |
| LinksForm.LinksFormState.HandleUsernameChange | app/ui/links-form.tsx:117-123 | the new list is `WithUsername` of the old one and has the same ids |
| LinksForm.LinksFormState.HandleWebsiteChange | app/ui/links-form.tsx:125-131 | the new list is `WithWebsite` of the old one and has the same ids |
| Actions.Claimed | app/lib/actions.ts:215 | every claimed entry has a positive id |
| Actions.Pending | app/lib/actions.ts:244 | every pending entry has a negative id |
| Actions.PartitionIsFilter | app/lib/actions.ts:215-244 | claimed and pending entries together are the submitted entries without those whose id is 0 |
| Actions.PartitionConcat | app/lib/actions.ts:215-244 | the partition of a concatenation is the concatenation of the partitions |
| Actions.KeepList | app/lib/actions.ts:215-222 | the id array given to the delete is never empty, holds every claimed id, and holds nothing else but the `-1` sentinel |
| Actions.DeleteExcluded | app/lib/actions.ts:217-223 | the delete removes exactly the owner's rows whose id is not submitted, and no surviving row changes |
| Actions.SentinelDeletesAllOwnerRows | app/lib/actions.ts:222 | with no claimed id, the `[-1]` sentinel makes the delete remove every row of the owner and no other |
| Actions.Written | app/lib/actions.ts:228-233 | the row the upsert leaves carries the entry's website, username and position; an existing row keeps its owner, a new one belongs to the session user |
| Actions.UpsertAll | app/lib/actions.ts:226-241 | the upsert of the claimed entries in order; its properties are `UpsertAllSpec` |
| Actions.UpsertAllSpec | app/lib/actions.ts:225-241 | the upsert keeps every unclaimed row, creates or rewrites one row per claimed id, and (with distinct claims) writes the claimed website, username and position while an existing row keeps its owner |
| Actions.NewRow | app/lib/actions.ts:247-249 | the row inserted for a pending entry; `InsertAllAssigns` states where it lands |
| Actions.InsertAll | app/lib/actions.ts:243-251 | a successful insert loop advances the id sequence once per pending entry |
| Actions.InsertAllFrame | app/lib/actions.ts:243-251 | the inserts leave every old row unchanged and add exactly the ids the sequence handed out |
| Actions.InsertAllAssigns | app/lib/actions.ts:243-251 | the k-th pending entry is inserted, for the owner, under the k-th id the sequence hands out, which named no row before |
| Actions.InsertAllFresh | app/lib/actions.ts:243-251 | no id handed out for an insert collides with an id already in the table |
| Actions.Staged | app/lib/actions.ts:215-241 | the table after the delete and the upsert; `StagedHoldsClaimed` and `StagedInsertsPending` state its properties |
| Actions.Reconcile | app/lib/actions.ts:210-254 | the whole transaction: the range and duplicate checks, then delete, upsert and inserts; `ReconcileOk`, `ReconcileFrame`, `ReconcileKeepsValid` and the `Save*` lemmas state its properties |
| Actions.LinkStore.constructor | app/lib/actions.ts:199-262 | the store starts empty with the sequence at 1 |
| Actions.LinkStore.SaveLinks | app/lib/actions.ts:199-262 | without a list or a session nothing changes; otherwise the table becomes the transaction's committed table, or on failure the error is returned and the table is unchanged; the table invariant is kept |
| Actions.ReconcileOk | app/lib/actions.ts:210-254 | a committed save passed the id, position and duplicate-claim checks and is the inserts on top of the deleted-and-upserted table |
| Actions.ReconcileFrame | app/lib/actions.ts:210-254 | a committed save advances the id sequence by the number of pending entries, and the committed table is the staged table, unchanged, plus exactly the rows under the newly drawn ids |
| Actions.ReconcileKeepsValid | app/lib/actions.ts:199-262 | a committed save keeps every id positive and within bigint, every position within int, and the sequence positive |
| Actions.InsertAllKeepsValid | app/lib/actions.ts:243-251 | the insert loop keeps the table invariant |
| Actions.SaveRemovesUnlisted | app/lib/actions.ts:217-251 | after a save, every row of the owner is either a submitted claimed id or a row inserted by this save |
| Actions.SaveEmptyList | app/lib/actions.ts:199-262 | saving the empty list deletes every row of the owner and nothing else |
| Actions.SaveIsolatesOtherOwners | app/lib/actions.ts:217-251 | a row of another owner that the list does not claim survives the save unchanged, and no row of another owner is deleted |
| Actions.SaveWritesClaimed | app/lib/actions.ts:225-241 | after a save, every claimed id names a row with the submitted website, username and position, owned by its previous owner if it existed and by the session user otherwise |
| Actions.SaveInsertsPending | app/lib/actions.ts:243-251 | every id drawn by the save names a new row of the owner holding the corresponding pending entry, and none of them is a claimed id |
| Actions.StagedInsertsPending | app/lib/actions.ts:243-251 | the same property, stated about the inserts on top of the staged table |
| Actions.StagedHoldsClaimed | app/lib/actions.ts:225-241 | every claimed id is in the table after the upsert |
| Actions.ReconcileSeesOnlyPartition | app/lib/actions.ts:215-244 | two lists with the same claimed and the same pending entries save identically |
| Actions.SaveIgnoresZeroId | app/lib/actions.ts:215-244 | an entry with id 0 is neither deleted-against, upserted nor inserted: the save is as if it were absent |
| Actions.AllPositiveIsClaimed | app/lib/actions.ts:215-244 | a list of stored ids is all claimed and has nothing pending |
| Actions.ReadResult | app/api/links/route.ts:13-16 | what the read route may return for the owner: each of the owner's rows once, with its stored fields, in ascending position; `SaveIdempotent` uses it |
| Actions.SaveIdempotent | app/api/links/route.ts:13-16 | saving exactly the owner's rows as the read route returns them commits the table unchanged |
| Actions.ForeignClaimRewritesRow | app/lib/actions.ts:225-241 | a claim on another owner's row id rewrites that row's fields and keeps its owner |
| Actions.AvatarExtension | app/lib/actions.ts:306 | the extension is `jpg` exactly for `image/jpeg` and `png` for every other type |
| Actions.AvatarKey | app/lib/actions.ts:308 | the key is `avatars/`, the user id, `-`, the unique id, `.` and the extension |
| Actions.AvatarKeyInjective | app/lib/actions.ts:303-308 | with unique ids of one length, equal keys mean the same user, unique id and extension |
| Actions.ImageDimensionIssue | app/lib/actions.ts:54-60 | the image is refused, with its message, exactly when a side exceeds 1024 pixels |
| Actions.HourOf | app/lib/actions.ts:272 | the hour number is the floor of the millisecond clock divided by 3 600 000 |
| Actions.Digit | app/lib/actions.ts:272 | the character is the decimal digit of the value |
| Actions.DecimalString | app/lib/actions.ts:272 | the rendering is non-empty and made of decimal digits |
| Actions.DecimalStringInjective | app/lib/actions.ts:272 | distinct naturals render differently |
| Actions.IntString | app/lib/actions.ts:272 | the rendering is non-empty, starts with `-` exactly for a negative value, and is otherwise made of decimal digits |
| Actions.IntStringInjective | app/lib/actions.ts:272 | distinct integers render differently |
| Actions.VerificationKey | app/lib/actions.ts:272 | the key is `verify-user/`, the user id, `-` and the rendered hour number |
| Actions.VerificationKeySameHour | app/lib/actions.ts:266-272 | two sends for one user share a key exactly when they fall in the same clock hour |

## Left out

- The `finally` block of `saveLinks` (app/lib/actions.ts:258-261) runs `revalidatePath` and `redirect`, which are framework navigation. The model returns the outcome instead.
- The catch block does not send `ROLLBACK` on the pooled connection. The model treats a failed transaction as having no effect. app/lib/db.ts is not part of this model.
- Postgres does not roll back sequences on abort, so a failed save that drew ids still advances `nextId` in the database. The model restores the counter.
- The session lookup (`auth.api.getSession`) is an `Option<UserId>` parameter. Authentication itself is not modelled.
- The R2 upload and delete, the Resend e-mail send and the `imageSize` decoding of the uploaded file are I/O. The model keeps only the key, the extension and the dimension rule; the width and height are parameters.
- `nanoid(6)` and `Date.now()` are parameters (`uniqueId`, `now`).
- Concurrency is not modelled: two saves interleaving, and React batching of state updates.
- `LinksForm.Added`: `handleAdd` computes the position from the `links` of the render closure while appending to `prev`. The model reads both from the current list, so two adds batched in one render, which would give both entries the same position, are not captured.
- `LinksForm.DragEnd` and `LinksForm.LinksFormState.HandleDragEnd` require both dragged ids to be in the list when the drop is a move. So the requires excludes the case where `findIndex` returns -1, and `arrayMove` with an index of -1 is library behaviour not part of this model. Each sortable item registers under its position (app/ui/link-listbox.tsx:33), while the handler looks the reported ids up among the entries' ids (app/ui/links-form.tsx:86-87). This mismatch between positions and ids is not modelled: the handler is modelled on the ids it is given.
- The form calls `saveLinks(userId, links)` (app/ui/links-form.tsx:146) against a one-parameter signature. The model follows the declared signature: the list is the one argument and the owner comes from the session.
- `Actions.SaveIdempotent`: the read route's `ORDER BY position` is the abstract `ReadResult` predicate (the owner's rows, each once, with their stored fields). It requires ascending positions; only the order among entries with equal positions is left open.
- The schemas are modelled on forms whose fields are all present strings. Missing fields (`required_error`), type coercion and the validation library's abort semantics are not modelled.
- `Types.Utf16Length` assumes every character is a Unicode scalar value. A JavaScript string holding a lone surrogate has no counterpart in the model.
- Email syntax is the validation library's own rule, passed as the `isEmail` parameter.
- The `Website` list is reconstructed from the names used in app/lib/dummy_data.ts. The `websites` array it refers to is not part of this model.
- The dnd-kit sensors, scrolling, rendering and toast notifications are UI only.
