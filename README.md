# file-drive: the access-controlled file table

This project models the server side of the file-drive dashboard: the `files`
table of `convex/files.ts` and the three handlers that read and change it.
Every handler first asks for the caller's identity and then asks
`hasAccessToOrg` whether the caller may act on a scope id (an organization id,
or the caller's own user id for personal files). A caller may act on a scope
id when it is one of the user record's `orgIds`, or when it occurs as a
contiguous substring of the user's `tokenIdentifier`.

- `createFile` inserts a row `{name, fileId, orgId, type}` under a fresh id.
  It throws when there is no identity or no access.
- `getFiles` lists the rows of one scope. It returns `[]`, not an error, when
  there is no identity or no access.
- `deleteFile` removes one row for good. It checks, in this order, the
  identity, that the row exists, and access to the scope stored in the row.

Layout:

- `convex.dfy` (module `Convex`): the optional identity, the error kinds and
  the exact messages the handlers throw.
- `access.dfy` (module `Access`): the user record, the substring relation
  `Occurs` with its executable search `Includes`, the access rule `HasAccess`,
  the user lookup and `HasAccessToOrg`.
- `files.dfy` (module `Files`): rows, the index scan `Collect`, `GetFiles`, the
  check sequences `CreateCheck` and `DeleteCheck`, and the class `FileStore`.
  `FileStore` holds the table as a `map` field that `CreateFile` and
  `DeleteFile` update in place.

Assumptions about collaborators whose source is not part of this model:

- `getUser` (imported from `./users`, `convex/files.ts:4`) is a lookup of the
  token in a users directory. A token with no record makes it fail with
  `UserNotFound`. The handlers do not catch this, so the failure propagates
  from all three handlers, `getFiles` included. The `[]` fallback of `getFiles`
  covers only the missing identity and the refused access.
- `fileTypes` (from `./schema`) is the enumeration image | pdf | csv that the
  dashboard's file card switches on.
- Row ids come from a counter. Every stored id is below it (`FileStore.Valid`),
  a successful `CreateFile` advances it by one and `DeleteFile` leaves it alone,
  so an inserted id is always fresh and a deleted id is never handed out again.
  This stands for the database's id allocation, whose internals are not modelled.
- `getFiles` lists rows in ascending id order, which is creation order. That
  matches an index on `orgId` whose entries with equal `orgId` are ordered by
  creation time.

The substring rule grants every scope id that is a slice of the caller's
token identifier, the empty id `""` and the whole token included. The model
proves this for the rule itself (`Access.TokenSliceGranted`,
`Access.OwnTokenGranted`), for the looked-up caller
(`Access.CallerTokenSliceGranted`) and for the handlers
(`Files.CallerTokenSliceUsable`). The last two need the users directory to
file each record under its own token (`Access.WellKeyed`), which holds because
`getUser` looks records up by their token identifier; `FileStore.Valid`
carries this as an invariant.

The message thrown by `deleteFile` without an identity is
"you do not have access to this org" (`convex/files.ts:97`). This is the text
`createFile` uses for refused access, not its "must be logged in" text. The
model keeps the messages as written.

## Model

| member | source | states |
|---|---|---|
| `Access.Includes` | convex/files.ts:23 | the string search answers true exactly when the scope id occurs as a contiguous slice of the token |
| `Access.HasAccess` | convex/files.ts:22-23 | access is granted exactly when the scope id is one of the user's organization ids or occurs inside the user's token identifier |
| `Access.GetUser` | convex/files.ts:21 | assumed lookup: succeeds exactly when the token has a record, returning that record, which in a well-keyed directory carries the token it was looked up by; otherwise fails with `UserNotFound` for that token |
| `Access.HasAccessToOrg` | convex/files.ts:16-26 | fails exactly when the caller has no user record; otherwise answers the membership-or-substring rule on the looked-up record |
| `Access.TokenSliceGranted` | convex/files.ts:23 | every contiguous slice of the caller's own token is a granted scope id |
| `Access.OwnTokenGranted` | convex/files.ts:23 | the whole token and the empty scope id are always granted |
| `Access.PersonalScopeGranted` | convex/files.ts:23 | a token made of an issuer, a separator character and a user id grants that user id as a personal scope, with no organization membership |
| `Access.MemberGranted` | convex/files.ts:23 | every organization id of the user is granted |
| `Access.CallerTokenSliceGranted` | convex/files.ts:21-23 | in a directory that files each record under its own token, `hasAccessToOrg` grants a registered caller every slice of the caller's token |
| `Files.Collect` | convex/files.ts:84-87 | the scan returns rows of the requested scope only, each as stored, in strictly ascending id order (so without repeats), and every stored row of that scope below the bound |
| `Files.GetFiles` | convex/files.ts:63-89 | no identity gives `[]`; a missing user record gives the `UserNotFound` error for that token; refused access gives `[]`; granted access gives exactly the rows whose `orgId` is the requested one, each as stored, in strictly ascending id order |
| `Files.CreateCheck` | convex/files.ts:35-51 | passes exactly when there is an identity with a user record that has access; no identity throws the log-in message, refused access throws the no-access message, a missing record throws `UserNotFound` |
| `Files.DeleteCheck` | convex/files.ts:93-112 | passes exactly when there is an identity, the row exists and the caller has access to the row's stored scope; the checks come in that order, each failure with its own message |
| `Files.CollectIgnoresFrom` | convex/files.ts:84-87 | a row stored at or above the scan bound does not change the scan |
| `Files.CreateThenListed` | convex/files.ts:53-58 | after a permitted insert, `getFiles` for that scope lists the rows it listed before, then the new row |
| `Files.RemovalHidesOnlyThatRow` | convex/files.ts:114 | after removing a row, every caller's listing of every scope succeeds or fails as before and lists the same rows except the removed one |
| `Files.ListedImpliesAccess` | convex/files.ts:70-87 | every row `getFiles` returns is a stored row of the requested scope, and the caller has an identity, a user record and access to that scope |
| `Files.SecondDeleteFails` | convex/files.ts:100-103 | once a delete has passed its checks and the row is removed, the same delete fails with "This file does not exist" |
| `Files.DeleteUsesStoredScope` | convex/files.ts:104-108 | the delete verdict depends only on whether the row exists and on its stored `orgId` |
| `Files.CallerTokenSliceUsable` | convex/files.ts:43-51 | a registered caller passes the checks of `createFile` for any slice of the caller's token, and those of `deleteFile` for any row stored under such a slice |
| `Files.FileStore.CreateFile` | convex/files.ts:28-60 | outcome is `CreateCheck`; on failure the table and the id counter are unchanged; on success exactly one row is added, under an id not in the table before, with the given name, storage id, scope and type, every earlier row is kept as it was, and the counter advances by one |
| `Files.FileStore.DeleteFile` | convex/files.ts:91-116 | outcome is `DeleteCheck` on the table before the call; on failure the table is unchanged; on success the row existed and exactly that id is removed; the id counter never moves back |
| `Files.DeleteTwice` | convex/files.ts:100-114 | deleting the same id twice: when the first call succeeds the second fails with "This file does not exist" and only that row is gone; when the first fails nothing changes; the store stays valid |
| `Files.CreateThenList` | convex/files.ts:53-58 | on the store, after a successful create the creator's listing of that scope is the earlier listing followed by the new row under the previously free id |

## Left out

- `generateUploadUrl` (`convex/files.ts:7-14`): it calls the storage service. The storage id a row carries is an opaque string here.
- Identity provider, user provisioning and the `./users` module: they are replaced by an optional token parameter and a users directory, as described above.
- Transactions, concurrency and the database's id allocation: each handler is one atomic step, and fresh ids come from a counter.
- Soft delete, restore, favorites, search filters and the periodic deletion job: `convex/files.ts` implements none of them. `deleteFile` deletes for good, and the job that `convex/crons.ts` schedules (`internal.files.deleteAllFiles`) does not exist in that file.
- The React components, the storage URL helpers and `next.config.mjs`: they are presentation and configuration. The owner-or-admin gate of the dashboard menu is not enforced by the server.
- Other fields of Convex documents, such as `_creationTime`, and the schema's index declaration: creation order is represented by the row id.
