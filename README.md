# chipper-api favorites, posts and user import, modelled in Dafny

This project models the rule-bearing parts of a small Laravel backend:

- the **favorites** controller (`FavoriteController`): a user favorites posts
  and other users. A favorite is a row `(user_id, favoritable_id,
  favoritable_type ∈ {Post, User})`;
- the **post observer** (`PostObserver`): when a post is created, every
  follower of its author gets one `NewPostFromFavoriteUser` notification. A
  follower is a user who holds a User-typed favorite of the author;
- the **posts** controller (`PostController`): index, show, store, update and
  destroy on the posts table. Store runs the observer's `created` hook;
- the **import:users** console command (`ImportUsers`): fetch user records
  and take the first `limit` of them, then insert each one whose email is not
  yet taken;
- the **favorites migration** (`up`/`down`): rewrites rows between the legacy
  `post_id` column and the polymorphic columns.

The database is replaced by in-memory tables. A table that the application
updates in place is a class with a `seq` field (`FavoriteTable`,
`PostTable`, `UserTable`). The notification channel is an `Outbox` whose log
the fan-out appends to. The migration works over an `array` of rows. Each
mutating method states its whole new state in terms of its old state. Pure
helper functions describe the queries. Lemmas prove the properties the
controllers, the command and the tests promise:

- "touches only the caller's rows of one kind";
- no self-favorites, and no duplicate user favorites;
- favorite followed by unfavorite restores the table;
- the follower set is exact, with one notification per follower;
- the import skips existing emails, keeps emails unique, and adds only records
  within the limit;
- the migration is idempotent, and down after up restores a legacy table
  (post_id set, polymorphic columns null).

Files: `models.dfy` (rows, the users table, the outbox), `favorites.dfy`,
`observer.dfy`, `posts.dfy`, `import_users.dfy`, `migration.dfy`.

Two behaviours the code does not have:

- **Duplicate post favorites.** Favoriting a post is not rejected as a
  duplicate. `store` inserts unconditionally. Any duplicate check would live in
  `CreateFavoriteRequest` or a database constraint, and neither is part of this
  model.
- **Notifying the author.** The author is not excluded from the fan-out by the
  observer itself. The author is notified exactly when a self-targeting User
  favorite exists. Such a row cannot arise through `favoriteUser`, which
  rejects self-favorites, and every controller operation preserves
  `NoSelfFollow`. Under that invariant, `AuthorNotNotified` proves the author
  gets nothing.

## Model

| member | source | states |
|---|---|---|
| `Models.UserTable.constructor` | app/Console/Commands/ImportUsers.php:57-61 | An empty users table with the counter at the first auto-increment id is valid: ids are unique and below the counter. |
| `PostController.PostTable.constructor` | app/Http/Controllers/PostController.php:34-39 | An empty posts table with the counter at the first auto-increment id is valid. |
| `FavoriteController.FavoriteTable.Index` | app/Http/Controllers/FavoriteController.php:18-22 | The caller's favorites split by kind. A target id is listed under posts (users) exactly when the caller has a Post (User) row for it. Each target is listed under posts (users) as many times as the caller has Post (User) rows naming it. So the posts part has one entry per Post row of the caller, the users part one per User row, and together they have as many entries as the caller has rows. A caller with no rows gets two empty sequences. |
| `FavoriteController.FavoriteTable.Store` | app/Http/Controllers/FavoriteController.php:24-32 | Appends exactly one `(caller, post, Post)` row and answers 201. Only the caller's Post rows change. NoSelfFollow and UniqueFollows are preserved. There is no duplicate check. |
| `FavoriteController.FavoriteTable.Destroy` | app/Http/Controllers/FavoriteController.php:34-44 | With no `(caller, post, Post)` row: 404 and the table unchanged. Otherwise the first such row is removed (one row fewer) and the response is 204. The result is 204 exactly when a match existed. Only the caller's Post rows change, and both invariants are preserved. |
| `FavoriteController.FavoriteTable.FavoriteUser` | app/Http/Controllers/FavoriteController.php:46-67 | Self-favorite: 422 "You cannot favorite yourself", table unchanged. Existing `(caller, target, User)` row: 422 "Already favorited", table unchanged. Otherwise exactly that row is appended and the response is 200 "User favorited successfully". Only the caller's User rows change. No self-follow and no duplicate follow is ever created. |
| `FavoriteController.FavoriteTable.UnfavoriteUser` | app/Http/Controllers/FavoriteController.php:69-81 | Every `(caller, target, User)` row is deleted and none remains. The response is 404 "User was not in favorites" exactly when none existed, and then the table is unchanged. Otherwise it is 200 "User removed from favorites". Only the caller's User rows change, and both invariants are preserved. |
| `FavoriteController.FirstMatch` | app/Http/Controllers/FavoriteController.php:36-39 | firstOrFail finds nothing exactly when no row matches. Otherwise it returns the position of a matching row with no earlier match. |
| `FavoriteController.RemoveMatching` | app/Http/Controllers/FavoriteController.php:71-74 | The bulk delete keeps exactly the non-matching rows. It leaves the table equal to the old one exactly when nothing matched, and shrinks it exactly when something matched (the deleted count is positive). |
| `FavoriteController.RemoveMatchingOnlyTouches` | app/Http/Controllers/FavoriteController.php:71-74 | The bulk delete leaves every other owner's rows, and the caller's rows of the other kind, unchanged and in order. |
| `FavoriteController.SliceOfRemoveMatching` | app/Http/Controllers/FavoriteController.php:71-74 | The rows of one (owner, kind) slice are unchanged by a delete aimed at another slice. |
| `FavoriteController.AppendOnlyTouches` | app/Http/Controllers/FavoriteController.php:61-64 | An insert affects only the slice of the inserted row's owner and kind. |
| `FavoriteController.RemoveAtOnlyTouches` | app/Http/Controllers/FavoriteController.php:36-41 | Deleting the found row affects only that row's (owner, kind) slice. |
| `FavoriteController.SliceConcat` | app/Http/Controllers/FavoriteController.php:20 | Selecting one owner's rows of one kind distributes over concatenated tables. |
| `FavoriteController.FavoriteUnfavoriteRoundTrip` | app/Http/Controllers/FavoriteController.php:61-74 | Starting without a `(caller, target, User)` row, inserting it and then deleting all matches restores the original table exactly. |
| `FavoriteController.TargetsCount` | app/Http/Controllers/FavoriteController.php:20 | The listing of one (owner, kind) slice names each target as many times as the owner has rows of that kind targeting it. |
| `FavoriteController.SliceMembers` | app/Http/Controllers/FavoriteController.php:20 | A row is in the (owner, kind) selection exactly when it is in the table with that owner and kind. |
| `FavoriteController.PartitionCount` | app/Http/Controllers/FavoriteController.php:20 | A user's Post rows and User rows together are all of that user's favorites. |
| `FavoriteController.OwnedByEmpty` | app/Http/Controllers/FavoriteController.php:20 | A user's favorites relation is empty exactly when no row has that user id. |
| `FavoriteController.TargetsOfSlice` | app/Http/Controllers/FavoriteController.php:20 | The listed target ids of a slice are exactly the targets the user has a row for, of that kind. |
| `FavoriteController.RemoveMatchingKeepsUniqueFollows` | app/Http/Controllers/FavoriteController.php:71-74 | Deleting rows never creates a duplicate User favorite. |
| `FavoriteController.RemoveAtKeepsUniqueFollows` | app/Http/Controllers/FavoriteController.php:36-41 | Deleting one row never creates a duplicate User favorite. |
| `PostObserver.Followers` | app/Observers/PostObserver.php:18-21 | The whereHas query. A user id is listed exactly when it is in the users table and owns at least one User-typed favorite targeting the author. |
| `PostObserver.CreatedNotifications` | app/Observers/PostObserver.php:15-25 | One notification per listed follower, each referencing the new post. A user is notified exactly when they are a follower of the post's author. |
| `PostObserver.Dispatch` | app/Observers/PostObserver.php:15-57 | Only the created event sends anything, to exactly the followers. The updated, deleted, restored and forceDeleted hooks send nothing. |
| `PostObserver.FollowersDistinct` | app/Observers/PostObserver.php:18-21 | With unique user ids, no follower is listed twice, however many matching favorites they own. |
| `PostObserver.OneNotificationPerFollower` | app/Observers/PostObserver.php:18-24 | With unique user ids, no user receives two notifications for the same post. |
| `PostObserver.NonFollowersNotNotified` | app/Observers/PostObserver.php:19-20 | A user whose favorites naming the author are all Post-typed (or who has none) receives nothing. |
| `PostObserver.NoFollowersNoNotifications` | app/Observers/PostObserver.php:18-24 | With no favorite following the author, no notification is sent. |
| `PostObserver.AuthorNotNotified` | app/Observers/PostObserver.php:18-21 | When no self-targeting User favorite exists, the author is not notified. |
| `PostController.PostTable.Index` | app/Http/Controllers/PostController.php:18-22 | All posts, as a permutation of the table, with created_at non-increasing. |
| `PostController.PostTable.Show` | app/Http/Controllers/PostController.php:44-47 | Returns the stored post with that id (a read: nothing changes). With unique ids it is the only such post. |
| `PostController.PostTable.Store` | app/Http/Controllers/PostController.php:24-42 | Appends exactly one post with the next id, the caller as owner, and the given title, body and creation time. Its image path is null without an upload. The observer's notifications for that post are appended to the outbox. |
| `PostController.PostTable.Update` | app/Http/Controllers/PostController.php:49-57 | Only the title and body of the given post change. Its owner, image path, id and creation time, and every other post, are unchanged. The updated post is returned. |
| `PostController.PostTable.Destroy` | app/Http/Controllers/PostController.php:59-64 | Removes exactly the given post (one row fewer, the id gone). Every other post stays. |
| `PostController.SortNewestFirst` | app/Http/Controllers/PostController.php:20 | orderByDesc('created_at'): the result is sorted newest first and is a permutation of the input. |
| `PostController.InsertNewestFirst` | app/Http/Controllers/PostController.php:20 | Inserting into a newest-first sequence keeps it sorted and adds exactly that post. |
| `PostController.FindPost` | app/Http/Controllers/PostController.php:44-47 | The bound post is in the table and has the requested id. |
| `PostController.WithoutPost` | app/Http/Controllers/PostController.php:61 | The delete keeps exactly the posts with another id. |
| `PostController.WithoutPostRemovesOne` | app/Http/Controllers/PostController.php:61 | With unique ids, deleting an existing post removes exactly one row and ids stay unique. |
| `ImportUsers.Handle` | app/Console/Commands/ImportUsers.php:29-73 | A limit of 0 gives FAILURE with no change. A failed fetch gives FAILURE with no change. Otherwise the result is SUCCESS, the users table equals `Imported` over `take(limit)`, and the reported count equals the number of added rows. |
| `ImportUsers.InsertNew` | app/Console/Commands/ImportUsers.php:49-64 | The insert loop keeps the users table valid (unique ids below the counter). It leaves the table equal to `Imported` over the batch, and returns the number of rows it added, which is also how far the id counter advanced. |
| `ImportUsers.Take` | app/Console/Commands/ImportUsers.php:47 | take(limit): the first min(limit, n) records in source order; for a negative limit, the last ones. |
| `ImportUsers.Imported` | app/Console/Commands/ImportUsers.php:49-64 | The insert loop only appends: the existing rows are kept unchanged as a prefix, and at most one row is added per record. |
| `ImportUsers.ImportedEmails` | app/Console/Commands/ImportUsers.php:49-64 | After the run an email is present exactly when it was present before or belongs to a processed record. |
| `ImportUsers.ImportedNewRows` | app/Console/Commands/ImportUsers.php:57-61 | Every added row carries a processed record's name and email, the default password hash, and consecutive ids. |
| `ImportUsers.ImportedSkipsExisting` | app/Console/Commands/ImportUsers.php:52-55 | A record whose email already exists adds no row with that email. |
| `ImportUsers.ImportedKeepsEmailsUnique` | app/Console/Commands/ImportUsers.php:49-64 | If emails were unique before the run, they are unique after it. This covers repeated emails within one run, because each check sees the earlier inserts. |
| `ImportUsers.LimitEmailsPresent` | app/Console/Commands/ImportUsers.php:47-64 | Every email among the first `limit` records is present after the run, also when fewer than `limit` records were fetched. |
| `ImportUsers.TakeBoundsImport` | app/Console/Commands/ImportUsers.php:47-64 | A record past the limit whose email is neither already in the table nor among the first `limit` records is never inserted. |
| `FavoritesMigration.UpRow` | database/migrations/2026_01_02_191629_migrate_favorites_to_polymorphic.php:16-19 | A row with a post_id gets favoritable_id = post_id and type Post. post_id and the owner never change. A row with a null post_id is untouched. |
| `FavoritesMigration.DownRow` | database/migrations/2026_01_02_191629_migrate_favorites_to_polymorphic.php:28-34 | A Post-typed row gets post_id = favoritable_id and both polymorphic columns nulled. Any other row (User-typed or untyped) is untouched. |
| `FavoritesMigration.Up` | database/migrations/2026_01_02_191629_migrate_favorites_to_polymorphic.php:13-20 | In place over the table: each row is rewritten as UpRow says. post_id is unchanged everywhere, and rows with a null post_id are untouched. |
| `FavoritesMigration.Down` | database/migrations/2026_01_02_191629_migrate_favorites_to_polymorphic.php:25-35 | In place over the table: exactly the Post-typed rows are rewritten as DownRow says, and the rest are untouched. |
| `FavoritesMigration.UpIdempotent` | database/migrations/2026_01_02_191629_migrate_favorites_to_polymorphic.php:16-19 | Applying up twice gives the same table as applying it once. |
| `FavoritesMigration.DownIdempotent` | database/migrations/2026_01_02_191629_migrate_favorites_to_polymorphic.php:28-34 | Applying down twice gives the same table as applying it once. |
| `FavoritesMigration.DownAfterUp` | database/migrations/2026_01_02_191629_migrate_favorites_to_polymorphic.php:16-34 | After up then down, every row with a post_id holds the same post_id and null polymorphic columns. A row without one is treated by down alone. |
| `FavoritesMigration.UpDownRoundTrip` | database/migrations/2026_01_02_191629_migrate_favorites_to_polymorphic.php:16-34 | A legacy table (post_id set, polymorphic columns null) is restored exactly by down after up. |

## Left out

- HTTP routing, authentication middleware and route-model binding are not modelled. The caller is a given user id. A post targeted by show, update or destroy is required to exist, which is what binding guarantees. The 401 guest responses come from middleware and are not modelled.
- The request classes (CreateFavoriteRequest, CreatePostRequest, UpdatePostRequest, DestroyPostRequest) are not part of this model. So neither validation nor the ownership checks for update and destroy are modelled.
- FavoriteResource, UserResource and PostResource (including the `asset()` image URL) are not modelled. The favorites listing returns target ids split by kind, and the posts index returns post rows.
- Favorite rows carry no id or created_at, and posts carry no updated_at. The row that firstOrFail finds is deleted by position, which with a primary key is the same row.
- FavoriteController.FavoriteTable.Destroy: SQL gives no order for firstOrFail without orderBy. The model takes the first matching row in table order.
- Http::get and JSON decoding are not modelled: the fetch is an input, a success flag plus the decoded records.
- Hash::make is not modelled. The stored credential is the constant `DefaultPasswordHash`, although the real hash is salted and differs per user.
- Delivery through the Notification facade is not modelled: sending is appending to the Outbox log.
- Image upload storage is not modelled: the stored path is an input, present only when a file was uploaded.
- ImportUsers.Handle: `(int)` casting of the `--limit` option string is not modelled. The model receives the cast integer, so an absent or non-numeric option arrives as 0. Negative limits follow Laravel's `Collection::take`, which takes from the end.
- ImportUsers.Handle: the catch-all exception path and malformed records (a missing `email` or `name` key) are not modelled. The console messages are not modelled either.
- Cascading deletes of favorites when a post or user is removed are not modelled, since the schema is not part of this model.
- ImportUsers.Handle: emails are compared for exact string equality. The database collation, which is case-insensitive under MySQL's default, and any case folding are not modelled.
- Concurrency is not modelled: in the source, two concurrent requests can race between the check and the insert in favoriteUser and in the import loop. These races cannot occur in the model, where each operation runs to completion.
- Identifiers are unbounded naturals: auto-increment overflow is not modelled.
