# Social Postify scheduling back end — business-rule model

This project models, in Dafny, the service and repository layer of a CRUD back
end that schedules social-media content. It has three resources:

- **media accounts** `{id, title, username}`;
- **posts** `{id, title, text, image}`;
- **publications** `{id, mediaId, postId, date}`. A publication pairs one post
  with one media account on a publish date.

The relational store behind the repositories is modelled as three in-memory
tables. Each table is the sequence of its records in insertion order plus the
counter it draws new ids from. Order matters because a lookup by username
returns the *first* matching record.

Layout, one module per file:

- `wrappers.dfy` (`Wrappers`): `Option`, the error kinds `Err = NotFound | Conflict | Forbidden`, and `Result`.
- `table.dfy` (`Table`): the table operations the three repositories share.
  These are find-first by id, update by id, delete by id and append under a
  fresh id. The module also proves the table invariant (unique ids below the
  counter) and the read-after-write properties.
- `medias.dfy` (`Medias`): `MediasRepository`, `MediasService` and the
  first-match conflict rule, with lemmas and the scenarios of the end-to-end tests.
- `posts.dfy` (`Posts`): `PostsRepository` and `PostsService`.
- `publications.dfy` (`Publications`): `PublicationsRepository` and the
  `PublicationsService` validation workflow. Update checks, in order:
  1. the id exists;
  2. the *stored* date is still in the future;
  3. the new media exists;
  4. the new post exists.
  Create checks only the two references and never the date. Remove has no time guard.

Repositories and services are classes. A repository holds its table in fields,
reads it with functions and changes it with methods. A service holds its
repositories as constant fields, as the constructor injection does. Each
service method may modify only its own table. So a failed publication create
or update leaves the medias and posts tables unchanged by its frame.

Deviations from the literal source:

- `medias.service.ts` lines 13 and 37 read `.title` from a lookup that returns
  null when no account has the username. The model treats "no account with
  that username" as "no conflict", the behaviour the end-to-end test at
  `test/app.e2e-spec.ts` lines 67-84 expects. The behaviour as written is kept
  in `ConflictCheckAsWritten`; see "## Findings".
- `src/posts/posts.repository.ts` declares a class named `MediasRepository`
  with methods `createMedia`, `getMedia`, `getMediaById`, `updateMedia` and
  `deleteMedia`, all over the posts table. The services call `PostsRepository`
  with `createPost`, `getPost`, `getPostById`, `updatePost` and `deletePost`.
  The model uses the names the services call; the bodies are the ones in that file.
- The conflict rule compares only against the first account with the
  incoming username. So (title, username) pairs are **not** kept unique.
  `DuplicatePairScenario` shows three creates that all succeed and leave two
  accounts with the same pair. The model proves the local rule, not a
  uniqueness invariant.
- `now` and publication dates are integer timestamps (milliseconds).

## Model

| member | source | states |
|---|---|---|
| `Table.IndexOfId` | src/medias/medias.repository.ts:21-27 | the first position holding the id; none exactly when no record has it |
| `Table.FindById` | src/medias/medias.repository.ts:21-27 | findFirst by id: none exactly when no record has the id, otherwise a stored record with that id |
| `Table.FindByIdAt` | src/publications/publications.repository.ts:21-27 | with unique ids, looking up a stored record's id returns exactly that record |
| `Table.Replace` | src/medias/medias.repository.ts:29-34 | update by id: same length, same ids in the same order, the record with the id takes the new fields, every other record is unchanged |
| `Table.Remove` | src/medias/medias.repository.ts:36-40 | delete by id: no record with the id remains, every remaining record was stored, every stored record with another id remains |
| `Table.RemoveAt` | src/medias/medias.repository.ts:36-40 | with unique ids, deleting a stored record's id removes exactly that record and keeps the rest in order |
| `Table.RemoveAbsent` | src/posts/posts.repository.ts:36-40 | deleting an id no record has leaves the table as it was |
| `Table.AppendKeepsWellFormed` | src/medias/medias.repository.ts:11-15 | appending under the counter's id and advancing the counter keeps ids unique and below the counter |
| `Table.ReplaceKeepsWellFormed` | src/medias/medias.repository.ts:29-34 | update by id keeps the table invariant |
| `Table.RemoveKeepsUnique` | src/medias/medias.repository.ts:36-40 | delete by id keeps ids unique |
| `Table.RemoveKeepsWellFormed` | src/medias/medias.repository.ts:36-40 | delete by id keeps the table invariant |
| `Table.FindAfterAppend` | src/publications/publications.repository.ts:11-15 | create then read: the new id reads back exactly the appended record; every other id reads as before |
| `Table.FindAfterReplace` | src/publications/publications.repository.ts:29-34 | update then read: a stored id reads back the new fields under the same id; every other id reads as before |
| `Table.FindAfterRemove` | src/publications/publications.repository.ts:36-40 | delete then read: the deleted id reads as absent; every other id reads as before |
| `Medias.IndexOfUsername` | src/medias/medias.repository.ts:42-48 | the first position whose username matches, with no earlier match; none exactly when no account has the username |
| `Medias.ConflictCheckAsWritten` | src/medias/medias.service.ts:12-13 | the check as written fails (null dereference) exactly when no account has the username, and otherwise agrees with the corrected rule |
| `Medias.BrandNewUsernameCrashesAsWritten` | src/medias/medias.service.ts:12-13 | on an empty table the written check fails instead of answering |
| `Medias.BrandNewUsernameNoConflict` | src/medias/medias.service.ts:11-16 | corrected rule: a username no account has never conflicts |
| `Medias.ConflictMeansStoredPair` | src/medias/medias.service.ts:12-15 | a conflict is reported only when some account already has that title and username |
| `Medias.ConflictsOnlyOnFirst` | src/medias/medias.service.ts:12-13 | the verdict depends only on the first account with the username: conflict iff that account has the incoming title |
| `Medias.OwnValuesConflict` | src/medias/medias.service.ts:36-39 | the record being updated is not excluded: updating the first account of a username to its own values is a conflict |
| `Medias.LaterDuplicateAccepted` | src/medias/medias.service.ts:12-13 | a pair equal to a later account of the same username is not a conflict |
| `Medias.MediasRepository.constructor` | src/medias/medias.repository.ts:9 | a new store holds an empty medias table whose first id is 1 |
| `Medias.MediasRepository.CreateMedia` | src/medias/medias.repository.ts:11-15 | appends one account with the given fields under an id no stored account has; keeps the table invariant |
| `Medias.MediasRepository.GetMedia` | src/medias/medias.repository.ts:17-19 | the whole table in store order |
| `Medias.MediasRepository.GetMediaById` | src/medias/medias.repository.ts:21-27 | none exactly when no account has the id, otherwise a stored account with that id |
| `Medias.MediasRepository.UpdateMedia` | src/medias/medias.repository.ts:29-34 | refused with the table unchanged for an unknown id; otherwise returns the record under the same id with the new fields and rewrites only that record |
| `Medias.MediasRepository.DeleteMedia` | src/medias/medias.repository.ts:36-40 | returns the record with the id; refused with the table unchanged when there is none; otherwise removes only that record |
| `Medias.MediasRepository.GetMediaByUsername` | src/medias/medias.repository.ts:42-48 | the first account in store order with the username, or none exactly when no account has it |
| `Medias.MediasService.constructor` | src/medias/medias.service.ts:9 | the service works on the repository it is given |
| `Medias.MediasService.Create` | src/medias/medias.service.ts:11-17 | Conflict with the table unchanged when the first account with the username has the title; otherwise appends exactly one account with the given fields under a fresh id, which then reads back |
| `Medias.MediasService.FindAll` | src/medias/medias.service.ts:19-21 | every account in store order |
| `Medias.MediasService.FindOne` | src/medias/medias.service.ts:23-29 | NotFound exactly when no account has the id, otherwise a stored account with that id |
| `Medias.MediasService.Update` | src/medias/medias.service.ts:31-41 | NotFound for an unknown id before the conflict check; then Conflict by the create rule on the new pair; otherwise only that account takes the new fields and keeps its id; every refusal leaves the table unchanged |
| `Medias.MediasService.Remove` | src/medias/medias.service.ts:43-49 | NotFound with the table unchanged for an unknown id; otherwise returns the stored account and removes exactly it |
| `Medias.CreateTwiceScenario` | test/app.e2e-spec.ts:47-65 | creating an existing title and username is a Conflict and the table keeps its one account |
| `Medias.CreateFirstScenario` | test/app.e2e-spec.ts:67-84 | creating the first account of a username on an empty table succeeds with exactly the submitted fields |
| `Medias.DuplicatePairScenario` | src/medias/medias.service.ts:11-17 | three creates all succeed and leave two accounts with equal title and username under different ids |
| `Medias.UpdateRefusedScenario` | test/app.e2e-spec.ts:147-194 | an update onto another account's pair is a Conflict with both accounts unchanged; an unknown id is NotFound |
| `Medias.UpdateRenameScenario` | test/app.e2e-spec.ts:196-220 | a new title for the same username succeeds and keeps the id; repeating the same update conflicts with the account itself |
| `Medias.RemoveScenario` | test/app.e2e-spec.ts:222-254 | deleting an unknown id is NotFound; deleting the account's id returns it and leaves the table empty |
| `Posts.PostsRepository.constructor` | src/posts/posts.repository.ts:9 | a new store holds an empty posts table whose first id is 1 |
| `Posts.PostsRepository.CreatePost` | src/posts/posts.repository.ts:11-15 | appends one post with the given fields under an id no stored post has; keeps the table invariant |
| `Posts.PostsRepository.GetPost` | src/posts/posts.repository.ts:17-19 | the whole posts table in store order |
| `Posts.PostsRepository.GetPostById` | src/posts/posts.repository.ts:21-27 | none exactly when no post has the id, otherwise a stored post with that id |
| `Posts.PostsRepository.UpdatePost` | src/posts/posts.repository.ts:29-34 | refused with the table unchanged for an unknown id; otherwise rewrites only that post, keeping its id |
| `Posts.PostsRepository.DeletePost` | src/posts/posts.repository.ts:36-40 | returns the post with the id; refused with the table unchanged when there is none; otherwise removes only that post |
| `Posts.PostsService.constructor` | src/posts/posts.service.ts:10 | the service works on the repository it is given |
| `Posts.PostsService.Create` | src/posts/posts.service.ts:12-14 | always succeeds and appends exactly one post with the given fields under a fresh id, which then reads back |
| `Posts.PostsService.FindAll` | src/posts/posts.service.ts:16-18 | every post in store order |
| `Posts.PostsService.FindOne` | src/posts/posts.service.ts:20-26 | NotFound exactly when no post has the id, otherwise a stored post with that id |
| `Posts.PostsService.Update` | src/posts/posts.service.ts:28-34 | NotFound with the table unchanged for an unknown id; otherwise only that post takes the new title, text and image, and reads back so |
| `Posts.PostsService.Remove` | src/posts/posts.service.ts:36-42 | NotFound with the table unchanged for an unknown id; otherwise returns the stored post, removes exactly it, and it no longer reads back |
| `Publications.PublicationsRepository.constructor` | src/publications/publications.repository.ts:9 | a new store holds an empty publications table whose first id is 1 |
| `Publications.PublicationsRepository.CreatePublication` | src/publications/publications.repository.ts:11-15 | appends one publication with the given mediaId, postId and date under an id no stored publication has |
| `Publications.PublicationsRepository.GetPublication` | src/publications/publications.repository.ts:17-19 | the whole publications table in store order |
| `Publications.PublicationsRepository.GetPublicationById` | src/publications/publications.repository.ts:21-27 | none exactly when no publication has the id, otherwise a stored publication with that id |
| `Publications.PublicationsRepository.UpdatePublication` | src/publications/publications.repository.ts:29-34 | refused with the table unchanged for an unknown id; otherwise rewrites only that publication, keeping its id |
| `Publications.PublicationsRepository.DeletePublication` | src/publications/publications.repository.ts:36-40 | returns the publication with the id; refused with the table unchanged when there is none; otherwise removes only it |
| `Publications.PublicationsService.constructor` | src/publications/publications.service.ts:11-15 | the service works on the three repositories it is given |
| `Publications.PublicationsService.Create` | src/publications/publications.service.ts:17-27 | NotFound for an unknown media, checked first, then for an unknown post, both with the table unchanged; otherwise appends exactly one publication with the given fields whatever its date |
| `Publications.PublicationsService.FindAll` | src/publications/publications.service.ts:29-31 | every publication in store order |
| `Publications.PublicationsService.FindOne` | src/publications/publications.service.ts:33-39 | NotFound exactly when no publication has the id, otherwise a stored publication with that id |
| `Publications.PublicationsService.Update` | src/publications/publications.service.ts:41-62 | checks in order: NotFound for an unknown id; Forbidden when the stored date is at or before now, whatever the new values; NotFound for an unknown media; NotFound for an unknown post; then only that publication takes the new mediaId, postId and date under the same id; every refusal leaves the table unchanged |
| `Publications.PublicationsService.Remove` | src/publications/publications.service.ts:64-70 | NotFound with the table unchanged for an unknown id; otherwise returns the stored publication and removes exactly it, with no date check |
| `Publications.UnknownReferenceScenario` | src/publications/publications.service.ts:17-25 | a create with an unknown media or an unknown post is NotFound and stores nothing |
| `Publications.DueScenario` | src/publications/publications.service.ts:41-70 | a publication dated a day in the past is created, cannot be updated even to valid values, and can be deleted, leaving the table empty |
| `Publications.ScheduledScenario` | src/publications/publications.service.ts:41-62 | a future publication refuses an unknown new media with NotFound, then takes a valid update and keeps its id |

## Left out

- The Prisma client and the database engine. The tables are in memory. A
  store-level failure other than "record not found" is not modelled.
- NestJS wiring, controllers and the HTTP status mapping. The error kinds are
  modelled, not the status codes. The health endpoint is left out.
  `src/medias/medias.module.ts` registers no `MediasRepository` provider; that
  wiring question is outside this model.
- DTO validation decorators (`@IsNumber`, `@IsDate`, `@IsNotEmpty`,
  `PartialType`). They reject malformed input before any service code runs.
  The model takes well-typed, complete input, so update is a full replacement.
- `Date.now()` and date parsing. The current moment is the `now` parameter of
  `Update`, and dates are integers.
- The `console.log` on the Forbidden path of publication update.
- Concurrency. Two requests that interleave their check and their write are
  not modelled; every operation runs alone.
- Referential integrity on media or post delete. The source does not guard
  it, so publications may refer to deleted accounts or posts, and no lemma
  claims otherwise.
- The test factories (faker, dayjs) and the end-to-end test setup, except for
  the behaviours they assert, which the scenario methods state.

## Findings

| source | as written | input that shows it | evidently intended | confidence | as-written member | corrected member |
|---|---|---|---|---|---|---|
| src/medias/medias.service.ts:12-13 (also 36-37) | reads `.title` of the username lookup without a null check | empty medias table, create `{title: "Instagram", username: "myusername"}` | no account with the username means no conflict, so the create succeeds (test/app.e2e-spec.ts:67-84) | high, not executed | `Medias.ConflictCheckAsWritten` with `Medias.BrandNewUsernameCrashesAsWritten` | `Medias.Conflicts` with `Medias.BrandNewUsernameNoConflict` and `Medias.CreateFirstScenario` |
