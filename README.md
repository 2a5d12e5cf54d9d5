# Flashcards data-access cache, modelled in Dafny

This project models the in-memory cache of the flashcards application's `DbContext`
(`Flashcards.Bkohler93/Database/DbContext.cs`). The store keeps a list of stacks in
`_stackCache`. Each stack holds its flashcards and its study sessions. `UpdateCache` rebuilds
the list from the rows of the left join `Stacks ⟕ Flashcards ⟕ StudySessions`. One row carries
one stack plus at most one flashcard and at most one study session, so the join fans out.

- `wrappers.dfy`: `Option` and `Result`.
- `entities.dfy`: the entities. Their names and fields follow `Flashcard.cs:5-8` and the columns of
  the three tables. `StudyTime` and `Score` are abstract types.
- `keyed.dfy` (module `Keyed`): sequences looked up and de-duplicated by an integer `Id`. This module
  covers `FirstOrDefault(x => x.Id == k)` (`Lookup`, `IndexOfKey`) and the `Any` guard before each
  `Add` (`AddIfAbsent`). `Dedup` folds the guard over a sequence. `FirstSeen` is an independent
  description of the result: one element per key, the first one seen, in first-seen order.
- `graph_builder.dfy` (module `GraphBuilder`): the rebuild's fold. `Build` folds `Step` over the
  rows from first to last. `Step` looks up the entry for the row's stack `Id`, creates it from the
  row's stack columns when it is missing, then appends the row's flashcard and study session unless
  the entry already has one with the same `Id`. Entries are kept in the insertion order of the
  dictionary. `Assemble` is a reference definition that uses no dictionary and no `Step`: it takes
  the stack columns of the rows, de-duplicated by `Id` with `Dedup`, gathers each stack's children
  from all of its rows, and de-duplicates them with `Dedup` as well. `Dedup` is itself a fold of
  the `Any` guard, but `FirstSeen` describes its result without one (`DedupFirstSeen`).
  `BuildIsAssemble` proves that `Build` and `Assemble` are equal. All other properties follow
  from it.
- `cache_store.dfy` (module `CacheStore`): class `DbContext`, with the field `cache`
  (`_stackCache`) and the reads and writes. Storage is an abstract `Storage` value with two
  functions, given to the constructor:
  - `join`: the rows the join query returns for a storage state, in whatever order the database
    produces them.
  - `exec`: the database's effect of one write statement, plus the scalar that statement selects
    (the new identity after inserting a stack).

  Each read rebuilds the cache exactly when it is empty, as `IsNullOrEmpty` does; this is
  `Lazy`. Each write runs its statement (or, for `CreateStackAsync`, the stack insert and then one
  insert per flashcard, in order) and then calls `UpdateCache`. `UpdateStackAsync` is the
  exception: as written, it does not rebuild, so a non-empty cache keeps the old name until a later
  write. `RenameThenLookup` shows this.

What the source does not do, and the model therefore does not do either:
- It keeps no flag recording that the cache was built. Each read tests only whether the cache is
  empty (`DbContext.cs:117`, `136`, `153`, `246`, `256`, `304`), so a rebuild that yields an empty
  graph is repeated on the next read.
- It has no check for a row without a stack, because `Stack.Id` is a non-nullable `int`.
- It takes no lock around the rebuild.
- `UpdateStackAsync` (`DbContext.cs:86-99`) does not call `UpdateCache`.

## Model

| member | source | states |
|---|---|---|
| `Keyed.IndexOfKey` | Flashcards.Bkohler93/Database/DbContext.cs:31 | the result is the position of the first element with the key, or the length when no element has it |
| `Keyed.Lookup` | Flashcards.Bkohler93/Database/DbContext.cs:222-230 | `FirstOrDefault` by `Id`: None exactly when no element has the key; otherwise the first element with it |
| `Keyed.LookupDistinct` | Flashcards.Bkohler93/Database/DbContext.cs:141 | on a duplicate-free list, the lookup returns `c` exactly when `c` is in the list with that key |
| `Keyed.DedupFirstSeen` | Flashcards.Bkohler93/Database/DbContext.cs:39-47 | the `Any`-guarded appends keep exactly one element per key: the first seen, in first-seen order, covering every key of the input |
| `Keyed.DedupOfDistinct` | Flashcards.Bkohler93/Database/DbContext.cs:39-47 | a stream with no repeated `Id` passes the guard unchanged |
| `Keyed.DedupAbsorbs` | Flashcards.Bkohler93/Database/DbContext.cs:39-47 | re-offering an element whose `Id` was already seen changes nothing |
| `GraphBuilder.BuildIsAssemble` | Flashcards.Bkohler93/Database/DbContext.cs:24-53 | the dictionary fold equals grouping the rows by stack `Id` (stacks in first-seen order), each group's children de-duplicated by `Id` |
| `GraphBuilder.BuildStacks` | Flashcards.Bkohler93/Database/DbContext.cs:31-37 | one stack per distinct stack `Id` in the rows, in first-seen order, named after the first row with that `Id`; the number of stacks is the number of distinct `Id`s |
| `GraphBuilder.BuildFlashcards` | Flashcards.Bkohler93/Database/DbContext.cs:39-42 | within each stack, flashcard `Id`s are distinct; they are exactly the non-null flashcard `Id`s on that stack's rows; each card is the first seen with its `Id`, in first-seen order; their count is the number of those `Id`s |
| `GraphBuilder.BuildSessions` | Flashcards.Bkohler93/Database/DbContext.cs:44-47 | the same distinctness, coverage, first-seen order and count for study sessions |
| `GraphBuilder.BuildChildless` | Flashcards.Bkohler93/Database/DbContext.cs:33-35 | a stack whose rows all have null flashcard and null session parts has two empty collections |
| `GraphBuilder.BuildWellFormed` | Flashcards.Bkohler93/Database/DbContext.cs:31-47 | every built cache has unique stack `Id`s and unique child `Id`s within each stack |
| `GraphBuilder.BuildEmpty` | Flashcards.Bkohler93/Database/DbContext.cs:53 | the rebuilt cache is empty exactly when the join returned no rows |
| `GraphBuilder.FanOutRow` | Flashcards.Bkohler93/Database/DbContext.cs:31-47 | folding a row a second time leaves the graph unchanged |
| `GraphBuilder.FanOutKnown` | Flashcards.Bkohler93/Database/DbContext.cs:31-47 | a row whose stack `Id`, flashcard `Id` and study session `Id` all already occur on that stack's rows leaves the graph unchanged |
| `GraphBuilder.FanOutInside` | Flashcards.Bkohler93/Database/DbContext.cs:31-47 | a row that adds no new `Id` to the rows before it can be dropped even when further rows follow it |
| `GraphBuilder.FanOut` | Flashcards.Bkohler93/Database/DbContext.cs:18-22 | for rows in any order, dropping every row whose stack, flashcard and study session `Id`s already occur on that stack's kept rows before it yields the same graph |
| `GraphBuilder.CrossProduct` | Flashcards.Bkohler93/Database/DbContext.cs:18-22 | for a stack with two flashcards and two study sessions, the four flashcard × session rows in the order (f1, t1), (f2, t2), (f1, t2), (f2, t1) build the same graph as the first two |
| `GraphBuilder.CrossProductByFlashcard` | Flashcards.Bkohler93/Database/DbContext.cs:18-22 | for three flashcards and two study sessions in flashcard-major order, where the redundant (f2, t2) comes before the new flashcard f3, the six rows build the same graph as the four that bring a new `Id` |
| `GraphBuilder.AlgebraScenario` | Flashcards.Bkohler93/Database/DbContext.cs:31-47 | two rows of stack 1 "Algebra" with flashcards 1 and 2 and no session build one stack with those two flashcards and no sessions |
| `CacheStore.StackInfoById` | Flashcards.Bkohler93/Database/DbContext.cs:141-148 | None exactly when no cached stack has the `Id`; otherwise the requested `Id` with the name of a cached stack that has it |
| `CacheStore.PlayStackById` | Flashcards.Bkohler93/Database/DbContext.cs:158-165 | NotFound exactly when no cached stack has the `Id` (`First` throws); otherwise that stack's `Id`, name and flashcards |
| `CacheStore.FlashcardFromStack` | Flashcards.Bkohler93/Database/DbContext.cs:222-241 | None when no stack has the stack `Id`; a result is always the front/back of a flashcard with the requested `Id` in a stack with the requested `Id`; on a well-formed cache, None exactly when no such flashcard exists |
| `CacheStore.StackInfos` | Flashcards.Bkohler93/Database/DbContext.cs:122-131 | one (`Id`, `Name`) view per cached stack, in cache order |
| `CacheStore.FlashcardInfos` | Flashcards.Bkohler93/Database/DbContext.cs:264-275 | one (`Id`, `Front`, `Back`) view per flashcard, in order |
| `CacheStore.SessionInfos` | Flashcards.Bkohler93/Database/DbContext.cs:309-323 | the nested loop produces the concatenation, in cache order, of each stack's sessions tagged with the stack's name |
| `CacheStore.SessionInfosMembers` | Flashcards.Bkohler93/Database/DbContext.cs:309-323 | a view is in that concatenation exactly when it is some stack's session tagged with that stack's own name |
| `CacheStore.DeletedStackNotFound` | Flashcards.Bkohler93/Database/DbContext.cs:101-111 | when the rows contain no stack `Id` `id`, looking up `id` in the rebuilt cache gives None |
| `CacheStore.DbContext.constructor` | Flashcards.Bkohler93/Database/DbContext.cs:9-12 | the cache starts empty |
| `CacheStore.DbContext.UpdateCache` | Flashcards.Bkohler93/Database/DbContext.cs:14-56 | the per-row dictionary loop leaves the cache equal to the fold of the current rows, and the cache is well formed |
| `CacheStore.DbContext.EnsureCache` | Flashcards.Bkohler93/Database/DbContext.cs:244-250 | rebuilds exactly when the cache is empty; otherwise the cache is unchanged |
| `CacheStore.DbContext.GetStacksInfosAsync` | Flashcards.Bkohler93/Database/DbContext.cs:115-132 | lazy rebuild, then one view per cached stack in cache order |
| `CacheStore.DbContext.GetStackById` | Flashcards.Bkohler93/Database/DbContext.cs:134-149 | lazy rebuild, then the lookup by stack `Id` |
| `CacheStore.DbContext.GetPlayStackById` | Flashcards.Bkohler93/Database/DbContext.cs:151-166 | lazy rebuild, then the stack with its flashcards, or NotFound |
| `CacheStore.DbContext.GetFlashcardFromStackByIdAsync` | Flashcards.Bkohler93/Database/DbContext.cs:218-242 | `EnsureCache`, then the two-level lookup by stack `Id` and flashcard `Id` |
| `CacheStore.DbContext.GetStackFlashcards` | Flashcards.Bkohler93/Database/DbContext.cs:252-276 | lazy rebuild; NotFound exactly when no cached stack has the `Id`; otherwise one view per flashcard of such a stack, in order |
| `CacheStore.DbContext.GetStudySessions` | Flashcards.Bkohler93/Database/DbContext.cs:300-325 | lazy rebuild, then every stack's sessions tagged with its name, in cache order |
| `CacheStore.DbContext.CreateStackAsync` | Flashcards.Bkohler93/Database/DbContext.cs:58-84 | storage gets the stack insert, then one flashcard insert per card under the returned identity, in order; the cache then equals the fold of the new rows |
| `CacheStore.DbContext.UpdateStackAsync` | Flashcards.Bkohler93/Database/DbContext.cs:86-99 | storage gets the rename; the cache is left unchanged (no rebuild) |
| `CacheStore.DbContext.DeleteStackAsync` | Flashcards.Bkohler93/Database/DbContext.cs:101-112 | storage gets the delete; the cache then equals the fold of the new rows |
| `CacheStore.DbContext.CreateStackFlashcardAsync` | Flashcards.Bkohler93/Database/DbContext.cs:168-182 | storage gets the insert; the cache then equals the fold of the new rows |
| `CacheStore.DbContext.UpdateStackFlashcardAsync` | Flashcards.Bkohler93/Database/DbContext.cs:184-201 | storage gets the update; the cache then equals the fold of the new rows |
| `CacheStore.DbContext.DeleteFlashcard` | Flashcards.Bkohler93/Database/DbContext.cs:203-216 | storage gets the delete; the cache then equals the fold of the new rows |
| `CacheStore.DbContext.CreateNewStudySession` | Flashcards.Bkohler93/Database/DbContext.cs:279-293 | storage gets the insert; the cache then equals the fold of the new rows |
| `CacheStore.DeleteThenLookup` | Flashcards.Bkohler93/Database/DbContext.cs:101-149 | if the database joins no row for the stack after the delete, a following `GetStackById` returns None |
| `CacheStore.RenameThenLookup` | Flashcards.Bkohler93/Database/DbContext.cs:86-149 | after `UpdateStackAsync` on a non-empty cache, `GetStackById` answers from the cache as it was before the rename |

Every read also ensures that a cache consistent with storage stays consistent. Every write except
`UpdateStackAsync` ensures that the cache equals `Build` of the post-write rows. Together these
mean that a read after such a write serves the written state.

## Left out

- SQL text, `SqlConnection` open and close, and Dapper's `QueryAsync`/`splitOn` column mapping are
  I/O and a foreign library. The join result is the `join` function of the storage state.
- The storage effects of INSERT, UPDATE and DELETE are not modelled: they belong to the database.
  This includes identity assignment through `SCOPE_IDENTITY()` and any cascade on delete. `exec` is
  an arbitrary function given to the store.
- The row order of the join is unspecified. Every fold property holds for every row sequence. `join` is a function, though, so the model fixes one row order per storage state; the query has no `ORDER BY`, so two rebuilds of the same state may order stacks and children differently. The fold properties hold for any order, but `Consistent()` (the cache equals the fold of the current rows) and the contracts stated with it rely on one state always giving the same rows, which the source does not guarantee as to order.
- `async`/`await` scheduling and concurrent callers are I/O scheduling, so everything is modelled
  sequentially. The source has no lock.
- Storage failures (exceptions from the connection or the query) are I/O and are not modelled. In
  the source, an exception ends `UpdateCache` before `_stackCache` is assigned, so the old cache
  would remain.
- `.Distinct()` at line 53 is a no-op, because each dictionary value is a distinct object.
  `Dictionary.Values` is taken to enumerate in insertion order, which holds for a dictionary
  without removals.
- The source's cached lists are shared by reference: `GetPlayStackById` returns the cached
  `Flashcards` list itself. The model uses values, so aliasing is not captured.
- The `Stack` back-navigation property of `Flashcard` (`Flashcard.cs:10`) is not read by the fold.
- `Stack.cs`, `StudySession.cs` and the DTO classes are not part of this model. The views copy
  only the fields that the source assigns. `GetFlashcardFromStackByIdAsync` does not set the DTO's
  `Id`, so there `FlashcardInfo.id` is None.
- The callback's `return stackEntry` (line 49) is unused by the caller.
- `ArgumentNullException.ThrowIfNull` (line 262) cannot fire after `First`.
- The null case of `IsNullOrEmpty` is left out: the field is initialised to `[]` and only ever
  assigned a built list.
- CacheStore.FlashcardFromStack: the "None exactly when" direction is stated only for well-formed
  caches (unique stack `Id`s). Every cache the store holds is well formed (`DbContext.Valid`).
