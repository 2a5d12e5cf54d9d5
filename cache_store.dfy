/**
 * The cache store of `DbContext`: the `_stackCache` field, its rebuild from
 * the join rows, the read operations that rebuild it lazily when it is
 * empty, and the write operations that rebuild it after their storage
 * statements (all but `UpdateStackAsync`).
 */
module CacheStore {
  import opened Wrappers
  import opened Entities
  import opened Keyed
  import opened GraphBuilder

  /** The relational store behind the connection string; it is seen only through `join` and `exec`. */
  type Storage

  /** The front and back of a flashcard to create with a new stack. */
  datatype NewFlashcard = NewFlashcard(front: string, back: string)

  /** The storage statements issued by the write operations, with their parameters. */
  datatype Statement =
    | InsertStack(name: string)  // followed by SELECT SCOPE_IDENTITY(), whose value is the result
    | InsertFlashcard(stackId: int, front: string, back: string)
    | UpdateStackName(id: int, name: string)
    | DeleteStack(id: int)
    | UpdateFlashcard(id: int, front: string, back: string)
    | DeleteFlashcardRow(id: int)
    | InsertStudySession(stackId: int, studyTime: StudyTime, score: Score)

  // The views handed to callers.

  datatype StackInfo = StackInfo(id: int, name: string)

  /** `id` is None where the source leaves the DTO's `Id` unset. */
  datatype FlashcardInfo = FlashcardInfo(id: Option<int>, front: string, back: string)

  datatype StudySessionInfo = StudySessionInfo(id: int, stackName: string, studyTime: StudyTime, score: Score)

  datatype PlayStack = PlayStack(id: int, name: string, flashcards: seq<Flashcard>)

  /** `First` finding no stack with the requested `Id`. */
  datatype Error = NotFound

  /** The cache after a read's emptiness check: rebuilt from `rows` exactly when it was empty. */
  function Lazy(cached: seq<Stack>, rows: seq<Row>): seq<Stack> {
    if |cached| == 0 then Build(rows) else cached
  }

  /** The storage after the flashcards of a new stack are inserted one by one, in order. */
  function InsertAll(exec: (Storage, Statement) -> (Storage, int), s: Storage, stackId: int, cards: seq<NewFlashcard>): Storage {
    if |cards| == 0 then s
    else
      var c := cards[|cards| - 1];
      exec(InsertAll(exec, s, stackId, cards[..|cards| - 1]), InsertFlashcard(stackId, c.front, c.back)).0
  }

  // ------------------------------------------------------------ projections

  /** `GetStackById`: the first cached stack with `Id == id`, as a view, or None. */
  function StackInfoById(stacks: seq<Stack>, id: int): (r: Option<StackInfo>)
    ensures r.None? <==> forall k :: 0 <= k < |stacks| ==> stacks[k].id != id
    ensures r.Some? ==> exists k :: 0 <= k < |stacks| && stacks[k].id == id && r.value == StackInfo(id, stacks[k].name)
  {
    match Lookup(stacks, id, StackKey)
    case None => None
    case Some(s) => Some(StackInfo(id, s.name))
  }

  /** `GetPlayStackById`: the first cached stack with `Id == id` and its flashcards, or NotFound. */
  function PlayStackById(stacks: seq<Stack>, id: int): (r: Result<PlayStack, Error>)
    ensures r.Failure? <==> forall k :: 0 <= k < |stacks| ==> stacks[k].id != id
    ensures r.Success? ==> exists k :: 0 <= k < |stacks| && stacks[k].id == id &&
                                      r.value == PlayStack(id, stacks[k].name, stacks[k].flashcards)
  {
    match Lookup(stacks, id, StackKey)
    case None => Failure(NotFound)
    case Some(s) => Success(PlayStack(s.id, s.name, s.flashcards))
  }

  /**
   * `GetFlashcardFromStackByIdAsync`: None when no cached stack has `Id ==
   * stackId` or that stack has no flashcard with `Id == flashcardId`;
   * otherwise that flashcard's front and back.
   */
  function FlashcardFromStack(stacks: seq<Stack>, stackId: int, flashcardId: int): (r: Option<FlashcardInfo>)
    ensures (forall k :: 0 <= k < |stacks| ==> stacks[k].id != stackId) ==> r.None?
    ensures r.Some? ==> exists k, m :: 0 <= k < |stacks| && 0 <= m < |stacks[k].flashcards| &&
                                       stacks[k].id == stackId && stacks[k].flashcards[m].id == flashcardId &&
                                       r.value == FlashcardInfo(None, stacks[k].flashcards[m].front, stacks[k].flashcards[m].back)
    ensures WellFormed(stacks) ==>
              (r.None? <==> forall k, m :: 0 <= k < |stacks| && 0 <= m < |stacks[k].flashcards| && stacks[k].id == stackId ==>
                                           stacks[k].flashcards[m].id != flashcardId)
  {
    match Lookup(stacks, stackId, StackKey)
    case None => None
    case Some(s) =>
      match Lookup(s.flashcards, flashcardId, FlashcardId)
      case None =>
        assert WellFormed(stacks) ==> forall k :: 0 <= k < |stacks| && stacks[k].id == stackId ==> stacks[k] == s;
        None
      case Some(f) => Some(FlashcardInfo(None, f.front, f.back))
  }

  /** `GetStacksInfosAsync`'s loop: the `Id` and `Name` of every stack, in cache order. */
  method StackInfos(stacks: seq<Stack>) returns (dtos: seq<StackInfo>)
    ensures |dtos| == |stacks|
    ensures forall k :: 0 <= k < |stacks| ==> dtos[k] == StackInfo(stacks[k].id, stacks[k].name)
  {
    dtos := [];
    for k := 0 to |stacks|
      invariant |dtos| == k
      invariant forall j :: 0 <= j < k ==> dtos[j] == StackInfo(stacks[j].id, stacks[j].name)
    {
      dtos := dtos + [StackInfo(stacks[k].id, stacks[k].name)];
    }
  }

  /** `GetStackFlashcards`'s loop: the `Id`, `Front` and `Back` of every flashcard, in order. */
  method FlashcardInfos(cards: seq<Flashcard>) returns (dtos: seq<FlashcardInfo>)
    ensures |dtos| == |cards|
    ensures forall m :: 0 <= m < |cards| ==> dtos[m] == FlashcardInfo(Some(cards[m].id), cards[m].front, cards[m].back)
  {
    dtos := [];
    for m := 0 to |cards|
      invariant |dtos| == m
      invariant forall j :: 0 <= j < m ==> dtos[j] == FlashcardInfo(Some(cards[j].id), cards[j].front, cards[j].back)
    {
      dtos := dtos + [FlashcardInfo(Some(cards[m].id), cards[m].front, cards[m].back)];
    }
  }

  /** A study session viewed with the name of its stack. */
  function SessionInfo(stackName: string, s: StudySession): StudySessionInfo {
    StudySessionInfo(s.id, stackName, s.studyTime, s.score)
  }

  /** The sessions of one stack, each tagged with the stack's name. */
  function Tagged(s: Stack): seq<StudySessionInfo> {
    seq(|s.studySessions|, j requires 0 <= j < |s.studySessions| => SessionInfo(s.name, s.studySessions[j]))
  }

  /** The concatenation, in cache order, of every stack's tagged sessions. */
  function SessionInfosOf(stacks: seq<Stack>): seq<StudySessionInfo> {
    if |stacks| == 0 then [] else SessionInfosOf(stacks[..|stacks| - 1]) + Tagged(stacks[|stacks| - 1])
  }

  /** The flattening holds exactly the sessions of the stacks, each tagged with its own stack's name. */
  lemma {:induction false} SessionInfosMembers(stacks: seq<Stack>, x: StudySessionInfo)
    ensures x in SessionInfosOf(stacks) <==>
      exists k, j :: 0 <= k < |stacks| && 0 <= j < |stacks[k].studySessions| && x == SessionInfo(stacks[k].name, stacks[k].studySessions[j])
  {
    if |stacks| > 0 {
      var p, s := stacks[..|stacks| - 1], stacks[|stacks| - 1];
      SessionInfosMembers(p, x);
      assert SessionInfosOf(stacks) == SessionInfosOf(p) + Tagged(s);
      if x in SessionInfosOf(p) {
        var k, j :| 0 <= k < |p| && 0 <= j < |p[k].studySessions| && x == SessionInfo(p[k].name, p[k].studySessions[j]);
        assert p[k] == stacks[k];
      }
      if x in Tagged(s) {
        var j :| 0 <= j < |Tagged(s)| && Tagged(s)[j] == x;
        assert x == SessionInfo(stacks[|stacks| - 1].name, stacks[|stacks| - 1].studySessions[j]);
      }
      if exists k, j :: 0 <= k < |stacks| && 0 <= j < |stacks[k].studySessions| && x == SessionInfo(stacks[k].name, stacks[k].studySessions[j]) {
        var k, j :| 0 <= k < |stacks| && 0 <= j < |stacks[k].studySessions| && x == SessionInfo(stacks[k].name, stacks[k].studySessions[j]);
        if k < |p| {
          assert p[k] == stacks[k];
        } else {
          assert Tagged(s)[j] == x;
        }
      }
    }
  }

  /** `GetStudySessions`'s nested loop. */
  method SessionInfos(stacks: seq<Stack>) returns (dtos: seq<StudySessionInfo>)
    ensures dtos == SessionInfosOf(stacks)
  {
    dtos := [];
    for k := 0 to |stacks|
      invariant dtos == SessionInfosOf(stacks[..k])
    {
      var s := stacks[k];
      for j := 0 to |s.studySessions|
        invariant dtos == SessionInfosOf(stacks[..k]) + Tagged(s)[..j]
      {
        assert Tagged(s)[..j + 1] == Tagged(s)[..j] + [SessionInfo(s.name, s.studySessions[j])];
        dtos := dtos + [SessionInfo(s.name, s.studySessions[j])];
      }
      assert stacks[..k + 1][..k] == stacks[..k];
      assert Tagged(s)[..|s.studySessions|] == Tagged(s);
    }
    assert stacks[..|stacks|] == stacks;
  }

  /** A stack whose `Id` occurs on no join row is absent from the built cache. */
  lemma DeletedStackNotFound(rows: seq<Row>, id: int)
    requires forall i :: 0 <= i < |rows| ==> rows[i].stack.id != id
    ensures StackInfoById(Build(rows), id).None?
  {
    BuildStacks(rows);
    KeySetHasKey(Build(rows), id, StackKey);
  }

  // ------------------------------------------------------------ the store

  /** The mirror of the dictionary filled by the rebuild: its keys in insertion order and its entries. */
  ghost predicate Mirrors(order: seq<int>, entries: map<int, Stack>, acc: seq<Stack>) {
    && |order| == |acc|
    && (forall k :: 0 <= k < |acc| ==> order[k] == acc[k].id && order[k] in entries && entries[order[k]] == acc[k])
    && (forall id :: id in entries ==> HasKey(acc, id, StackKey))
  }

  /** One row processed by the rebuild keeps the dictionary mirroring the fold. */
  lemma MirrorsStep(order: seq<int>, entries: map<int, Stack>, acc: seq<Stack>, row: Row,
                    order': seq<int>, entries': map<int, Stack>)
    requires Mirrors(order, entries, acc) && DistinctKeys(acc, StackKey)
    requires row.stack.id in entries ==>
               order' == order && entries' == entries[row.stack.id := Absorb(entries[row.stack.id], row)]
    requires row.stack.id !in entries ==>
               order' == order + [row.stack.id] && entries' == entries[row.stack.id := Absorb(NewEntry(row.stack), row)]
    ensures Mirrors(order', entries', Step(acc, row))
  {
    var id := row.stack.id;
    var k := IndexOfKey(acc, id, StackKey);
    if id in entries {
      assert HasKey(acc, id, StackKey);
      assert k < |acc|;
      assert forall j :: 0 <= j < |acc| && j != k ==> StackKey(acc[j]) != StackKey(acc[k]);
    } else {
      var acc' := Step(acc, row);
      assert acc' == acc + [Absorb(NewEntry(row.stack), row)];
      forall id' | id' in entries' ensures HasKey(acc', id', StackKey) {
        if id' == id {
          assert StackKey(acc'[|acc|]) == id;
        } else {
          var j :| 0 <= j < |acc| && StackKey(acc[j]) == id';
          assert acc'[j] == acc[j];
        }
      }
    }
  }

  lemma BuildPrefix(rows: seq<Row>, i: nat)
    requires i < |rows|
    ensures Build(rows[..i + 1]) == Step(Build(rows[..i]), rows[i])
  {
    assert rows[..i + 1][..i] == rows[..i];
  }

  class DbContext {
    /** The left-join query, as the store answers it for a given state (row order is the store's). */
    const join: Storage -> seq<Row>
    /** The store's effect of a statement, with the scalar it selects (the new identity for InsertStack). */
    const exec: (Storage, Statement) -> (Storage, int)
    /** The current contents of the store. */
    var storage: Storage
    /** `_stackCache`. */
    var cache: seq<Stack>

    /** The cache invariant: unique stack `Id`s, and unique child `Id`s within each stack. */
    ghost predicate Valid()
      reads this
    {
      WellFormed(cache)
    }

    /** The cache equals the graph built from the store's current rows. */
    ghost predicate Consistent()
      reads this
    {
      cache == Build(join(storage))
    }

    constructor (storage: Storage, join: Storage -> seq<Row>, exec: (Storage, Statement) -> (Storage, int))
      ensures Valid() && cache == []
      ensures this.storage == storage && this.join == join && this.exec == exec
    {
      this.join := join;
      this.exec := exec;
      this.storage := storage;
      cache := [];
    }

    /** `UpdateCache`: fold the join rows into a dictionary keyed by stack `Id`, then replace the cache. */
    method UpdateCache()
      modifies this`cache
      ensures Valid() && Consistent()
    {
      var rows := join(storage);
      var order: seq<int> := [];
      var entries: map<int, Stack> := map[];
      for i := 0 to |rows|
        invariant Mirrors(order, entries, Build(rows[..i]))
      {
        ghost var acc := Build(rows[..i]);
        BuildWellFormed(rows[..i]);
        BuildPrefix(rows, i);
        var row := rows[i];
        var entry: Stack;
        ghost var order0, entries0 := order, entries;
        if row.stack.id in entries {
          entry := entries[row.stack.id];
        } else {
          entry := Stack(row.stack.id, row.stack.name, [], []);
          order := order + [entry.id];
        }
        ghost var base := entry;
        if row.flashcard.Some? && !HasKey(entry.flashcards, row.flashcard.value.id, FlashcardId) {
          entry := entry.(flashcards := entry.flashcards + [row.flashcard.value]);
        }
        if row.session.Some? && !HasKey(entry.studySessions, row.session.value.id, SessionId) {
          entry := entry.(studySessions := entry.studySessions + [row.session.value]);
        }
        assert entry == Absorb(base, row);
        entries := entries[row.stack.id := entry];
        MirrorsStep(order0, entries0, acc, row, order, entries);
      }
      assert rows[..|rows|] == rows;
      cache := seq(|order|, k requires 0 <= k < |order| && order[k] in entries => entries[order[k]]);
      BuildWellFormed(rows);
    }

    /** `EnsureCache`: rebuild exactly when the cache is empty. */
    method EnsureCache()
      requires Valid()
      modifies this`cache
      ensures Valid() && cache == Lazy(old(cache), join(storage))
      ensures old(Consistent()) ==> Consistent()
    {
      if |cache| == 0 {
        UpdateCache();
      }
    }

    // Read operations. Each rebuilds only when the cache is empty, so a
    // cache that is still empty after the rebuild is rebuilt again on the
    // next read, and a consistent cache stays consistent.

    /** `GetStacksInfosAsync`. */
    method GetStacksInfosAsync() returns (dtos: seq<StackInfo>)
      requires Valid()
      modifies this`cache
      ensures Valid() && cache == Lazy(old(cache), join(storage))
      ensures old(Consistent()) ==> Consistent()
      ensures |dtos| == |cache|
      ensures forall k :: 0 <= k < |cache| ==> dtos[k] == StackInfo(cache[k].id, cache[k].name)
    {
      if |cache| == 0 {
        UpdateCache();
      }
      dtos := StackInfos(cache);
    }

    /** `GetStackById`. */
    method GetStackById(id: int) returns (r: Option<StackInfo>)
      requires Valid()
      modifies this`cache
      ensures Valid() && cache == Lazy(old(cache), join(storage))
      ensures old(Consistent()) ==> Consistent()
      ensures r == StackInfoById(cache, id)
    {
      if |cache| == 0 {
        UpdateCache();
      }
      r := StackInfoById(cache, id);
    }

    /** `GetPlayStackById`; `First` failing becomes NotFound. */
    method GetPlayStackById(id: int) returns (r: Result<PlayStack, Error>)
      requires Valid()
      modifies this`cache
      ensures Valid() && cache == Lazy(old(cache), join(storage))
      ensures old(Consistent()) ==> Consistent()
      ensures r == PlayStackById(cache, id)
    {
      if |cache| == 0 {
        UpdateCache();
      }
      r := PlayStackById(cache, id);
    }

    /** `GetFlashcardFromStackByIdAsync`. */
    method GetFlashcardFromStackByIdAsync(stackId: int, flashcardId: int) returns (r: Option<FlashcardInfo>)
      requires Valid()
      modifies this`cache
      ensures Valid() && cache == Lazy(old(cache), join(storage))
      ensures old(Consistent()) ==> Consistent()
      ensures r == FlashcardFromStack(cache, stackId, flashcardId)
    {
      EnsureCache();
      r := FlashcardFromStack(cache, stackId, flashcardId);
    }

    /** `GetStackFlashcards`; `First` failing becomes NotFound. */
    method GetStackFlashcards(stackId: int) returns (r: Result<seq<FlashcardInfo>, Error>)
      requires Valid()
      modifies this`cache
      ensures Valid() && cache == Lazy(old(cache), join(storage))
      ensures old(Consistent()) ==> Consistent()
      ensures r.Failure? <==> forall k :: 0 <= k < |cache| ==> cache[k].id != stackId
      ensures r.Success? ==> exists k :: 0 <= k < |cache| && cache[k].id == stackId &&
                                         |r.value| == |cache[k].flashcards| &&
                                         forall m :: 0 <= m < |r.value| ==>
                                           r.value[m] == FlashcardInfo(Some(cache[k].flashcards[m].id), cache[k].flashcards[m].front, cache[k].flashcards[m].back)
    {
      if |cache| == 0 {
        UpdateCache();
      }
      var found := Lookup(cache, stackId, StackKey);
      if found.None? {
        return Failure(NotFound);
      }
      var dtos := FlashcardInfos(found.value.flashcards);
      r := Success(dtos);
    }

    /** `GetStudySessions`. */
    method GetStudySessions() returns (dtos: seq<StudySessionInfo>)
      requires Valid()
      modifies this`cache
      ensures Valid() && cache == Lazy(old(cache), join(storage))
      ensures old(Consistent()) ==> Consistent()
      ensures dtos == SessionInfosOf(cache)
    {
      if |cache| == 0 {
        UpdateCache();
      }
      dtos := SessionInfos(cache);
    }

    // Write operations: one storage statement (or the stack-plus-flashcards
    // group), then a rebuild, except in UpdateStackAsync.

    /** `CreateStackAsync`: insert the stack, read its identity, insert its flashcards in order, rebuild. */
    method CreateStackAsync(name: string, cards: seq<NewFlashcard>)
      modifies this
      ensures Valid() && Consistent()
      ensures storage == InsertAll(exec, exec(old(storage), InsertStack(name)).0, exec(old(storage), InsertStack(name)).1, cards)
    {
      var inserted := exec(storage, InsertStack(name));
      storage := inserted.0;
      var stackId := inserted.1;
      for i := 0 to |cards|
        invariant storage == InsertAll(exec, inserted.0, stackId, cards[..i])
      {
        assert cards[..i + 1][..i] == cards[..i];
        storage := exec(storage, InsertFlashcard(stackId, cards[i].front, cards[i].back)).0;
      }
      assert cards[..|cards|] == cards;
      UpdateCache();
    }

    /** `UpdateStackAsync`: renames the stack in storage and, as written, does not rebuild the cache. */
    method UpdateStackAsync(id: int, name: string)
      modifies this`storage
      ensures storage == exec(old(storage), UpdateStackName(id, name)).0
      ensures cache == old(cache)
      ensures old(Valid()) ==> Valid()
    {
      storage := exec(storage, UpdateStackName(id, name)).0;
    }

    /** `DeleteStackAsync`. */
    method DeleteStackAsync(id: int)
      modifies this
      ensures Valid() && Consistent()
      ensures storage == exec(old(storage), DeleteStack(id)).0
    {
      storage := exec(storage, DeleteStack(id)).0;
      UpdateCache();
    }

    /** `CreateStackFlashcardAsync`. */
    method CreateStackFlashcardAsync(stackId: int, front: string, back: string)
      modifies this
      ensures Valid() && Consistent()
      ensures storage == exec(old(storage), InsertFlashcard(stackId, front, back)).0
    {
      storage := exec(storage, InsertFlashcard(stackId, front, back)).0;
      UpdateCache();
    }

    /** `UpdateStackFlashcardAsync`. */
    method UpdateStackFlashcardAsync(id: int, front: string, back: string)
      modifies this
      ensures Valid() && Consistent()
      ensures storage == exec(old(storage), UpdateFlashcard(id, front, back)).0
    {
      storage := exec(storage, UpdateFlashcard(id, front, back)).0;
      UpdateCache();
    }

    /** `DeleteFlashcard`. */
    method DeleteFlashcard(id: int)
      modifies this
      ensures Valid() && Consistent()
      ensures storage == exec(old(storage), DeleteFlashcardRow(id)).0
    {
      storage := exec(storage, DeleteFlashcardRow(id)).0;
      UpdateCache();
    }

    /** `CreateNewStudySession`. */
    method CreateNewStudySession(stackId: int, studyTime: StudyTime, score: Score)
      modifies this
      ensures Valid() && Consistent()
      ensures storage == exec(old(storage), InsertStudySession(stackId, studyTime, score)).0
    {
      storage := exec(storage, InsertStudySession(stackId, studyTime, score)).0;
      UpdateCache();
    }
  }

  // ------------------------------------------------------------ clients

  /**
   * Read-your-write for deletion: when the store no longer joins any row for
   * stack `id` after the delete, the next lookup of `id` finds nothing.
   */
  method DeleteThenLookup(db: DbContext, id: int) returns (r: Option<StackInfo>)
    requires forall i :: 0 <= i < |db.join(db.exec(db.storage, DeleteStack(id)).0)| ==>
               db.join(db.exec(db.storage, DeleteStack(id)).0)[i].stack.id != id
    modifies db
    ensures r.None?
  {
    db.DeleteStackAsync(id);
    r := db.GetStackById(id);
    DeletedStackNotFound(db.join(db.storage), id);
  }

  /**
   * The missing rebuild in `UpdateStackAsync`: after a rename, a lookup on a
   * non-empty cache still answers from the cache as it was before the rename.
   */
  method RenameThenLookup(db: DbContext, id: int, name: string) returns (r: Option<StackInfo>)
    requires db.Valid() && |db.cache| > 0
    modifies db
    ensures r == StackInfoById(old(db.cache), id)
  {
    db.UpdateStackAsync(id, name);
    r := db.GetStackById(id);
  }
}
