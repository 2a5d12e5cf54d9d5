/**
 * The cache construction of `DbContext.UpdateCache`: the flat rows of the
 * left join `Stacks ⟕ Flashcards ⟕ StudySessions` folded into one stack
 * aggregate per stack `Id`, each with its flashcards and study sessions
 * de-duplicated by `Id`.
 */
module GraphBuilder {
  import opened Wrappers
  import opened Entities
  import opened Keyed

  /** One join row: a stack and, where the join found one, a flashcard and a study session. */
  datatype Row = Row(stack: StackPart, flashcard: Option<Flashcard>, session: Option<StudySession>)

  // ---------------------------------------------------------------- the fold

  /** Appends the row's child unless it is null or a child with the same `Id` is already there. */
  function AddChild<C>(cs: seq<C>, c: Option<C>, key: C -> int): seq<C> {
    if c.Some? then AddIfAbsent(cs, c.value, key) else cs
  }

  /** The per-row callback applied to the stack entry for the row's stack `Id`. */
  function Absorb(s: Stack, r: Row): Stack {
    s.(flashcards := AddChild(s.flashcards, r.flashcard, FlashcardId),
       studySessions := AddChild(s.studySessions, r.session, SessionId))
  }

  /** A new entry made from the row's stack columns, with both collections empty. */
  function NewEntry(p: StackPart): Stack {
    Stack(p.id, p.name, [], [])
  }

  /**
   * One row folded into the entries built so far, kept in the order the
   * dictionary enumerates its values (insertion order).
   */
  function Step(acc: seq<Stack>, r: Row): seq<Stack> {
    var k := IndexOfKey(acc, r.stack.id, StackKey);
    if k < |acc| then acc[k := Absorb(acc[k], r)]
    else acc + [Absorb(NewEntry(r.stack), r)]
  }

  /** The graph built from `rows`, folded from the first row to the last. */
  function Build(rows: seq<Row>): seq<Stack> {
    if |rows| == 0 then [] else Step(Build(rows[..|rows| - 1]), rows[|rows| - 1])
  }

  // ------------------------------------------------- the reference definition

  /** The stack columns of every row, in row order. */
  function StackParts(rows: seq<Row>): seq<StackPart> {
    if |rows| == 0 then [] else StackParts(rows[..|rows| - 1]) + [rows[|rows| - 1].stack]
  }

  /** The non-null flashcards of the rows for stack `id`, in row order (duplicates included). */
  function FlashcardsOf(rows: seq<Row>, id: int): seq<Flashcard> {
    if |rows| == 0 then []
    else
      var r := rows[|rows| - 1];
      FlashcardsOf(rows[..|rows| - 1], id) + if r.stack.id == id && r.flashcard.Some? then [r.flashcard.value] else []
  }

  /** The non-null study sessions of the rows for stack `id`, in row order (duplicates included). */
  function SessionsOf(rows: seq<Row>, id: int): seq<StudySession> {
    if |rows| == 0 then []
    else
      var r := rows[|rows| - 1];
      SessionsOf(rows[..|rows| - 1], id) + if r.stack.id == id && r.session.Some? then [r.session.value] else []
  }

  /** All stack `Id`s that occur in `rows`. */
  ghost function StackIdsOf(rows: seq<Row>): set<int> {
    set i | 0 <= i < |rows| :: rows[i].stack.id
  }

  /** All non-null flashcard `Id`s on rows with stack `id`. */
  ghost function FlashcardIdsOf(rows: seq<Row>, id: int): set<int> {
    set i | 0 <= i < |rows| && rows[i].stack.id == id && rows[i].flashcard.Some? :: rows[i].flashcard.value.id
  }

  /** All non-null study session `Id`s on rows with stack `id`. */
  ghost function SessionIdsOf(rows: seq<Row>, id: int): set<int> {
    set i | 0 <= i < |rows| && rows[i].stack.id == id && rows[i].session.Some? :: rows[i].session.value.id
  }

  /** The aggregate for the stack columns `p`: its children grouped from all rows and de-duplicated. */
  function Group(rows: seq<Row>, p: StackPart): Stack {
    Stack(p.id, p.name, Dedup(FlashcardsOf(rows, p.id), FlashcardId), Dedup(SessionsOf(rows, p.id), SessionId))
  }

  /** The aggregates for the stack columns `heads`, in that order. */
  function Groups(rows: seq<Row>, heads: seq<StackPart>): seq<Stack> {
    seq(|heads|, k requires 0 <= k < |heads| => Group(rows, heads[k]))
  }

  /** Group-by-stack, then de-duplicate: the graph described without a fold. */
  function Assemble(rows: seq<Row>): seq<Stack> {
    Groups(rows, Dedup(StackParts(rows), PartId))
  }

  /** The stack columns of each built aggregate. */
  function Heads(stacks: seq<Stack>): seq<StackPart> {
    seq(|stacks|, k requires 0 <= k < |stacks| => StackPart(stacks[k].id, stacks[k].name))
  }

  /** Stack `Id`s are pairwise distinct, and so are the child `Id`s within each stack. */
  ghost predicate WellFormed(stacks: seq<Stack>) {
    && DistinctKeys(stacks, StackKey)
    && forall k :: 0 <= k < |stacks| ==>
         DistinctKeys(stacks[k].flashcards, FlashcardId) && DistinctKeys(stacks[k].studySessions, SessionId)
  }

  // ------------------------------------------------------------ helper facts

  lemma {:induction false} StackPartsAt(rows: seq<Row>)
    ensures |StackParts(rows)| == |rows|
    ensures forall i :: 0 <= i < |rows| ==> StackParts(rows)[i] == rows[i].stack
  {
    if |rows| > 0 {
      StackPartsAt(rows[..|rows| - 1]);
    }
  }

  lemma {:induction false} StackPartsKeys(rows: seq<Row>)
    ensures KeySet(StackParts(rows), PartId) == StackIdsOf(rows)
  {
    StackPartsAt(rows);
  }

  lemma SnocPrefix(rows: seq<Row>, r: Row)
    ensures (rows + [r])[..|rows|] == rows && (rows + [r])[|rows|] == r
  {
  }

  lemma {:induction false} ChildrenSnoc(rows: seq<Row>, r: Row, id: int)
    ensures FlashcardsOf(rows + [r], id) ==
      FlashcardsOf(rows, id) + if r.stack.id == id && r.flashcard.Some? then [r.flashcard.value] else []
    ensures SessionsOf(rows + [r], id) ==
      SessionsOf(rows, id) + if r.stack.id == id && r.session.Some? then [r.session.value] else []
    ensures StackParts(rows + [r]) == StackParts(rows) + [r.stack]
  {
    SnocPrefix(rows, r);
  }

  /** A stack `Id` that occurs on no row has no children. */
  lemma {:induction false} ChildrenOfAbsent(rows: seq<Row>, id: int)
    requires id !in StackIdsOf(rows)
    ensures FlashcardsOf(rows, id) == [] && SessionsOf(rows, id) == []
  {
    if |rows| > 0 {
      var p := rows[..|rows| - 1];
      assert StackIdsOf(p) <= StackIdsOf(rows) by {
        forall i | 0 <= i < |p| ensures p[i].stack.id in StackIdsOf(rows) {
          assert p[i] == rows[i];
        }
      }
      ChildrenOfAbsent(p, id);
      assert rows[|rows| - 1].stack.id in StackIdsOf(rows);
    }
  }

  lemma {:induction false} FlashcardKeys(rows: seq<Row>, id: int)
    ensures KeySet(FlashcardsOf(rows, id), FlashcardId) == FlashcardIdsOf(rows, id)
  {
    if |rows| > 0 {
      var p, r := rows[..|rows| - 1], rows[|rows| - 1];
      FlashcardKeys(p, id);
      SnocPrefix(p, r);
      assert rows == p + [r];
      var extra := if r.stack.id == id && r.flashcard.Some? then {r.flashcard.value.id} else {};
      assert FlashcardIdsOf(rows, id) == FlashcardIdsOf(p, id) + extra;
      if r.stack.id == id && r.flashcard.Some? {
        KeySetSnoc(FlashcardsOf(p, id), r.flashcard.value, FlashcardId);
      } else {
        assert FlashcardsOf(rows, id) == FlashcardsOf(p, id);
      }
    }
  }

  lemma {:induction false} SessionKeys(rows: seq<Row>, id: int)
    ensures KeySet(SessionsOf(rows, id), SessionId) == SessionIdsOf(rows, id)
  {
    if |rows| > 0 {
      var p, r := rows[..|rows| - 1], rows[|rows| - 1];
      SessionKeys(p, id);
      SnocPrefix(p, r);
      assert rows == p + [r];
      var extra := if r.stack.id == id && r.session.Some? then {r.session.value.id} else {};
      assert SessionIdsOf(rows, id) == SessionIdsOf(p, id) + extra;
      if r.stack.id == id && r.session.Some? {
        KeySetSnoc(SessionsOf(p, id), r.session.value, SessionId);
      } else {
        assert SessionsOf(rows, id) == SessionsOf(p, id);
      }
    }
  }

  /** Adding one row changes the children of its own stack only, by `AddChild`. */
  lemma {:induction false} GroupSnoc(rows: seq<Row>, r: Row, p: StackPart)
    ensures Group(rows + [r], p) ==
      if p.id == r.stack.id then Absorb(Group(rows, p), r) else Group(rows, p)
  {
    ChildrenSnoc(rows, r, p.id);
    if p.id == r.stack.id {
      if r.flashcard.Some? {
        DedupSnoc(FlashcardsOf(rows, p.id), r.flashcard.value, FlashcardId);
      } else {
        assert FlashcardsOf(rows, p.id) + [] == FlashcardsOf(rows, p.id);
      }
      if r.session.Some? {
        DedupSnoc(SessionsOf(rows, p.id), r.session.value, SessionId);
      } else {
        assert SessionsOf(rows, p.id) + [] == SessionsOf(rows, p.id);
      }
    } else {
      assert FlashcardsOf(rows, p.id) + [] == FlashcardsOf(rows, p.id);
      assert SessionsOf(rows, p.id) + [] == SessionsOf(rows, p.id);
    }
  }

  lemma StepAt(acc: seq<Stack>, r: Row, h: nat)
    requires h <= |acc|
    requires h < |acc| ==> acc[h].id == r.stack.id
    requires forall j :: 0 <= j < h ==> StackKey(acc[j]) != r.stack.id
    ensures Step(acc, r) == if h < |acc| then acc[h := Absorb(acc[h], r)] else acc + [Absorb(NewEntry(r.stack), r)]
  {
    IndexOfKeyUnique(acc, r.stack.id, StackKey, h);
  }

  lemma SeqUpdate<T>(xs: seq<T>, ys: seq<T>, h: nat, v: T)
    requires |xs| == |ys| && h < |xs| && ys[h] == v
    requires forall j :: 0 <= j < |xs| && j != h ==> ys[j] == xs[j]
    ensures ys == xs[h := v]
  {
  }

  /** A row for the stack at position `h` of `heads` changes that aggregate only. */
  lemma GroupsUpdate(p: seq<Row>, r: Row, heads: seq<StackPart>, h: nat)
    requires h < |heads| && heads[h].id == r.stack.id
    requires forall j :: 0 <= j < |heads| && j != h ==> PartId(heads[j]) != r.stack.id
    ensures Groups(p + [r], heads) == Groups(p, heads)[h := Absorb(Groups(p, heads)[h], r)]
  {
    var xs, ys := Groups(p, heads), Groups(p + [r], heads);
    forall j | 0 <= j < |heads| ensures ys[j] == if j == h then Absorb(xs[h], r) else xs[j] {
      GroupSnoc(p, r, heads[j]);
    }
    SeqUpdate(xs, ys, h, Absorb(xs[h], r));
  }

  /** A row for a stack not among `heads` leaves their aggregates alone. */
  lemma GroupsAppend(p: seq<Row>, r: Row, heads: seq<StackPart>)
    requires forall j :: 0 <= j < |heads| ==> PartId(heads[j]) != r.stack.id
    ensures Groups(p + [r], heads + [r.stack]) == Groups(p, heads) + [Group(p + [r], r.stack)]
  {
    var xs, ys := Groups(p, heads), Groups(p + [r], heads + [r.stack]);
    forall j | 0 <= j < |heads| ensures ys[j] == xs[j] {
      GroupSnoc(p, r, heads[j]);
    }
    assert ys == xs + [Group(p + [r], r.stack)];
  }

  /** A row for a stack already present updates that stack's entry in place. */
  lemma {:induction false} AssembleSnocPresent(p: seq<Row>, r: Row)
    requires HasKey(Dedup(StackParts(p), PartId), r.stack.id, PartId)
    ensures Assemble(p + [r]) == Step(Assemble(p), r)
  {
    var id := r.stack.id;
    var heads := Dedup(StackParts(p), PartId);
    ChildrenSnoc(p, r, id);
    DedupSnoc(StackParts(p), r.stack, PartId);
    assert Assemble(p + [r]) == Groups(p + [r], heads);
    var h :| 0 <= h < |heads| && PartId(heads[h]) == id;
    DedupDistinct(StackParts(p), PartId);
    assert forall j :: 0 <= j < |heads| && j != h ==> PartId(heads[j]) != PartId(heads[h]);
    GroupsUpdate(p, r, heads, h);
    var acc := Groups(p, heads);
    assert forall j :: 0 <= j < |acc| ==> StackKey(acc[j]) == PartId(heads[j]);
    StepAt(acc, r, h);
  }

  /** A row for a new stack appends a fresh entry. */
  lemma {:induction false} AssembleSnocAbsent(p: seq<Row>, r: Row)
    requires !HasKey(Dedup(StackParts(p), PartId), r.stack.id, PartId)
    ensures Assemble(p + [r]) == Step(Assemble(p), r)
  {
    var id := r.stack.id;
    var heads := Dedup(StackParts(p), PartId);
    ChildrenSnoc(p, r, id);
    DedupSnoc(StackParts(p), r.stack, PartId);
    assert Assemble(p + [r]) == Groups(p + [r], heads + [r.stack]);
    GroupsAppend(p, r, heads);
    var acc := Groups(p, heads);
    assert forall j :: 0 <= j < |acc| ==> StackKey(acc[j]) == PartId(heads[j]);
    StepAt(acc, r, |acc|);
    KeySetHasKey(heads, id, PartId);
    KeySetHasKey(StackParts(p), id, PartId);
    DedupKeys(StackParts(p), PartId);
    StackPartsKeys(p);
    ChildrenOfAbsent(p, id);
    GroupSnoc(p, r, r.stack);
    assert Group(p + [r], r.stack) == Absorb(NewEntry(r.stack), r);
  }

  // ------------------------------------------------------------ the theorems

  /** The fold computes the reference definition: group by stack, then de-duplicate. */
  lemma {:induction false} BuildIsAssemble(rows: seq<Row>)
    ensures Build(rows) == Assemble(rows)
  {
    if |rows| > 0 {
      var p, r := rows[..|rows| - 1], rows[|rows| - 1];
      assert rows == p + [r];
      BuildIsAssemble(p);
      if HasKey(Dedup(StackParts(p), PartId), r.stack.id, PartId) {
        AssembleSnocPresent(p, r);
      } else {
        AssembleSnocAbsent(p, r);
      }
    }
  }

  /**
   * Exactly one aggregate per distinct stack `Id` in the rows, in the order
   * the `Id`s are first seen, each named after the first row carrying its `Id`.
   */
  lemma {:induction false} BuildStacks(rows: seq<Row>)
    ensures FirstSeen(Heads(Build(rows)), StackParts(rows), PartId)
    ensures KeySet(Build(rows), StackKey) == StackIdsOf(rows)
    ensures |Build(rows)| == |StackIdsOf(rows)|
  {
    BuildIsAssemble(rows);
    var heads := Dedup(StackParts(rows), PartId);
    DedupFirstSeen(StackParts(rows), PartId);
    assert Heads(Build(rows)) == heads;
    StackPartsKeys(rows);
    assert KeySet(Build(rows), StackKey) == KeySet(heads, PartId);
    DistinctKeysLength(heads, PartId);
  }

  /**
   * Within each built stack the flashcards have distinct `Id`s, one for each
   * non-null flashcard `Id` on that stack's rows, each the first flashcard
   * seen with that `Id`, in first-seen order.
   */
  lemma {:induction false} BuildFlashcards(rows: seq<Row>, k: nat)
    requires k < |Build(rows)|
    ensures FirstSeen(Build(rows)[k].flashcards, FlashcardsOf(rows, Build(rows)[k].id), FlashcardId)
    ensures KeySet(Build(rows)[k].flashcards, FlashcardId) == FlashcardIdsOf(rows, Build(rows)[k].id)
    ensures |Build(rows)[k].flashcards| == |FlashcardIdsOf(rows, Build(rows)[k].id)|
  {
    BuildIsAssemble(rows);
    var s := Build(rows)[k];
    DedupFirstSeen(FlashcardsOf(rows, s.id), FlashcardId);
    FlashcardKeys(rows, s.id);
    DistinctKeysLength(s.flashcards, FlashcardId);
  }

  /** The same distinctness, coverage and first-seen order for study sessions. */
  lemma {:induction false} BuildSessions(rows: seq<Row>, k: nat)
    requires k < |Build(rows)|
    ensures FirstSeen(Build(rows)[k].studySessions, SessionsOf(rows, Build(rows)[k].id), SessionId)
    ensures KeySet(Build(rows)[k].studySessions, SessionId) == SessionIdsOf(rows, Build(rows)[k].id)
    ensures |Build(rows)[k].studySessions| == |SessionIdsOf(rows, Build(rows)[k].id)|
  {
    BuildIsAssemble(rows);
    var s := Build(rows)[k];
    DedupFirstSeen(SessionsOf(rows, s.id), SessionId);
    SessionKeys(rows, s.id);
    DistinctKeysLength(s.studySessions, SessionId);
  }

  /** A stack whose rows carry neither a flashcard nor a study session gets two empty collections. */
  lemma {:induction false} BuildChildless(rows: seq<Row>, k: nat)
    requires k < |Build(rows)|
    requires forall i :: 0 <= i < |rows| && rows[i].stack.id == Build(rows)[k].id ==>
               rows[i].flashcard.None? && rows[i].session.None?
    ensures Build(rows)[k].flashcards == [] && Build(rows)[k].studySessions == []
  {
    BuildFlashcards(rows, k);
    BuildSessions(rows, k);
    var s := Build(rows)[k];
    assert FlashcardIdsOf(rows, s.id) == {};
    assert SessionIdsOf(rows, s.id) == {};
  }

  /** Every built graph satisfies the cache invariant. */
  lemma {:induction false} BuildWellFormed(rows: seq<Row>)
    ensures WellFormed(Build(rows))
  {
    BuildStacks(rows);
    var out := Build(rows);
    assert forall i :: 0 <= i < |out| ==> Heads(out)[i].id == out[i].id;
    forall k | 0 <= k < |out|
      ensures DistinctKeys(out[k].flashcards, FlashcardId) && DistinctKeys(out[k].studySessions, SessionId)
    {
      BuildFlashcards(rows, k);
      BuildSessions(rows, k);
    }
  }

  /** The graph is empty exactly when the join returned no rows. */
  lemma {:induction false} BuildEmpty(rows: seq<Row>)
    ensures Build(rows) == [] <==> |rows| == 0
  {
    BuildStacks(rows);
    if |rows| > 0 {
      assert rows[0].stack.id in StackIdsOf(rows);
    }
  }

  /**
   * A row adds nothing new to `rows` when its stack `Id`, and the `Id`s of
   * its non-null flashcard and study session, already occur on that stack's rows.
   */
  ghost predicate Known(rows: seq<Row>, r: Row) {
    && r.stack.id in StackIdsOf(rows)
    && (r.flashcard.Some? ==> r.flashcard.value.id in FlashcardIdsOf(rows, r.stack.id))
    && (r.session.Some? ==> r.session.value.id in SessionIdsOf(rows, r.stack.id))
  }

  /** Fan-out invariance: a row that adds no new `Id` leaves the graph unchanged. */
  lemma {:induction false} FanOutKnown(rows: seq<Row>, r: Row)
    requires Known(rows, r)
    ensures Build(rows + [r]) == Build(rows)
  {
    var rows' := rows + [r];
    BuildIsAssemble(rows);
    BuildIsAssemble(rows');
    StackPartsAt(rows);
    ChildrenSnoc(rows, r, r.stack.id);
    StackPartsKeys(rows);
    KeySetHasKey(StackParts(rows), r.stack.id, PartId);
    DedupAbsorbs(StackParts(rows), r.stack, PartId);
    var heads := Dedup(StackParts(rows), PartId);
    assert Assemble(rows') == Groups(rows', heads);
    forall j | 0 <= j < |heads| ensures Group(rows', heads[j]) == Group(rows, heads[j]) {
      var id := heads[j].id;
      GroupSnoc(rows, r, heads[j]);
      if id == r.stack.id {
        if r.flashcard.Some? {
          FlashcardKeys(rows, id);
          KeySetHasKey(FlashcardsOf(rows, id), r.flashcard.value.id, FlashcardId);
          DedupAbsorbs(FlashcardsOf(rows, id), r.flashcard.value, FlashcardId);
        }
        if r.session.Some? {
          SessionKeys(rows, id);
          KeySetHasKey(SessionsOf(rows, id), r.session.value.id, SessionId);
          DedupAbsorbs(SessionsOf(rows, id), r.session.value, SessionId);
        }
      }
    }
    assert Groups(rows', heads) == Groups(rows, heads);
  }

  /** Re-processing a row already folded leaves the graph unchanged. */
  lemma {:induction false} FanOutRow(rows: seq<Row>, r: Row)
    requires r in rows
    ensures Build(rows + [r]) == Build(rows)
  {
    var i :| 0 <= i < |rows| && rows[i] == r;
    assert r.stack.id in StackIdsOf(rows);
    assert r.flashcard.Some? ==> r.flashcard.value.id in FlashcardIdsOf(rows, r.stack.id);
    assert r.session.Some? ==> r.session.value.id in SessionIdsOf(rows, r.stack.id);
    FanOutKnown(rows, r);
  }

  /** A row that adds no new `Id` may be dropped wherever later rows follow it. */
  lemma {:induction false} FanOutInside(p: seq<Row>, r: Row, q: seq<Row>)
    requires Known(p, r)
    ensures Build(p + [r] + q) == Build(p + q)
  {
    if |q| == 0 {
      assert p + [r] + q == p + [r];
      assert p + q == p;
      FanOutKnown(p, r);
    } else {
      var q', x := q[..|q| - 1], q[|q| - 1];
      FanOutInside(p, r, q');
      assert (p + [r] + q)[..|p + [r] + q| - 1] == p + [r] + q';
      assert (p + q)[..|p + q| - 1] == p + q';
    }
  }

  /** The rows `rows[i]` with `keep[i]`, in row order. */
  function Kept(rows: seq<Row>, keep: seq<bool>): seq<Row>
    requires |keep| == |rows|
  {
    if |rows| == 0 then []
    else Kept(rows[..|rows| - 1], keep[..|rows| - 1]) + if keep[|rows| - 1] then [rows[|rows| - 1]] else []
  }

  /**
   * Fan-out invariance for rows in any order: dropping every row that carries
   * only `Id`s already seen on the kept rows before it leaves the graph unchanged.
   */
  lemma {:induction false} FanOut(rows: seq<Row>, keep: seq<bool>)
    requires |keep| == |rows|
    requires forall i :: 0 <= i < |rows| && !keep[i] ==> Known(Kept(rows[..i], keep[..i]), rows[i])
    ensures Build(rows) == Build(Kept(rows, keep))
  {
    if |rows| > 0 {
      var n := |rows| - 1;
      var p, k := rows[..n], keep[..n];
      forall i | 0 <= i < |p| && !k[i] ensures Known(Kept(p[..i], k[..i]), p[i]) {
        assert p[..i] == rows[..i] && k[..i] == keep[..i];
      }
      FanOut(p, k);
      var g := Kept(p, k);
      assert Build(rows) == Step(Build(p), rows[n]) == Step(Build(g), rows[n]);
      assert (g + [rows[n]])[..|g|] == g;
      assert Build(g + [rows[n]]) == Step(Build(g), rows[n]);
      if keep[n] {
        assert Kept(rows, keep) == g + [rows[n]];
      } else {
        assert Kept(rows, keep) == g;
        FanOutKnown(g, rows[n]);
      }
    }
  }

  /**
   * The join's fan-out for a stack with two flashcards and two study sessions, in
   * the order (f1, t1), (f2, t2), (f1, t2), (f2, t1): the four rows build the same
   * graph as the first two.
   */
  lemma CrossProduct(s: StackPart, f1: Flashcard, f2: Flashcard, t1: StudySession, t2: StudySession)
    ensures Build([Row(s, Some(f1), Some(t1)), Row(s, Some(f2), Some(t2)),
                   Row(s, Some(f1), Some(t2)), Row(s, Some(f2), Some(t1))])
         == Build([Row(s, Some(f1), Some(t1)), Row(s, Some(f2), Some(t2))])
  {
    var rows := [Row(s, Some(f1), Some(t1)), Row(s, Some(f2), Some(t2))];
    var x1, x2 := Row(s, Some(f1), Some(t2)), Row(s, Some(f2), Some(t1));
    assert rows[0].stack.id == s.id && rows[1].stack.id == s.id;
    assert f1.id in FlashcardIdsOf(rows, s.id) && f2.id in FlashcardIdsOf(rows, s.id);
    assert t1.id in SessionIdsOf(rows, s.id) && t2.id in SessionIdsOf(rows, s.id);
    FanOutInside(rows, x1, [x2]);
    FanOutKnown(rows, x2);
    assert rows + [x1] + [x2] == [Row(s, Some(f1), Some(t1)), Row(s, Some(f2), Some(t2)),
                                  Row(s, Some(f1), Some(t2)), Row(s, Some(f2), Some(t1))];
  }

  /**
   * The join's fan-out in flashcard-major order for three flashcards and two
   * study sessions: the redundant (f2, t2) sits before the new flashcard f3, and
   * the six rows build the same graph as the four that bring a new `Id`.
   */
  lemma CrossProductByFlashcard(s: StackPart, f1: Flashcard, f2: Flashcard, f3: Flashcard,
                                t1: StudySession, t2: StudySession)
    ensures Build([Row(s, Some(f1), Some(t1)), Row(s, Some(f1), Some(t2)),
                   Row(s, Some(f2), Some(t1)), Row(s, Some(f2), Some(t2)),
                   Row(s, Some(f3), Some(t1)), Row(s, Some(f3), Some(t2))])
         == Build([Row(s, Some(f1), Some(t1)), Row(s, Some(f1), Some(t2)),
                   Row(s, Some(f2), Some(t1)), Row(s, Some(f3), Some(t1))])
  {
    var p := [Row(s, Some(f1), Some(t1)), Row(s, Some(f1), Some(t2)), Row(s, Some(f2), Some(t1))];
    var r := Row(s, Some(f2), Some(t2));
    var y1, y2 := Row(s, Some(f3), Some(t1)), Row(s, Some(f3), Some(t2));
    KnownAt(p, r, 2, 1);
    FanOutInside(p, r, [y1, y2]);
    KnownAt(p + [y1], y2, 3, 1);
    FanOutKnown(p + [y1], y2);
    assert p + [r] + [y1, y2] == [p[0], p[1], p[2], r, y1, y2];
    assert p + [y1, y2] == (p + [y1]) + [y2];
    assert p + [y1] == [p[0], p[1], p[2], y1];
  }

  /** A row is known once an earlier row has its flashcard and another its study session. */
  lemma KnownAt(rows: seq<Row>, r: Row, i: nat, j: nat)
    requires i < |rows| && j < |rows|
    requires rows[i].stack.id == r.stack.id && rows[j].stack.id == r.stack.id
    requires rows[i].flashcard.Some? && r.flashcard.Some? && rows[i].flashcard.value.id == r.flashcard.value.id
    requires rows[j].session.Some? && r.session.Some? && rows[j].session.value.id == r.session.value.id
    ensures Known(rows, r)
  {
  }

  /** Two rows of one stack with two flashcards and no study session build one stack with two flashcards. */
  lemma AlgebraScenario()
    ensures Build([Row(StackPart(1, "Algebra"), Some(Flashcard(1, 1, "2+2", "4")), None),
                   Row(StackPart(1, "Algebra"), Some(Flashcard(2, 1, "3+3", "6")), None)])
         == [Stack(1, "Algebra", [Flashcard(1, 1, "2+2", "4"), Flashcard(2, 1, "3+3", "6")], [])]
  {
    var r1 := Row(StackPart(1, "Algebra"), Some(Flashcard(1, 1, "2+2", "4")), None);
    var r2 := Row(StackPart(1, "Algebra"), Some(Flashcard(2, 1, "3+3", "6")), None);
    assert [r1, r2][..1] == [r1];
    assert [r1][..0] == [];
    assert Build([r1]) == Step([], r1);
    StepAt([], r1, 0);
    assert AddChild([], r1.flashcard, FlashcardId) == [Flashcard(1, 1, "2+2", "4")];
    var acc := [Stack(1, "Algebra", [Flashcard(1, 1, "2+2", "4")], [])];
    assert Absorb(NewEntry(r1.stack), r1) == acc[0];
    assert Build([r1]) == acc;
    assert Build([r1, r2]) == Step(acc, r2);
    StepAt(acc, r2, 0);
    assert !HasKey(acc[0].flashcards, 2, FlashcardId);
    assert AddChild(acc[0].flashcards, r2.flashcard, FlashcardId) == [Flashcard(1, 1, "2+2", "4"), Flashcard(2, 1, "3+3", "6")];
  }
}
