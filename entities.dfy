/**
 * The entities the cache is built from: a stack, its flashcards and its
 * study sessions, each identified by an integer `Id` assigned by the store.
 */
module Entities {

  /** The time of a study session; its representation is left open. */
  type StudyTime

  /** The score of a study session; its representation is left open. */
  type Score

  /** The `Stacks` columns of one join row. */
  datatype StackPart = StackPart(id: int, name: string)

  /** A flashcard: the `Id`, `StackId`, `Front` and `Back` columns. */
  datatype Flashcard = Flashcard(id: int, stackId: int, front: string, back: string)

  /** A study session: the `Id`, `StackId`, `StudyTime` and `Score` columns. */
  datatype StudySession = StudySession(id: int, stackId: int, studyTime: StudyTime, score: Score)

  /** A cached stack aggregate with its two child collections. */
  datatype Stack = Stack(id: int, name: string, flashcards: seq<Flashcard>, studySessions: seq<StudySession>)

  // The identity of each entity, as a key for the lookups and de-duplication in module Keyed.

  function PartId(p: StackPart): int { p.id }

  function StackKey(s: Stack): int { s.id }

  function FlashcardId(f: Flashcard): int { f.id }

  function SessionId(s: StudySession): int { s.id }
}
