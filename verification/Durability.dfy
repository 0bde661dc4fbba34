/** What a crash does to a durable write. */
module Durability {

  /** An append keeps any prefix of its bytes; a replacement keeps all or none of it. */
  datatype Fate = Completes | CrashesBefore | CrashesAfter | CrashesAt(kept: nat)

  /** How much of an append of this size reaches the disk. */
  function Kept(fate: Fate, size: nat): (n: nat)
    ensures n <= size && (fate.Completes? ==> n == size)
  {
    match fate
    case Completes => size
    case CrashesAfter => size
    case CrashesBefore => 0
    case CrashesAt(kept) => if kept < size then kept else size
  }

  /** Whether a replacement has taken effect. */
  predicate TakesEffect(fate: Fate) {
    fate.Completes? || fate.CrashesAfter?
  }
}
