/// The single-generation backup each persisted dataset keeps: a live file and
/// the `.bak` file beside it, which exists once the dataset was first saved.
module Backup {

  datatype Option<T> = None | Some(value: T)

  /** A dataset on disk: its live content and, if any, its backup. */
  datatype Slot<T> = Slot(live: T, bak: Option<T>)

  /** `save`: read the live content, write it to the backup, write `mem` live. */
  function Saved<T>(s: Slot<T>, mem: T): Slot<T> {
    Slot(mem, Some(s.live))
  }

  /** `undo`: with no backup nothing is written (the errU notice); otherwise the
      in-memory content `mem` goes to the backup and the old backup goes live. */
  function Undone<T>(s: Slot<T>, mem: T): Option<Slot<T>> {
    match s.bak
    case None => None
    case Some(b) => Some(Slot(b, Some(mem)))
  }

  /** Undo right after a save puts back the live content the save replaced. */
  lemma UndoAfterSave<T>(s: Slot<T>, mem: T, reloaded: T)
    ensures Undone(Saved(s, mem), reloaded) == Some(Slot(s.live, Some(reloaded)))
  {
  }

  /** Undo fails exactly when there is no backup, and then changes nothing. */
  lemma UndoNeedsBackup<T>(s: Slot<T>, mem: T)
    ensures Undone(s, mem).None? <==> s.bak.None?
    ensures Undone(s, mem).Some? ==> Undone(s, mem).value.bak == Some(mem)
  {
  }

  /** Two undos, each given what the program holds in memory at that moment,
      leave the live file with the first memory content and the backup with
      the second. When memory is what was just read from the live file (the
      cards and help datasets), the pair of undos restores the slot exactly. */
  lemma UndoTwice<T>(s: Slot<T>, mem1: T, mem2: T)
    requires s.bak.Some?
    ensures Undone(s, mem1).Some?
    ensures Undone(Undone(s, mem1).value, mem2) == Some(Slot(mem1, Some(mem2)))
    ensures mem1 == s.live && mem2 == s.bak.value ==> Undone(Undone(s, mem1).value, mem2) == Some(s)
  {
  }
}
