/**
 * The progress blob kept under the storage key 'wordmoment_progress': how the
 * session reads it on mount, merges one record into it on save, and rewrites
 * it on reset. Storage and JSON are abstracted as a parsed-or-not value.
 */
module Progress {
  import opened Wrappers
  import opened Types

  /** The stored item as the session sees it: nothing (missing or the empty
      string, both falsy), text that `JSON.parse` rejects, or a parsed map. */
  datatype Stored = Absent | Malformed | Parsed(progress: UserProgress)

  /** The record saved for `(level, unit)`, if the blob parses and holds one. */
  function Lookup(stored: Stored, level: string, unit: string): (r: Option<Record>)
    ensures r.Some? <==> stored.Parsed? && level in stored.progress && unit in stored.progress[level]
    ensures r.Some? ==> r.value == stored.progress[level][unit]
  {
    if stored.Parsed? && level in stored.progress && unit in stored.progress[level]
    then Some(stored.progress[level][unit])
    else None
  }

  /** The save effect: start from the parsed blob (or from nothing when it is
      missing or malformed) and overwrite only the `(level, unit)` leaf. */
  function SaveProgress(stored: Stored, level: string, unit: string, rec: Record): (r: Stored)
    ensures r.Parsed?
    ensures Lookup(r, level, unit) == Some(rec)
    ensures forall l, u | l != level || u != unit :: Lookup(r, l, u) == Lookup(stored, l, u)
    ensures !stored.Parsed? ==> r.progress == map[level := map[unit := rec]]
    ensures stored.Parsed? ==> r.progress.Keys == stored.progress.Keys + {level}
    ensures stored.Parsed? && level in stored.progress ==>
      r.progress[level].Keys == stored.progress[level].Keys + {unit}
    ensures stored.Parsed? && level !in stored.progress ==> r.progress[level].Keys == {unit}
  {
    match stored
    case Parsed(p) =>
      var siblings := if level in p then p[level] else map[];
      Parsed(p[level := siblings[unit := rec]])
    case _ =>
      Parsed(map[level := map[unit := rec]])
  }

  /** The storage write of `resetProgress`: only a blob that parses is
      rewritten, with this unit's record set back to the start. */
  function ResetWrite(stored: Stored, level: string, unit: string): (r: Stored)
    ensures r.Parsed? <==> stored.Parsed?
    ensures stored.Parsed? ==> Lookup(r, level, unit) == Some(Record(0, false))
    ensures !stored.Parsed? ==> r == stored
    ensures forall l, u | l != level || u != unit :: Lookup(r, l, u) == Lookup(stored, l, u)
    ensures stored.Parsed? ==> r.progress.Keys == stored.progress.Keys + {level}
    ensures stored.Parsed? && level in stored.progress ==>
      r.progress[level].Keys == stored.progress[level].Keys + {unit}
    ensures stored.Parsed? && level !in stored.progress ==> r.progress[level].Keys == {unit}
  {
    if stored.Parsed? then SaveProgress(stored, level, unit, Record(0, false)) else stored
  }

  /** What the load effect does with the saved record of the unit. */
  datatype Restore =
    | Fresh                   // no record, or the blob is missing or malformed
    | Resume(savedIndex: int) // an unfinished record: its index, not range-checked
    | Finished                // a finished record

  /** The load effect's decision for `(level, unit)`. */
  function RestoreDecision(stored: Stored, level: string, unit: string): (r: Restore)
    ensures r == Fresh <==> Lookup(stored, level, unit).None?
    ensures r == Finished <==> Lookup(stored, level, unit).Some? && Lookup(stored, level, unit).value.finished
    ensures r.Resume? ==> Lookup(stored, level, unit) == Some(Record(r.savedIndex, false))
  {
    match Lookup(stored, level, unit)
    case None => Fresh
    case Some(rec) => if rec.finished then Finished else Resume(rec.currentIndex)
  }

  /** Saving then loading the same unit gives back the saved record. */
  lemma SaveThenRestore(stored: Stored, level: string, unit: string, rec: Record)
    ensures RestoreDecision(SaveProgress(stored, level, unit, rec), level, unit)
      == if rec.finished then Finished else Resume(rec.currentIndex)
  {
  }

  /** Saving one unit never changes what loading another unit decides. */
  lemma SaveKeepsOtherRestores(stored: Stored, level: string, unit: string, rec: Record, l: string, u: string)
    requires l != level || u != unit
    ensures RestoreDecision(SaveProgress(stored, level, unit, rec), l, u) == RestoreDecision(stored, l, u)
  {
  }
}
