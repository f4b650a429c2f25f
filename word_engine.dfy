/**
 * The `useWordEngine` hook as an object: one engine per unit, its fields
 * updated in place by the commands the presentation layer issues, and the
 * shared progress store it reads on mount and writes on save and reset.
 */
module WordEngine {
  import opened Wrappers
  import opened Types
  import opened Progress
  import Session

  /** The single storage entry 'wordmoment_progress' that every session shares. */
  class ProgressStore {
    var item: Stored

    constructor (item: Stored)
      ensures this.item == item
    {
      this.item := item;
    }
  }

  class Engine {
    const unitData: UnitData
    const store: ProgressStore

    var currentIndex: int
    var phase: Session.Phase
    var inputVal: string
    var queue: seq<Word>
    var currentReinforcementIndex: nat

    /** The fields as one value, for the transitions of module Session. */
    function Snapshot(): Session.State
      reads this
    {
      Session.State(currentIndex, phase, inputVal, queue, currentReinforcementIndex)
    }

    ghost predicate Valid()
      reads this
    {
      Session.Valid(unitData.words, Snapshot())
    }

    /** Mounting: the initial state, then the load effect applied to what the
        store holds for this unit. */
    constructor (unitData: UnitData, store: ProgressStore)
      ensures this.unitData == unitData && this.store == store
      ensures Snapshot() == Session.Mount(unitData.words, RestoreDecision(store.item, unitData.level, unitData.unit))
      ensures Valid()
    {
      this.unitData := unitData;
      this.store := store;
      currentIndex := 0;
      phase := Session.Typing;
      inputVal := "";
      queue := [];
      currentReinforcementIndex := 0;
      match RestoreDecision(store.item, unitData.level, unitData.unit)
      case Fresh =>
      case Resume(savedIndex) =>
        currentIndex := savedIndex;
      case Finished =>
        phase := Session.Complete;
        currentIndex := |unitData.words| - 1;
    }

    /** `handleInput`: store the typed text, but only while typing. */
    method HandleInput(val: string)
      requires Valid()
      modifies this
      ensures Valid()
      ensures Snapshot() == Session.HandleInput(old(Snapshot()), val)
    {
      if phase != Session.Typing {
        return;
      }
      inputVal := val;
    }

    /** `submitInput`: check the stored text against the current word; on a
        match enter reinforcement with the cumulative queue. */
    method SubmitInput() returns (outcome: Session.Outcome)
      requires Valid()
      modifies this
      ensures Valid()
      ensures (Snapshot(), outcome) == Session.Submit(unitData.words, old(Snapshot()))
    {
      if phase != Session.Typing {
        return Session.Returned(false);
      }
      if !(0 <= currentIndex < |unitData.words|) {
        // `currentWord.en` reads a property of undefined
        return Session.Threw;
      }
      var currentWord := unitData.words[currentIndex];
      if Session.Matches(inputVal, currentWord.en) {
        queue := unitData.words[..currentIndex + 1];
        currentReinforcementIndex := 0;
        phase := Session.Reinforcement;
        inputVal := "";
        return Session.Returned(true);
      } else {
        return Session.Returned(false);
      }
    }

    /** `advanceReinforcement`: one step of the replay. */
    method AdvanceReinforcement()
      requires Valid()
      modifies this
      ensures Valid()
      ensures Snapshot() == Session.Advance(unitData.words, old(Snapshot()))
    {
      if phase != Session.Reinforcement {
        return;
      }
      if currentReinforcementIndex < |queue| - 1 {
        currentReinforcementIndex := currentReinforcementIndex + 1;
      } else if currentIndex < |unitData.words| - 1 {
        currentIndex := currentIndex + 1;
        phase := Session.Typing;
      } else {
        phase := Session.Complete;
      }
    }

    /** `resetProgress`: back to the first word, and, when the stored blob
        parses, this unit's record rewritten as unfinished at index 0. */
    method ResetProgress()
      requires Valid()
      modifies this, store
      ensures Valid()
      ensures Snapshot() == Session.Reset(old(Snapshot()))
      ensures store.item == ResetWrite(old(store.item), unitData.level, unitData.unit)
    {
      currentIndex := 0;
      phase := Session.Typing;
      queue := [];
      currentReinforcementIndex := 0;
      var saved := store.item;
      if saved.Parsed? {
        store.item := SaveProgress(saved, unitData.level, unitData.unit, Record(0, false));
      }
    }

    /** The save effect: merge this unit's position and completion into the store. */
    method Save()
      modifies store
      ensures store.item == SaveProgress(old(store.item), unitData.level, unitData.unit,
                                         Record(currentIndex, phase == Session.Complete))
      ensures Lookup(store.item, unitData.level, unitData.unit) == Some(Record(currentIndex, phase == Session.Complete))
    {
      store.item := SaveProgress(store.item, unitData.level, unitData.unit,
                                 Record(currentIndex, phase == Session.Complete));
    }

    /** `currentWord`: the word at the current index, undefined outside the unit. */
    function CurrentWord(): (w: Option<Word>)
      reads this
      ensures w.Some? <==> 0 <= currentIndex < |unitData.words|
      ensures Valid() && phase == Session.Reinforcement ==> w == Some(queue[|queue| - 1])
    {
      if 0 <= currentIndex < |unitData.words| then Some(unitData.words[currentIndex]) else None
    }

    /** `currentReinforcementWord`: the queue item being replayed. During
        reinforcement it is the unit's word at the replay position, so the
        replay runs through the unit in teaching order. */
    function CurrentReinforcementWord(): (w: Option<Word>)
      reads this
      ensures Valid() && phase == Session.Reinforcement ==> w == Some(unitData.words[currentReinforcementIndex])
    {
      if currentReinforcementIndex < |queue| then Some(queue[currentReinforcementIndex]) else None
    }

    /** `progress`: the 1-based number of the current word. */
    function Progress(): (p: int)
      reads this
      ensures Valid() && phase == Session.Reinforcement ==> p == |queue|
      ensures Valid() && phase == Session.Complete ==> p == |unitData.words|
    {
      currentIndex + 1
    }

    /** `totalWords`. */
    function TotalWords(): nat
      reads this
    {
      |unitData.words|
    }
  }
}
