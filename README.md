# WordMoment core in Dafny

WordMoment teaches vocabulary unit by unit. The learner types the word shown by its
meaning and pronunciation. After each correct answer the app replays every word learned
so far in the unit, in order. Then it moves to the next word, or completes the unit.
Progress is kept in one storage entry, keyed by level and then by unit.

This project models two parts of the repository:

- **The learning-session engine** (`src/hooks/useWordEngine.ts`).
  - Module `Session` holds the engine's fields as a value (`State`) and each command as a
    transition function. These are `HandleInput`, `Submit`, `Advance`, `Reset` and `Mount`.
    The module also proves the state machine's properties.
  - Module `WordEngine` has the class `Engine`. Its fields are `currentIndex`, `phase`,
    `inputVal`, `queue` and `currentReinforcementIndex`, and its methods update them in
    place. Each method is proved against the matching `Session` transition and keeps
    `Session.Valid`.
  - Module `Progress` models the stored blob as `Absent | Malformed | Parsed(map)`. It has
    the merge done on save, the rewrite done on reset, and the restore decision made on
    mount. The storage entry itself is `WordEngine.ProgressStore`.
- **The CET-4 word-list builder** (`script/generate_cet4.js`).
  - Module `Cet4Parse` covers `parseFile`. It parses each line. It drops excluded and
    one-letter words. It merges repeated words case-insensitively into an
    insertion-ordered map. `ParseFile` is the loop, proved equal to the fold `Collect`.
  - Module `Cet4Units` cuts the list into units of ten (`BuildUnits`) and normalises the
    IPA transcription.
- Module `Text` models the JavaScript string built-ins the two files use:
  `trim`, `toLowerCase`, `indexOf`/`includes`, `split`, global `replace` and decimal printing.
- Module `Types` holds the data shapes of `src/data/types.ts`.

Some behaviour of the code is easy to misread; the model follows the code as written:

- `submitInput` takes no argument. It checks the `inputVal` that `handleInput` stored.
- `resetProgress` does not clear `inputVal`.
- `resetProgress` writes storage only when the stored blob exists and parses. Otherwise
  the record is written by the save that follows the state change.
- Going back to typing does not clear `inputVal`. The invariant `Session.Valid` proves it
  is already empty at that point.
- `currentReinforcementWord` is `queue[currentReinforcementIndex]` in every phase. After
  the session returns to typing it shows a stale word, not `undefined`.
- A restored `currentIndex` is not range-checked, so the index may lie outside the unit.
  In that case `submitInput` throws a TypeError. This is modelled as the outcome `Threw`,
  and the state is left unchanged.
- Saving happens when the index or the phase changes (effect dependencies). In the model
  it is an explicit call, `Engine.Save`.

`BuildUnits` ensures that every unit it produces holds at least one word. So a fresh
session, which starts at index 0, always has a current word on a generated catalog.

## Model

| member | source | states |
|---|---|---|
| `Session.HandleInput` | src/hooks/useWordEngine.ts:22-25 | typing overwrites `inputVal`; in any other phase nothing changes |
| `Session.Submit` | src/hooks/useWordEngine.ts:27-45 | accepted iff typing and the trimmed, lower-cased input equals the current word lower-cased; on acceptance the phase is reinforcement, the queue is `words[0..currentIndex]` in order, the replay index is 0 and the input is cleared; otherwise the state is unchanged, with `false` outside typing and a thrown error when the current word does not exist |
| `Session.Advance` | src/hooks/useWordEngine.ts:47-65 | no-op outside reinforcement; before the queue's last item only the replay index grows by one; at the last item the index grows by one and typing resumes when a word remains, else the phase becomes complete with the index unchanged |
| `Session.Reset` | src/hooks/useWordEngine.ts:129-133 | index 0, typing, empty queue, replay index 0; the typed text is kept |
| `Session.Mount` | src/hooks/useWordEngine.ts:68-88 | no record: the initial state; an unfinished record: the initial state at its index, unchecked; a finished record: the initial state, complete and pinned to the last word |
| `Session.Matches` | src/hooks/useWordEngine.ts:31 | the answer check: the typed text, trimmed and lower-cased, equals the word lower-cased (its properties are the two lemmas below) |
| `Session.MatchesIgnoresCase` | src/hooks/useWordEngine.ts:31 | the answer check gives the same verdict for inputs equal up to letter case |
| `Session.MatchesIgnoresPadding` | src/hooks/useWordEngine.ts:31 | white space around the input does not change the verdict |
| `Session.SubmitIgnoresCase` | src/hooks/useWordEngine.ts:27-45 | submitting gives the same outcome for typed texts equal up to letter case |
| `Session.SubmitIgnoresPadding` | src/hooks/useWordEngine.ts:27-45 | submitting gives the same outcome with white space around the typed text |
| `Session.MountValid` | src/hooks/useWordEngine.ts:68-88 | whatever the stored record, the mounted state satisfies the session invariant |
| `Session.SaveThenMount` | src/hooks/useWordEngine.ts:68-123 | saving a valid state and mounting again restores its index and whether it was complete |
| `Session.ApplyValid` | src/hooks/useWordEngine.ts:22-65 | every command keeps the invariant: in reinforcement the queue is the prefix up to the current word, the replay index lies inside it and the input is empty; when complete the index is the last word |
| `Session.RunValid` | src/hooks/useWordEngine.ts:22-133 | the invariant holds after any series of commands |
| `Session.RunIndexMonotone` | src/hooks/useWordEngine.ts:56-59 | without a reset the word index never decreases |
| `Session.CompleteIsTerminal` | src/hooks/useWordEngine.ts:22-65 | from completion, any commands except reset leave the state exactly as it is |
| `Session.RunIndexInRange` | src/hooks/useWordEngine.ts:56-59 | an index that starts inside the unit stays inside it under every command |
| `Session.AdvanceWithinQueue` | src/hooks/useWordEngine.ts:50-52 | before the end of the queue, `j` advances move the replay index by `j` and change nothing else |
| `Session.AdvanceThroughQueue` | src/hooks/useWordEngine.ts:47-65 | one advance per remaining queue item always leaves reinforcement: typing the next word when one remains, else complete on the same word |
| `Session.CorrectAnswerThenReplay` | src/hooks/useWordEngine.ts:31-63 | a correct answer at word `i` is accepted, and `i + 1` advances after it lead to typing word `i + 1`, or to completion at the last word |
| `Progress.Lookup` | src/hooks/useWordEngine.ts:75-76 | a record is found exactly when the blob parses and holds this level and unit, and it is the stored one |
| `Progress.SaveProgress` | src/hooks/useWordEngine.ts:92-123 | the saved blob holds the new record for this level and unit; every other record, level and unit is kept; a missing or malformed blob becomes a map holding only this entry |
| `Progress.ResetWrite` | src/hooks/useWordEngine.ts:135-154 | a blob that parses gets this unit's record set to index 0, unfinished, with all other records kept, its levels exactly the old ones plus this level and this level's units exactly the old ones plus this unit; a missing or malformed blob is left alone |
| `Progress.RestoreDecision` | src/hooks/useWordEngine.ts:69-86 | no record (or a missing or malformed blob): nothing restored; a finished record: complete; otherwise the saved index |
| `Progress.SaveThenRestore` | src/hooks/useWordEngine.ts:68-123 | loading right after saving a unit returns the saved record |
| `Progress.SaveKeepsOtherRestores` | src/hooks/useWordEngine.ts:108-117 | saving one unit never changes what loading another unit yields |
| `WordEngine.Engine.constructor` | src/hooks/useWordEngine.ts:11-18 | the fields start as the initial state and the load effect is applied to the stored blob |
| `WordEngine.Engine.HandleInput` | src/hooks/useWordEngine.ts:22-25 | updates the fields as `Session.HandleInput` and keeps the invariant |
| `WordEngine.Engine.SubmitInput` | src/hooks/useWordEngine.ts:27-45 | updates the fields and returns the outcome as `Session.Submit`, keeping the invariant |
| `WordEngine.Engine.AdvanceReinforcement` | src/hooks/useWordEngine.ts:47-65 | updates the fields as `Session.Advance` and keeps the invariant |
| `WordEngine.ProgressStore.constructor` | src/hooks/useWordEngine.ts:69 | the shared 'wordmoment_progress' entry, holding the given stored value |
| `WordEngine.Engine.ResetProgress` | src/hooks/useWordEngine.ts:129-155 | resets the fields as `Session.Reset` and rewrites the store as `Progress.ResetWrite` |
| `WordEngine.Engine.Save` | src/hooks/useWordEngine.ts:90-127 | merges `{currentIndex, finished: phase is complete}` into the store for this level and unit |
| `WordEngine.Engine.CurrentWord` | src/hooks/useWordEngine.ts:20 | `unitData.words[currentIndex]` (defined directly); its contract: missing exactly when the index is outside the unit, and in reinforcement the last queue item |
| `WordEngine.Engine.CurrentReinforcementWord` | src/hooks/useWordEngine.ts:165 | in reinforcement, the unit's word at the replay index, so the replay runs through the unit in teaching order |
| `WordEngine.Engine.TotalWords` | src/hooks/useWordEngine.ts:167 | the number of words in the unit (defined directly; no contract) |
| `WordEngine.Engine.Progress` | src/hooks/useWordEngine.ts:168 | in reinforcement it equals the queue length; when complete it equals the number of words |
| `Cet4Parse.IsWordChar` | script/generate_cet4.js:60-67 | the character class `[a-zA-Z\-]` (defined directly) |
| `Cet4Parse.IsLineTerminator` | script/generate_cet4.js:60 | the characters the regular expression's `.` does not match: line feed, carriage return, U+2028 and U+2029 (defined directly) |
| `Cet4Parse.MatchWordLine` | script/generate_cet4.js:60-63 | the regular expression yields a non-empty word of letters and hyphens |
| `Cet4Parse.SplitFallback` | script/generate_cet4.js:64-75 | the fallback yields a non-empty word of letters and hyphens |
| `Cet4Parse.ParseLine` | script/generate_cet4.js:59-75 | an accepted line yields a non-empty word of letters and hyphens |
| `Cet4Parse.ParseLineShape` | script/generate_cet4.js:59-75 | on a trimmed line, acceptance holds exactly when the leading run of letters and hyphens is followed by white space; the word is that run and the definition is the rest after the white space |
| `Cet4Parse.SplitFallbackAccepts` | script/generate_cet4.js:64-69 | when the regular expression fails only because of a line terminator in the definition, the fallback yields the same word and definition |
| `Cet4Parse.SplitFallbackRejects` | script/generate_cet4.js:64-74 | without a word followed by white space, the fallback rejects the line |
| `Cet4Parse.Key` | script/generate_cet4.js:78 | `en.toLowerCase()`, the key words are merged by (defined directly; see `Text.ToLowerShape`) |
| `Cet4Parse.Accepted` | script/generate_cet4.js:49-91 | a line contributes only a word whose lower-case form is not excluded, at least two letters long, made of letters and hyphens, with a non-empty definition; what it contributes is the match of the trimmed line, a blank line contributes nothing, and every matched line with a non-empty definition whose word is not excluded and has at least two letters does contribute |
| `Cet4Parse.Contributions` | script/generate_cet4.js:49-91 | one contribution per line, each admissible |
| `Cet4Parse.MergeDefinition` | script/generate_cet4.js:95-102 | a definition already contained leaves the stored one unchanged; otherwise it is appended after " ; "; either way the result extends the stored one and contains the new one |
| `Cet4Parse.Step` | script/generate_cet4.js:93-106 | one line's contribution: nothing changes without one; a new word is appended to the key list and stored as contributed; a repeated word keeps its place and spelling and its definition becomes `MergeDefinition` of the stored one and the new one; every other entry is unchanged; the stored words are exactly the old ones plus the contributed one |
| `Cet4Parse.Collect` | script/generate_cet4.js:93-106 | the map after the given contributions, as the left fold of `Step` (defined directly; its properties are the `Collect` lemmas below) |
| `Cet4Parse.CollectWellFormedShape` | script/generate_cet4.js:93-110 | every listed key is stored, and every stored key is listed |
| `Cet4Parse.CollectWellFormed` | script/generate_cet4.js:93-106 | each lower-cased word is stored once, listed once, under its own key, and is admissible |
| `Cet4Parse.CollectKeys` | script/generate_cet4.js:93-106 | a word is in the output exactly when some line contributes it |
| `Cet4Parse.CollectFirstSpelling` | script/generate_cet4.js:93-106 | the output keeps the spelling of the first line contributing the word |
| `Cet4Parse.CollectFirstOrder` | script/generate_cet4.js:103-110 | the output lists words in the order of their first contributing lines |
| `Cet4Parse.CollectKeepsDefinitions` | script/generate_cet4.js:95-102 | every contributed definition occurs in its word's stored definition |
| `Cet4Parse.Entries` | script/generate_cet4.js:110 | `Array.from(wordsMap.values())`: one entry per listed key, in insertion order, each stored under its own lower-cased word |
| `Cet4Parse.StripBom` | script/generate_cet4.js:29-31 | the content loses exactly one leading U+FEFF when it starts with one, and is unchanged otherwise |
| `Cet4Parse.Catalog` | script/generate_cet4.js:26-111 | the list `parseFile` returns: the entries of the fold over the lines, after the byte-order mark is stripped (defined directly; see `CatalogEntries` and `ParseFile`) |
| `Cet4Parse.CatalogEntries` | script/generate_cet4.js:81-110 | the output holds one entry per lower-cased word, none excluded or shorter than two letters |
| `Cet4Parse.StripBomRedundant` | script/generate_cet4.js:28-31 | removing a leading U+FEFF changes no line's contribution, because `trim` strips it anyway |
| `Cet4Parse.AddLine` | script/generate_cet4.js:49-108 | one pass of the loop changes the word map exactly as one step of the fold does for that line's contribution |
| `Cet4Parse.ParseFile` | script/generate_cet4.js:26-111 | the loop returns the fold of the lines after the byte-order mark is stripped, with distinct lower-cased words, none excluded or shorter than two letters |
| `Cet4Units.UnitName` | script/generate_cet4.js:136 | `Unit ${i + 1}` (defined directly; see `UnitNamesDistinct`) |
| `Cet4Units.Chunk` | script/generate_cet4.js:132 | `words.slice(10i, 10i + 10)`: at most ten consecutive words starting at `10i`, exactly ten when that many remain, and at least one when any remain |
| `Cet4Units.UnitCount` | script/generate_cet4.js:129 | the number of units is the least `k` with `10k` at least the number of words |
| `Cet4Units.UnitNamesDistinct` | script/generate_cet4.js:136 | different units get different names |
| `Cet4Units.FlattenChunks` | script/generate_cet4.js:131-132 | the first `k` chunks concatenated are the first `10k` words |
| `Cet4Units.EnrichAll` | script/generate_cet4.js:140-178 | one catalog word per entry, in order, keeping each entry's word and definition |
| `Cet4Units.BuildUnits` | script/generate_cet4.js:127-180 | `ceil(n/10)` units; unit `i` is named "Unit i+1", has level "CET4" and holds the enriched words `10i` up to `10i+10`; all but the last hold exactly 10; none is empty; concatenated they give back the whole list |
| `Cet4Units.UnitsFlatten` | script/generate_cet4.js:127-180 | units cut as above concatenate back to the enriched word list |
| `Cet4Units.FirstAlternative` | script/generate_cet4.js:149-152 | the result is a prefix of the text ending where the first " OR " starts (no occurrence starts earlier), the whole text when there is none, and contains no " OR " |
| `Cet4Units.NormalizeSymbols` | script/generate_cet4.js:155-164 | the nine global replacements in source order (defined directly; see `NormalizeSymbolsClean`) |
| `Cet4Units.NormalizeSymbolsClean` | script/generate_cet4.js:155-164 | no ɹ, ɚ, ɝ or ɡ remains after the replacement chain |
| `Cet4Units.Phonetic` | script/generate_cet4.js:145-167 | empty without a lookup text; otherwise the first alternative, normalised, between slashes; never holds ɹ, ɚ, ɝ or ɡ |
| `Cet4Units.Enrich` | script/generate_cet4.js:140-177 | a catalog word keeps the entry's word and definition, has a pronunciation free of ɹ, ɚ, ɝ and ɡ, and the hyphenation's syllable blocks |
| `Text.IsSpace` | script/generate_cet4.js:50-66 | the white space and line terminators JavaScript's `trim` strips and `\s` matches (defined directly; see `Cet4Parse.WordCharNotSpace`) |
| `Text.Trim` | src/hooks/useWordEngine.ts:31 | the trimmed text neither starts nor ends with white space |
| `Text.TrimOfPadded` | script/generate_cet4.js:50 | the trimmed text is the core between leading and trailing white space |
| `Text.TrimIgnoresPadding` | src/hooks/useWordEngine.ts:31 | white space added around a text does not survive trimming |
| `Text.TrimIdempotent` | script/generate_cet4.js:69 | trimming twice is trimming once |
| `Text.ToLower` | src/hooks/useWordEngine.ts:31 | `toLowerCase` on ASCII letters (defined directly; see `ToLowerShape`) |
| `Text.ToLowerShape` | src/hooks/useWordEngine.ts:31 | lower-casing keeps the length, maps each ASCII capital to its small letter and leaves every other character as it is |
| `Text.TrimToLowerCommute` | src/hooks/useWordEngine.ts:31 | trimming and lower-casing commute |
| `Text.Contains` | script/generate_cet4.js:97 | `includes`: some occurrence exists (defined directly from `Find`, whose contract fixes it) |
| `Text.Find` | script/generate_cet4.js:97 | the first index where the text occurs, or none when it occurs nowhere |
| `Text.ReplaceAll` | script/generate_cet4.js:155-164 | a global `replace` of a non-empty pattern, scanning left to right (defined directly; see the three lemmas below) |
| `Text.ReplaceAllNoMatch` | script/generate_cet4.js:155-164 | a text in which the pattern never occurs is left unchanged |
| `Text.ReplaceAllRemoves` | script/generate_cet4.js:156 | a global replacement of one character by text without it removes it entirely |
| `Text.ReplaceAllKeepsAbsent` | script/generate_cet4.js:155-164 | a replacement never introduces a character absent from both text and replacement |
| `Text.Split` | script/generate_cet4.js:33 | at least one piece, none containing the separator |
| `Text.JoinSplit` | script/generate_cet4.js:33 | joining the pieces with the separator gives back the content |
| `Text.NatToString` | script/generate_cet4.js:136 | a non-empty string of decimal digits, one digit exactly for numbers below ten |
| `Text.NatToStringDecimal` | script/generate_cet4.js:136 | the printed digits denote the number in decimal, with no leading zero |
| `Text.NatToStringInjective` | script/generate_cet4.js:136 | different numbers print differently |

## Left out

- React machinery is not modelled: state hooks, callbacks, effect dependency lists and
  effect ordering. Each command is one atomic method. Load happens in the constructor.
  Save is the explicit method `Engine.Save`, including the save the effect makes on mount.
- `localStorage`, `JSON.parse` and `JSON.stringify` are abstracted as `Progress.Stored`.
  A blob is assumed to have the `level → unit → {currentIndex, finished}` shape. A blob
  that parses to `null` behaves exactly like `Malformed`: load, save and reset each read a
  property of it, throw, and catch the error. A number or a boolean behaves like an empty
  map in every code path. A string or an array spreads into extra keys, which are not
  modelled.
  Records with a missing or non-integer `currentIndex` are not modelled either.
- `console.log` and `console.error` output, and the `stats` counters of `parseFile`, are
  not modelled.
- Text.ToLower: lower-cases ASCII letters only. JavaScript's `toLowerCase` covers all of
  Unicode. The catalog's words are letters and hyphens, so only non-ASCII input typed by
  the learner could differ.
- Strings are sequences of Unicode scalar values. JavaScript strings are UTF-16 code
  units, so surrogate pairs are not modelled.
- The file read and write, the dictionary load and `TextToIPA.lookup`, and
  `Hypher.hyphenate` are foreign calls. Lookup and hyphenation are function parameters of
  `BuildUnits`. A lookup result without text is `None`.
- `shuffleArray` uses `Math.random` and is not modelled. `BuildUnits` takes the list
  after the shuffle.
- The presentation components (`Reinforcement.tsx`, `Typing.tsx`, `Complete.tsx`,
  `Learn.tsx`, `SelectUnit.tsx`, `App.tsx`) are not part of this model. They hold timers,
  audio, keyboard and IME handling, and animation. `SelectUnit`'s `isUnitComplete` is a
  `finished` lookup in the same map.
- `Cet4Parse.SplitFallback`: models only `parts[0]` of `trimmed.split(/\s+/)`, and
  whether a second part exists, because those are all the code reads.
