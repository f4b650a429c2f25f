/** The data shapes shared by the word-list builder and the learning session. */
module Types {
  import opened Wrappers

  /** One vocabulary entry: the English word, its Chinese definition, and the
      optional pronunciation and syllable blocks the presentation shows. */
  datatype Word = Word(en: string, zh: string, phonetic: Option<string>, block: Option<seq<string>>)

  /** A unit of the catalog: a level name, a unit name and its words in teaching order. */
  datatype UnitData = UnitData(level: string, unit: string, words: seq<Word>)

  /** The saved position of one unit. */
  datatype Record = Record(currentIndex: int, finished: bool)

  /** Saved positions by level, then by unit. */
  type UserProgress = map<string, map<string, Record>>
}
