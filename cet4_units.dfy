/**
 * The rest of the CET-4 word-list builder: cutting the word list into units
 * of ten and normalising the IPA transcription the dictionary lookup returns.
 * The lookup and the hyphenation are parameters; the shuffle is not modelled.
 */
module Cet4Units {
  import opened Wrappers
  import opened Text
  import opened Types
  import opened Cet4Parse

  const ChunkSize: nat := 10
  const Level := "CET4"

  /** `Unit ${i + 1}` */
  function UnitName(i: nat): string {
    "Unit " + NatToString(i + 1)
  }

  /** Different units get different names. */
  lemma UnitNamesDistinct(i: nat, j: nat)
    requires UnitName(i) == UnitName(j)
    ensures i == j
  {
    assert NatToString(i + 1) == UnitName(i)[5..] == UnitName(j)[5..] == NatToString(j + 1);
    NatToStringInjective(i + 1, j + 1);
  }

  /** `Math.ceil(n / ChunkSize)` */
  function UnitCount(n: nat): (k: nat)
    ensures ChunkSize * k >= n
    ensures k > 0 ==> ChunkSize * (k - 1) < n
  {
    (n + ChunkSize - 1) / ChunkSize
  }

  /** `words.slice(i * ChunkSize, (i + 1) * ChunkSize)`, whose end is clamped to the length. */
  function Chunk<T>(ws: seq<T>, i: nat): (r: seq<T>)
    requires ChunkSize * i <= |ws|
    ensures |r| <= ChunkSize && ChunkSize * i + |r| <= |ws|
    ensures ChunkSize * i < |ws| ==> |r| > 0
    ensures ChunkSize * (i + 1) <= |ws| ==> |r| == ChunkSize
    ensures forall j | 0 <= j < |r| :: r[j] == ws[ChunkSize * i + j]
  {
    ws[ChunkSize * i .. if ChunkSize * (i + 1) <= |ws| then ChunkSize * (i + 1) else |ws|]
  }

  /** The concatenation of a list of lists. */
  function Flatten<T>(xss: seq<seq<T>>): seq<T> {
    if xss == [] then [] else Flatten(xss[..|xss| - 1]) + xss[|xss| - 1]
  }

  /** The first `k` chunks, concatenated, are the first `ChunkSize * k` items. */
  lemma {:induction false} FlattenChunks<T>(ws: seq<T>, k: nat)
    requires ChunkSize * k <= |ws| + ChunkSize - 1
    ensures Flatten(seq(k, i requires 0 <= i < k => Chunk(ws, i)))
      == ws[..if ChunkSize * k <= |ws| then ChunkSize * k else |ws|]
  {
    var cs := seq(k, i requires 0 <= i < k => Chunk(ws, i));
    if k > 0 {
      var cs' := seq(k - 1, i requires 0 <= i < k - 1 => Chunk(ws, i));
      assert cs[..k - 1] == cs';
      FlattenChunks(ws, k - 1);
      assert ws[..ChunkSize * (k - 1)] + Chunk(ws, k - 1) == ws[..if ChunkSize * k <= |ws| then ChunkSize * k else |ws|];
    }
  }

  /** `text.split(' OR ')[0]` when the text includes `' OR '`: the first of
      the alternative transcriptions. */
  function FirstAlternative(text: string): (r: string)
    ensures r <= text
    ensures !Contains(r, " OR ")
    ensures Contains(text, " OR ") ==> OccursAt(text, " OR ", |r|)
    ensures forall j | 0 <= j < |r| :: !OccursAt(text, " OR ", j)
    ensures !Contains(text, " OR ") ==> r == text
  {
    if Contains(text, " OR ") then
      var i := Find(text, " OR ").value;
      var r := text[..i];
      assert forall j | OccursAt(r, " OR ", j) :: OccursAt(text, " OR ", j) by {
        forall j | OccursAt(r, " OR ", j) ensures OccursAt(text, " OR ", j) {
          assert text[j..j + 4] == r[j..j + 4];
        }
      }
      r
    else text
  }

  /** The replacement chain applied to a transcription, in source order. */
  function NormalizeSymbols(text: string): string {
    var t := ReplaceAll(text, "\U{279}", "r");              // ɹ -> r
    var t := ReplaceAll(t, "\U{25A}", "\U{259}r");          // ɚ -> ər
    var t := ReplaceAll(t, "\U{25D}", "\U{25C}r");          // ɝ -> ɜr
    var t := ReplaceAll(t, "aj", "a\U{26A}");               // aj -> aɪ
    var t := ReplaceAll(t, "aw", "a\U{28A}");               // aw -> aʊ
    var t := ReplaceAll(t, "oj", "\U{254}\U{26A}");         // oj -> ɔɪ
    var t := ReplaceAll(t, "ej", "e\U{26A}");               // ej -> eɪ
    var t := ReplaceAll(t, "ow", "o\U{28A}");               // ow -> oʊ
    ReplaceAll(t, "\U{261}", "g")                          // ɡ -> g
  }

  /** The symbols the chain replaces that a learner should never see. */
  predicate HasNoRhoticOrScriptG(s: string) {
    '\U{279}' !in s && '\U{25A}' !in s && '\U{25D}' !in s && '\U{261}' !in s
  }

  /** No ɹ, ɚ, ɝ or ɡ survives the chain. */
  lemma NormalizeSymbolsClean(text: string)
    ensures HasNoRhoticOrScriptG(NormalizeSymbols(text))
  {
    var t1 := ReplaceAll(text, "\U{279}", "r");
    ReplaceAllRemoves(text, '\U{279}', "r");
    var t2 := ReplaceAll(t1, "\U{25A}", "\U{259}r");
    ReplaceAllRemoves(t1, '\U{25A}', "\U{259}r");
    ReplaceAllKeepsAbsent(t1, "\U{25A}", "\U{259}r", '\U{279}');
    var t3 := ReplaceAll(t2, "\U{25D}", "\U{25C}r");
    ReplaceAllRemoves(t2, '\U{25D}', "\U{25C}r");
    ReplaceAllKeepsAbsent(t2, "\U{25D}", "\U{25C}r", '\U{279}');
    ReplaceAllKeepsAbsent(t2, "\U{25D}", "\U{25C}r", '\U{25A}');
    var t4 := ReplaceAll(t3, "aj", "a\U{26A}");
    KeepsAllThree(t3, "aj", "a\U{26A}");
    var t5 := ReplaceAll(t4, "aw", "a\U{28A}");
    KeepsAllThree(t4, "aw", "a\U{28A}");
    var t6 := ReplaceAll(t5, "oj", "\U{254}\U{26A}");
    KeepsAllThree(t5, "oj", "\U{254}\U{26A}");
    var t7 := ReplaceAll(t6, "ej", "e\U{26A}");
    KeepsAllThree(t6, "ej", "e\U{26A}");
    var t8 := ReplaceAll(t7, "ow", "o\U{28A}");
    KeepsAllThree(t7, "ow", "o\U{28A}");
    ReplaceAllRemoves(t8, '\U{261}', "g");
    KeepsAllThree(t8, "\U{261}", "g");
  }

  /** A replacement whose text holds none of ɹ, ɚ, ɝ keeps them out. */
  lemma KeepsAllThree(s: string, pat: string, rep: string)
    requires |pat| > 0
    requires '\U{279}' !in s && '\U{25A}' !in s && '\U{25D}' !in s
    requires '\U{279}' !in rep && '\U{25A}' !in rep && '\U{25D}' !in rep
    ensures var r := ReplaceAll(s, pat, rep);
      '\U{279}' !in r && '\U{25A}' !in r && '\U{25D}' !in r
  {
    ReplaceAllKeepsAbsent(s, pat, rep, '\U{279}');
    ReplaceAllKeepsAbsent(s, pat, rep, '\U{25A}');
    ReplaceAllKeepsAbsent(s, pat, rep, '\U{25D}');
  }

  /** The `phonetic` field for a lookup result: empty when the lookup has no
      text, otherwise the first alternative, normalised, between slashes. */
  function Phonetic(lookup: Option<string>): (r: string)
    ensures lookup.None? || lookup.value == "" ==> r == ""
    ensures lookup.Some? && lookup.value != "" ==>
      |r| >= 2 && r[0] == '/' && r[|r| - 1] == '/' && r[1..|r| - 1] == NormalizeSymbols(FirstAlternative(lookup.value))
    ensures HasNoRhoticOrScriptG(r)
  {
    match lookup
    case None => ""
    case Some(text) =>
      if text == "" then ""
      else
        var core := NormalizeSymbols(FirstAlternative(text));
        NormalizeSymbolsClean(FirstAlternative(text));
        "/" + core + "/"
  }

  /** A catalog word: the parsed entry with its pronunciation and syllable blocks. */
  function Enrich(e: Entry, lookup: string -> Option<string>, hyphenate: string -> seq<string>): (w: Word)
    ensures w.en == e.en && w.zh == e.zh
    ensures w.phonetic.Some? && HasNoRhoticOrScriptG(w.phonetic.value)
    ensures w.block == Some(hyphenate(e.en))
  {
    Word(e.en, e.zh, Some(Phonetic(lookup(e.en))), Some(hyphenate(e.en)))
  }

  function EnrichAll(es: seq<Entry>, lookup: string -> Option<string>, hyphenate: string -> seq<string>): (ws: seq<Word>)
    ensures |ws| == |es|
    ensures forall i | 0 <= i < |es| :: ws[i].en == es[i].en && ws[i].zh == es[i].zh
  {
    seq(|es|, i requires 0 <= i < |es| => Enrich(es[i], lookup, hyphenate))
  }

  /** The words of every unit, in unit order. */
  function UnitWords(units: seq<UnitData>): seq<seq<Word>> {
    seq(|units|, i requires 0 <= i < |units| => units[i].words)
  }

  /** The chunking loop of `main`, after the shuffle: units of ten words named
      "Unit 1", "Unit 2", ... at level "CET4", each word enriched with its
      pronunciation and syllable blocks. */
  method BuildUnits(words: seq<Entry>, lookup: string -> Option<string>, hyphenate: string -> seq<string>)
    returns (units: seq<UnitData>)
    ensures |units| == UnitCount(|words|)
    ensures forall i | 0 <= i < |units| :: units[i].level == Level && units[i].unit == UnitName(i)
    ensures forall i | 0 <= i < |units| :: ChunkSize * i <= |words| && units[i].words == EnrichAll(Chunk(words, i), lookup, hyphenate)
    ensures forall i | 0 <= i < |units| - 1 :: |units[i].words| == ChunkSize
    ensures forall i | 0 <= i < |units| :: 0 < |units[i].words| <= ChunkSize
    ensures Flatten(UnitWords(units)) == EnrichAll(words, lookup, hyphenate)
  {
    var totalUnits := UnitCount(|words|);
    units := [];
    var i := 0;
    while i < totalUnits
      invariant 0 <= i <= totalUnits
      invariant |units| == i
      invariant forall u | 0 <= u < i :: units[u].level == Level && units[u].unit == UnitName(u)
      invariant forall u | 0 <= u < i :: ChunkSize * u <= |words| && units[u].words == EnrichAll(Chunk(words, u), lookup, hyphenate)
    {
      ChunkLength(|words|, i);
      var chunk := Chunk(words, i);
      var unitWords: seq<Word> := [];
      var j := 0;
      while j < |chunk|
        invariant 0 <= j <= |chunk|
        invariant unitWords == EnrichAll(chunk[..j], lookup, hyphenate)
      {
        EnrichAllSnoc(chunk, j, lookup, hyphenate);
        unitWords := unitWords + [Enrich(chunk[j], lookup, hyphenate)];
        j := j + 1;
      }
      assert chunk[..j] == chunk;
      units := units + [UnitData(Level, UnitName(i), unitWords)];
      i := i + 1;
    }
    forall u | 0 <= u < |units| ensures 0 < |units[u].words| <= ChunkSize && (u < |units| - 1 ==> |units[u].words| == ChunkSize) {
      ChunkLength(|words|, u);
    }
    UnitsFlatten(words, units, lookup, hyphenate);
  }

  /** Every unit starts inside the list, is non-empty and holds at most ten
      words, exactly ten unless it is the last. */
  lemma ChunkLength(n: nat, i: nat)
    requires i < UnitCount(n)
    ensures ChunkSize * i < n
    ensures var len := (if ChunkSize * (i + 1) <= n then ChunkSize * (i + 1) else n) - ChunkSize * i;
      && 0 < len <= ChunkSize
      && (i < UnitCount(n) - 1 ==> len == ChunkSize)
  {
  }

  /** Enriching one more word appends its enrichment. */
  lemma EnrichAllSnoc(es: seq<Entry>, j: nat, lookup: string -> Option<string>, hyphenate: string -> seq<string>)
    requires j < |es|
    ensures EnrichAll(es[..j + 1], lookup, hyphenate) == EnrichAll(es[..j], lookup, hyphenate) + [Enrich(es[j], lookup, hyphenate)]
  {
  }

  /** Concatenating the units' words gives back the enriched list, in order. */
  lemma UnitsFlatten(words: seq<Entry>, units: seq<UnitData>, lookup: string -> Option<string>, hyphenate: string -> seq<string>)
    requires |units| == UnitCount(|words|)
    requires forall i | 0 <= i < |units| :: ChunkSize * i <= |words| && units[i].words == EnrichAll(Chunk(words, i), lookup, hyphenate)
    ensures Flatten(UnitWords(units)) == EnrichAll(words, lookup, hyphenate)
  {
    var ews := EnrichAll(words, lookup, hyphenate);
    var k := |units|;
    assert UnitWords(units) == seq(k, i requires 0 <= i < k => Chunk(ews, i)) by {
      forall i | 0 <= i < k ensures UnitWords(units)[i] == Chunk(ews, i) {
        EnrichChunk(words, i, lookup, hyphenate);
      }
    }
    FlattenChunks(ews, k);
    assert ews[..|ews|] == ews;
  }

  /** Enriching a chunk is taking that chunk of the enriched list. */
  lemma EnrichChunk(words: seq<Entry>, i: nat, lookup: string -> Option<string>, hyphenate: string -> seq<string>)
    requires ChunkSize * i <= |words|
    ensures EnrichAll(Chunk(words, i), lookup, hyphenate) == Chunk(EnrichAll(words, lookup, hyphenate), i)
  {
    var lo := ChunkSize * i;
    var hi := if ChunkSize * (i + 1) <= |words| then ChunkSize * (i + 1) else |words|;
    assert Chunk(words, i) == words[lo..hi];
    var ews := EnrichAll(words, lookup, hyphenate);
    assert Chunk(ews, i) == ews[lo..hi];
  }
}
