/**
 * `parseFile` of the CET-4 word-list builder: read the dictionary text line by
 * line, keep lines of the form "word  definition", drop function words and
 * one-letter words, and merge repeated words case-insensitively, keeping the
 * first spelling and the order of first occurrence.
 */
module Cet4Parse {
  import opened Wrappers
  import opened Text

  /** A parsed dictionary entry: the English word and its definition. */
  datatype Entry = Entry(en: string, zh: string)

  /** Function words never taught. */
  const Exclude: set<string> := {
    "in", "on", "at", "to", "of", "for", "by", "with", "up", "down",
    "from", "about", "into", "over", "after", "the", "and", "but",
    "or", "so", "is", "am", "are", "was", "were", "be", "been",
    "a", "an", "it", "he", "she", "they", "we", "you", "i"
  }

  /** The separator a repeated word's definitions are joined with. */
  const DefinitionSeparator := " ; "

  /** `[a-zA-Z\-]` */
  predicate IsWordChar(c: char) {
    'a' <= c <= 'z' || 'A' <= c <= 'Z' || c == '-'
  }

  /** The characters `.` does not match in a JavaScript regular expression. */
  predicate IsLineTerminator(c: char) {
    c == '\n' || c == '\r' || c == '\U{2028}' || c == '\U{2029}'
  }

  /** The end of the run of word characters starting at `i`. */
  function WordRun(s: string, i: nat): (n: nat)
    requires i <= |s|
    ensures i <= n <= |s|
    ensures forall k | i <= k < n :: IsWordChar(s[k])
    ensures n < |s| ==> !IsWordChar(s[n])
    decreases |s| - i
  {
    if i < |s| && IsWordChar(s[i]) then WordRun(s, i + 1) else i
  }

  /** The index of the first white-space character at or after `i` (or `|s|`). */
  function NextSpace(s: string, i: nat): (n: nat)
    requires i <= |s|
    ensures i <= n <= |s|
    ensures forall k | i <= k < n :: !IsSpace(s[k])
    ensures n < |s| ==> IsSpace(s[n])
    decreases |s| - i
  {
    if i < |s| && !IsSpace(s[i]) then NextSpace(s, i + 1) else i
  }

  /** `/^([a-zA-Z\-]+)\s+(.*)$/`. The first group can only be the whole
      leading run of word characters, since a shorter one is followed by a
      word character rather than white space; the white space after it is then
      taken greedily, and `(.*)$` matches exactly when the rest holds no line
      terminator (backing off the white space cannot help, as `(.*)` would
      still have to cover the rest). */
  function MatchWordLine(t: string): (r: Option<Entry>)
    ensures r.Some? ==> 0 < |r.value.en| && forall k | 0 <= k < |r.value.en| :: IsWordChar(r.value.en[k])
  {
    var n := WordRun(t, 0);
    var m := SkipSpaces(t, n);
    if 0 < n < m && forall k | m <= k < |t| :: !IsLineTerminator(t[k])
    then Some(Entry(t[..n], t[m..]))
    else None
  }

  /** The fallback: `parts = t.split(/\s+/)`. Only `parts[0]` (the text
      before the first white space) and whether there is a second part (there
      is exactly when `t` holds white space) are used. */
  function SplitFallback(t: string): (r: Option<Entry>)
    ensures r.Some? ==> 0 < |r.value.en| && forall k | 0 <= k < |r.value.en| :: IsWordChar(r.value.en[k])
  {
    var f := NextSpace(t, 0);
    if 0 < f < |t| && forall k | 0 <= k < f :: IsWordChar(t[k])
    then Some(Entry(t[..f], Trim(t[f..])))
    else None
  }

  /** The per-line match of `parseFile`. */
  function ParseLine(t: string): (r: Option<Entry>)
    ensures r.Some? ==> 0 < |r.value.en| && forall k | 0 <= k < |r.value.en| :: IsWordChar(r.value.en[k])
  {
    if MatchWordLine(t).Some? then MatchWordLine(t) else SplitFallback(t)
  }

  /** On a line starting with a word and white space, the fallback yields the
      word and the text after the white space. */
  lemma SplitFallbackAccepts(t: string, n: nat, m: nat)
    requires t != [] && !IsSpace(t[|t| - 1])
    requires n == WordRun(t, 0) && 0 < n < |t| && IsSpace(t[n]) && m == SkipSpaces(t, n)
    ensures m < |t| && SplitFallback(t) == Some(Entry(t[..n], t[m..]))
  {
    WordEndsAtSpace(t, n);
    TrimAfterWord(t, n, m);
  }

  /** The first white space of a line starting with a word and white space
      is the one right after the word. */
  lemma WordEndsAtSpace(t: string, n: nat)
    requires n == WordRun(t, 0) && n < |t| && IsSpace(t[n])
    ensures NextSpace(t, 0) == n
  {
    forall k | 0 <= k < n ensures !IsSpace(t[k]) {
      WordCharNotSpace(t[k]);
    }
  }

  /** What follows the word, trimmed, is the text after the white space. */
  lemma TrimAfterWord(t: string, n: nat, m: nat)
    requires t != [] && !IsSpace(t[|t| - 1])
    requires n < |t| && m == SkipSpaces(t, n)
    ensures m < |t| && Trim(t[n..]) == t[m..]
  {
    var last := |t| - 1;
    assert !IsSpace(t[last]);
    assert m < |t|;
    var gap, core := t[n..m], t[m..];
    assert AllSpace(gap) by {
      forall k | 0 <= k < |gap| ensures IsSpace(gap[k]) {
        assert gap[k] == t[n + k];
      }
    }
    assert core[0] == t[m] && core[|core| - 1] == t[|t| - 1];
    assert t[n..] == gap + core;
    assert gap + core + [] == gap + core;
    TrimOfPadded(gap, core, []);
  }

  /** Word characters are not white space. */
  lemma WordCharNotSpace(c: char)
    requires IsWordChar(c)
    ensures !IsSpace(c)
  {
  }

  /** Without a word followed by white space, the fallback rejects the line. */
  lemma SplitFallbackRejects(t: string, n: nat)
    requires n == WordRun(t, 0) && !(0 < n < |t| && IsSpace(t[n]))
    ensures SplitFallback(t).None?
  {
    var f := NextSpace(t, 0);
    assert (0 < f < |t| && forall k | 0 <= k < f :: IsWordChar(t[k])) ==> n == f;
  }

  /** On a trimmed line, the match accepts exactly the lines that start with a
      run of word characters followed by white space; the word is that run and
      the definition is everything after the white space, never empty. */
  lemma ParseLineShape(t: string)
    requires t != [] && !IsSpace(t[0]) && !IsSpace(t[|t| - 1])
    ensures var n := WordRun(t, 0);
      ParseLine(t).Some? <==> 0 < n < |t| && IsSpace(t[n])
    ensures var n := WordRun(t, 0);
      ParseLine(t).Some? ==>
        SkipSpaces(t, n) < |t| && ParseLine(t).value == Entry(t[..n], t[SkipSpaces(t, n)..])
  {
    var n := WordRun(t, 0);
    var m := SkipSpaces(t, n);
    if 0 < n < |t| && IsSpace(t[n]) {
      SplitFallbackAccepts(t, n, m);
    } else {
      assert MatchWordLine(t).None?;
      SplitFallbackRejects(t, n);
    }
  }

  /** `String.prototype.toLowerCase` of the word: the key words are merged by. */
  function Key(e: Entry): string {
    ToLower(e.en)
  }

  /** What one line contributes: the trimmed line's entry, unless the line is
      blank, does not match, or holds an excluded or one-letter word. */
  function Accepted(line: string): (r: Option<Entry>)
    ensures r.Some? ==> Key(r.value) !in Exclude && |r.value.en| >= 2 && r.value.zh != ""
    ensures r.Some? ==> forall k | 0 <= k < |r.value.en| :: IsWordChar(r.value.en[k])
    ensures r.Some? ==> Trim(line) != "" && r == ParseLine(Trim(line))
    ensures Trim(line) != "" && ParseLine(Trim(line)).Some? && ParseLine(Trim(line)).value.zh != ""
      && Key(ParseLine(Trim(line)).value) !in Exclude && |ParseLine(Trim(line)).value.en| >= 2
      ==> r.Some?
  {
    var trimmed := Trim(line);
    if trimmed == "" then None
    else match ParseLine(trimmed)
      case None => None
      case Some(e) =>
        if e.en == "" || e.zh == "" then None
        else if Key(e) in Exclude then None
        else if |e.en| < 2 then None
        else Some(e)
  }

  /** What a line may contribute to the catalog. */
  predicate Admissible(c: Option<Entry>) {
    c.Some? ==>
      && Key(c.value) !in Exclude && |c.value.en| >= 2 && c.value.zh != ""
      && forall k | 0 <= k < |c.value.en| :: IsWordChar(c.value.en[k])
  }

  /** What each line contributes, in file order. */
  function Contributions(lines: seq<string>): (cs: seq<Option<Entry>>)
    ensures |cs| == |lines|
    ensures forall i | 0 <= i < |lines| :: cs[i] == Accepted(lines[i]) && Admissible(cs[i])
  {
    seq(|lines|, i requires 0 <= i < |lines| => Accepted(lines[i]))
  }

  /** A repeated word's definition: appended after the separator unless it
      already occurs in the stored one. */
  function MergeDefinition(existing: string, zh: string): (r: string)
    ensures Contains(r, zh)
    ensures existing <= r
    ensures Contains(existing, zh) ==> r == existing
    ensures !Contains(existing, zh) ==> r == existing + DefinitionSeparator + zh
  {
    if Contains(existing, zh) then existing
    else
      ContainsSuffix(existing + DefinitionSeparator, zh);
      existing + DefinitionSeparator + zh
  }

  /** The insertion-ordered map `wordsMap`: its keys in insertion order and its entries. */
  datatype Table = Table(order: seq<string>, byKey: map<string, Entry>)

  /** `wordsMap` after one more line's contribution. */
  function Step(t: Table, c: Option<Entry>): (r: Table)
    ensures c.None? ==> r == t
    ensures t.order <= r.order && |r.order| <= |t.order| + 1
    ensures forall k | k in t.byKey :: k in r.byKey
    ensures c.Some? ==> Key(c.value) in r.byKey
    ensures c.Some? && Key(c.value) !in t.byKey ==>
      r.order == t.order + [Key(c.value)] && r.byKey[Key(c.value)] == c.value
    ensures c.Some? && Key(c.value) in t.byKey ==>
      && r.order == t.order
      && r.byKey[Key(c.value)].en == t.byKey[Key(c.value)].en
      && r.byKey[Key(c.value)].zh == MergeDefinition(t.byKey[Key(c.value)].zh, c.value.zh)
    ensures forall k | k in t.byKey && (c.None? || k != Key(c.value)) :: r.byKey[k] == t.byKey[k]
    ensures r.byKey.Keys == t.byKey.Keys + (if c.Some? then {Key(c.value)} else {})
  {
    match c
    case None => t
    case Some(e) =>
      var k := Key(e);
      if k in t.byKey then t.(byKey := t.byKey[k := t.byKey[k].(zh := MergeDefinition(t.byKey[k].zh, e.zh))])
      else Table(t.order + [k], t.byKey[k := e])
  }

  /** `wordsMap` after the given contributions. */
  function Collect(cs: seq<Option<Entry>>): Table {
    if cs == [] then Table([], map[])
    else Step(Collect(cs[..|cs| - 1]), cs[|cs| - 1])
  }

  /** The table's shape: each key listed once, the listed keys are the map's
      keys, and each entry is stored under its lower-cased word. */
  predicate WellFormed(t: Table) {
    && (forall i, j | 0 <= i < j < |t.order| :: t.order[i] != t.order[j])
    && (forall k | k in t.byKey :: k in t.order)
    && (forall i | 0 <= i < |t.order| :: t.order[i] in t.byKey)
    && (forall k | k in t.byKey :: Key(t.byKey[k]) == k)
  }

  /** `Array.from(wordsMap.values())`: the entries in insertion order. */
  function Entries(t: Table): (r: seq<Entry>)
    requires WellFormed(t)
    ensures |r| == |t.order|
    ensures forall i | 0 <= i < |r| :: r[i] == t.byKey[t.order[i]] && Key(r[i]) == t.order[i]
  {
    seq(|t.order|, i requires 0 <= i < |t.order| && WellFormed(t) => t.byKey[t.order[i]])
  }

  /** Removes a leading byte-order mark. */
  function StripBom(content: string): (r: string)
    ensures content == r || content == ['\U{FEFF}'] + r
    ensures r != content <==> |content| > 0 && content[0] == '\U{FEFF}'
  {
    if |content| > 0 && content[0] == '\U{FEFF}' then content[1..] else content
  }

  /** The list `parseFile` returns for the given file content. */
  function Catalog(content: string): seq<Entry> {
    var cs := Contributions(Split(StripBom(content), '\n'));
    CollectWellFormed(cs);
    Entries(Collect(cs))
  }

  // ---------------------------------------------------------------------
  // Properties of the fold

  /** The table stays well formed and holds only admissible entries. */
  lemma {:induction false} CollectWellFormed(cs: seq<Option<Entry>>)
    requires forall i | 0 <= i < |cs| :: Admissible(cs[i])
    ensures WellFormed(Collect(cs))
    ensures forall k | k in Collect(cs).byKey :: Admissible(Some(Collect(cs).byKey[k]))
    decreases |cs|
  {
    if cs != [] {
      CollectWellFormed(cs[..|cs| - 1]);
      StepWellFormed(Collect(cs[..|cs| - 1]), cs[|cs| - 1]);
    }
  }

  /** One step keeps the table well formed and its entries admissible. */
  lemma StepWellFormed(t: Table, c: Option<Entry>)
    requires WellFormed(t) && Admissible(c)
    requires forall k | k in t.byKey :: Admissible(Some(t.byKey[k]))
    ensures WellFormed(Step(t, c))
    ensures forall k | k in Step(t, c).byKey :: Admissible(Some(Step(t, c).byKey[k]))
  {
    if c.Some? {
      if Key(c.value) in t.byKey {
        MergeWellFormed(t, Key(c.value), c.value.zh);
      } else {
        InsertWellFormed(t, c.value);
      }
    }
  }

  /** Merging a definition into a stored word keeps the table's shape. */
  lemma MergeWellFormed(t: Table, k: string, zh: string)
    requires WellFormed(t) && k in t.byKey
    requires forall k' | k' in t.byKey :: Admissible(Some(t.byKey[k']))
    ensures var t' := t.(byKey := t.byKey[k := t.byKey[k].(zh := MergeDefinition(t.byKey[k].zh, zh))]);
      && WellFormed(t')
      && forall k' | k' in t'.byKey :: Admissible(Some(t'.byKey[k']))
  {
    var e := t.byKey[k];
    var e' := e.(zh := MergeDefinition(e.zh, zh));
    assert Key(e') == Key(e);
    assert Admissible(Some(e));
    assert e.zh <= e'.zh;
    assert Admissible(Some(e'));
  }

  /** Adding a new word at the end keeps the table's shape. */
  lemma InsertWellFormed(t: Table, e: Entry)
    requires WellFormed(t) && Key(e) !in t.byKey && Admissible(Some(e))
    requires forall k' | k' in t.byKey :: Admissible(Some(t.byKey[k']))
    ensures var t' := Table(t.order + [Key(e)], t.byKey[Key(e) := e]);
      && WellFormed(t')
      && forall k' | k' in t'.byKey :: Admissible(Some(t'.byKey[k']))
  {
    var k := Key(e);
    assert forall i | 0 <= i < |t.order| :: t.order[i] != k;
  }

  /** The index of the first contribution with key `k` (`|cs|` if none). */
  function FirstIndex(cs: seq<Option<Entry>>, k: string): (i: nat)
    ensures i <= |cs|
    ensures i < |cs| ==> cs[i].Some? && Key(cs[i].value) == k
    ensures forall j | 0 <= j < i :: cs[j].None? || Key(cs[j].value) != k
  {
    if cs == [] then 0
    else if cs[0].Some? && Key(cs[0].value) == k then 0
    else 1 + FirstIndex(cs[1..], k)
  }

  /** The first occurrence of a key in a longer list. */
  lemma FirstIndexSnoc(cs: seq<Option<Entry>>, k: string)
    requires cs != []
    ensures var p := cs[..|cs| - 1];
      FirstIndex(cs, k) ==
        if FirstIndex(p, k) < |p| then FirstIndex(p, k)
        else if cs[|cs| - 1].Some? && Key(cs[|cs| - 1].value) == k then |p|
        else |cs|
  {
    var p := cs[..|cs| - 1];
    var f, g := FirstIndex(p, k), FirstIndex(cs, k);
    assert forall j | 0 <= j < |p| :: p[j] == cs[j];
  }

  /** `FirstIndex` on a longer list, for every key at once. */
  lemma FirstIndexSnocAll(cs: seq<Option<Entry>>)
    requires cs != []
    ensures forall k ::
              FirstIndex(cs, k) ==
                if FirstIndex(cs[..|cs| - 1], k) < |cs| - 1 then FirstIndex(cs[..|cs| - 1], k)
                else if cs[|cs| - 1].Some? && Key(cs[|cs| - 1].value) == k then |cs| - 1 else |cs|
  {
    forall k
      ensures FirstIndex(cs, k) ==
        if FirstIndex(cs[..|cs| - 1], k) < |cs| - 1 then FirstIndex(cs[..|cs| - 1], k)
        else if cs[|cs| - 1].Some? && Key(cs[|cs| - 1].value) == k then |cs| - 1 else |cs|
    {
      FirstIndexSnoc(cs, k);
    }
  }

  /** The catalog holds a word exactly when some line contributes it. */
  lemma {:induction false} CollectKeys(cs: seq<Option<Entry>>)
    ensures forall k :: k in Collect(cs).byKey <==> FirstIndex(cs, k) < |cs|
    decreases |cs|
  {
    if cs != [] {
      CollectKeys(cs[..|cs| - 1]);
      FirstIndexSnocAll(cs);
    }
  }

  /** The catalog keeps the spelling of the first line that contributes a word. */
  lemma {:induction false} CollectFirstSpelling(cs: seq<Option<Entry>>)
    ensures forall k | k in Collect(cs).byKey ::
      FirstIndex(cs, k) < |cs| && Collect(cs).byKey[k].en == cs[FirstIndex(cs, k)].value.en
    decreases |cs|
  {
    if cs != [] {
      var p := cs[..|cs| - 1];
      var t := Collect(p);
      CollectFirstSpelling(p);
      CollectKeys(p);
      forall k | k in Collect(cs).byKey
        ensures FirstIndex(cs, k) < |cs| && Collect(cs).byKey[k].en == cs[FirstIndex(cs, k)].value.en
      {
        FirstIndexSnoc(cs, k);
        if k in t.byKey {
          assert p[FirstIndex(p, k)] == cs[FirstIndex(p, k)];
        }
      }
    }
  }

  /** The catalog lists the words in the order of the first lines that contribute them. */
  lemma {:induction false} CollectFirstOrder(cs: seq<Option<Entry>>)
    ensures forall a, b | 0 <= a < b < |Collect(cs).order| ::
      FirstIndex(cs, Collect(cs).order[a]) < FirstIndex(cs, Collect(cs).order[b])
    decreases |cs|
  {
    if cs != [] {
      var p := cs[..|cs| - 1];
      var t := Collect(p);
      var t' := Collect(cs);
      CollectFirstOrder(p);
      ListedFirstIndexSnoc(cs);
      CollectOrderSnoc(cs);
      forall a, b | 0 <= a < b < |t'.order| ensures FirstIndex(cs, t'.order[a]) < FirstIndex(cs, t'.order[b]) {
        var x, y := t'.order[a], t'.order[b];
        assert a < |t.order| && x == t.order[a];
        if b < |t.order| {
          assert y == t.order[b];
          assert FirstIndex(p, x) < FirstIndex(p, y);
        } else {
          assert FirstIndex(cs, x) < |p| == FirstIndex(cs, y);
        }
      }
    }
  }

  /** A listed key first occurs, in a longer list, where it first occurred before. */
  lemma ListedFirstIndexSnoc(cs: seq<Option<Entry>>)
    requires cs != []
    ensures var p := cs[..|cs| - 1]; var o := Collect(p).order;
      forall a | 0 <= a < |o| :: FirstIndex(cs, o[a]) == FirstIndex(p, o[a]) < |p|
  {
    var p := cs[..|cs| - 1];
    var t := Collect(p);
    CollectKeys(p);
    CollectWellFormedShape(p);
    forall a | 0 <= a < |t.order| ensures FirstIndex(cs, t.order[a]) == FirstIndex(p, t.order[a]) < |p| {
      assert t.order[a] in t.byKey;
      FirstIndexSnoc(cs, t.order[a]);
    }
  }

  /** One more contribution either keeps the key list or appends a key first seen in that line. */
  lemma CollectOrderSnoc(cs: seq<Option<Entry>>)
    requires cs != []
    ensures var t, t' := Collect(cs[..|cs| - 1]), Collect(cs);
      t'.order == t.order || (|t'.order| == |t.order| + 1 && t'.order[..|t.order|] == t.order
                              && FirstIndex(cs, t'.order[|t.order|]) == |cs| - 1)
  {
    var p := cs[..|cs| - 1];
    var t := Collect(p);
    assert Collect(cs) == Step(t, cs[|cs| - 1]);
    match cs[|cs| - 1]
    case None =>
    case Some(e) =>
      if Key(e) !in t.byKey {
        CollectKeys(p);
        FirstIndexSnoc(cs, Key(e));
      }
  }

  /** Every listed key is in the map and every key in the map is listed. */
  lemma {:induction false} CollectWellFormedShape(cs: seq<Option<Entry>>)
    ensures forall i | 0 <= i < |Collect(cs).order| :: Collect(cs).order[i] in Collect(cs).byKey
    ensures forall k | k in Collect(cs).byKey :: k in Collect(cs).order
    decreases |cs|
  {
    if cs != [] {
      var p := cs[..|cs| - 1];
      CollectWellFormedShape(p);
      var t, t' := Collect(p), Collect(cs);
      assert t' == Step(t, cs[|cs| - 1]);
      forall k | k in t'.byKey ensures k in t'.order {
        if k in t.byKey {
          var i :| 0 <= i < |t.order| && t.order[i] == k;
          assert t'.order[i] == k;
        }
      }
    }
  }

  /** Every definition contributed for a word survives in its stored definition. */
  lemma {:induction false} CollectKeepsDefinitions(cs: seq<Option<Entry>>, i: nat)
    requires i < |cs| && cs[i].Some?
    ensures Key(cs[i].value) in Collect(cs).byKey
    ensures Contains(Collect(cs).byKey[Key(cs[i].value)].zh, cs[i].value.zh)
    decreases |cs|
  {
    var p := cs[..|cs| - 1];
    var e := cs[i].value;
    if i == |cs| - 1 {
      if Key(e) !in Collect(p).byKey {
        ContainsSelf(e.zh);
      }
    } else {
      assert p[i] == cs[i];
      CollectKeepsDefinitions(p, i);
      var oldZh := Collect(p).byKey[Key(e)].zh;
      var newZh := Collect(cs).byKey[Key(e)].zh;
      assert oldZh <= newZh;
      assert newZh == oldZh + newZh[|oldZh|..];
      ContainsExtend(oldZh, newZh[|oldZh|..], e.zh);
    }
  }

  /** The output of `parseFile` holds one entry per lower-cased word, none of
      them excluded or shorter than two letters. */
  lemma CatalogEntries(content: string)
    ensures var ws := Catalog(content);
      && (forall i, j | 0 <= i < j < |ws| :: Key(ws[i]) != Key(ws[j]))
      && (forall i | 0 <= i < |ws| :: Key(ws[i]) !in Exclude && |ws[i].en| >= 2 && ws[i].zh != "")
  {
    var cs := Contributions(Split(StripBom(content), '\n'));
    CollectWellFormed(cs);
    EntriesShape(Collect(cs));
  }

  /** The entries of a well-formed table of admissible entries. */
  lemma EntriesShape(t: Table)
    requires WellFormed(t)
    requires forall k | k in t.byKey :: Admissible(Some(t.byKey[k]))
    ensures var ws := Entries(t);
      && (forall i, j | 0 <= i < j < |ws| :: Key(ws[i]) != Key(ws[j]))
      && (forall i | 0 <= i < |ws| :: Key(ws[i]) !in Exclude && |ws[i].en| >= 2 && ws[i].zh != "")
  {
    var ws := Entries(t);
    assert forall i | 0 <= i < |ws| :: ws[i] == t.byKey[t.order[i]] && Key(ws[i]) == t.order[i];
  }

  /** Removing the byte-order mark changes nothing: `trim` already strips
      U+FEFF from the first line. */
  lemma StripBomRedundant(content: string)
    requires |content| > 0 && content[0] == '\U{FEFF}'
    ensures Contributions(Split(content, '\n')) == Contributions(Split(content[1..], '\n'))
  {
    var rest := Split(content[1..], '\n');
    var lines := Split(content, '\n');
    SplitLeadingChar(content, '\n');
    forall i | 0 <= i < |lines| ensures Accepted(lines[i]) == Accepted(rest[i]) {
      if i == 0 {
        BomLineAccepted(rest[0]);
      } else {
        ConsTail(lines, [content[0]] + rest[0], rest, i);
      }
    }
    ContributionsAgree(lines, rest);
  }

  /** A leading character other than the separator joins the first piece. */
  lemma SplitLeadingChar(s: string, sep: char)
    requires |s| > 0 && s[0] != sep
    ensures Split(s, sep) == [[s[0]] + Split(s[1..], sep)[0]] + Split(s[1..], sep)[1..]
  {
  }

  /** A line and the same line after a byte-order mark contribute the same. */
  lemma BomLineAccepted(x: string)
    ensures Accepted(['\U{FEFF}'] + x) == Accepted(x)
  {
    TrimIgnoresPadding(['\U{FEFF}'], x, []);
    assert ['\U{FEFF}'] + x + [] == ['\U{FEFF}'] + x;
  }

  /** Lists that differ only in their head agree past it. */
  lemma ConsTail<T>(xs: seq<T>, h: T, ys: seq<T>, i: nat)
    requires |ys| > 0 && xs == [h] + ys[1..] && 0 < i < |xs|
    ensures xs[i] == ys[i]
  {
  }

  /** Lines contributing the same, one by one, contribute the same list. */
  lemma ContributionsAgree(l1: seq<string>, l2: seq<string>)
    requires |l1| == |l2|
    requires forall i | 0 <= i < |l1| :: Accepted(l1[i]) == Accepted(l2[i])
    ensures Contributions(l1) == Contributions(l2)
  {
  }

  /** The fold over one more contribution is one more step. */
  lemma CollectPrefix(cs: seq<Option<Entry>>, i: nat)
    requires i < |cs|
    ensures Collect(cs[..i + 1]) == Step(Collect(cs[..i]), cs[i])
  {
    assert cs[..i + 1][..i] == cs[..i];
  }

  /** One iteration of `parseFile`'s loop: fold one line into the
      insertion-ordered map `wordsMap`, whose keys in insertion order are `order`. */
  method AddLine(order: seq<string>, wordsMap: map<string, Entry>, line: string)
    returns (order': seq<string>, wordsMap': map<string, Entry>)
    ensures Table(order', wordsMap') == Step(Table(order, wordsMap), Accepted(line))
  {
    order', wordsMap' := order, wordsMap;
    ghost var c := Accepted(line);
    var trimmed := Trim(line);
    if trimmed == "" {
      return;
    }
    var matched := ParseLine(trimmed);
    if matched.None? {
      return;
    }
    var en, zh := matched.value.en, matched.value.zh;
    if en != "" && zh != "" {
      var enLower := ToLower(en);
      if enLower in Exclude {
        return;
      }
      if |en| < 2 {
        return;
      }
      assert c == matched && Key(c.value) == enLower;
      if enLower in wordsMap {
        var existing := wordsMap[enLower];
        if !Contains(existing.zh, zh) {
          wordsMap' := wordsMap[enLower := existing.(zh := existing.zh + DefinitionSeparator + zh)];
        }
      } else {
        wordsMap' := wordsMap[enLower := Entry(en, zh)];
        order' := order + [enLower];
      }
    }
  }

  /** `parseFile` without the file read: strip the byte-order mark, split
      into lines, and fold every line into the insertion-ordered map. */
  method ParseFile(content0: string) returns (words: seq<Entry>)
    ensures words == Catalog(content0)
    ensures forall i, j | 0 <= i < j < |words| :: Key(words[i]) != Key(words[j])
    ensures forall i | 0 <= i < |words| :: Key(words[i]) !in Exclude && |words[i].en| >= 2
  {
    var content := content0;
    if |content| > 0 && content[0] == '\U{FEFF}' {
      content := content[1..];
    }
    var lines := Split(content, '\n');
    var order: seq<string> := [];
    var wordsMap: map<string, Entry> := map[];
    ghost var cs := Contributions(lines);
    var i := 0;
    while i < |lines|
      invariant 0 <= i <= |lines|
      invariant Table(order, wordsMap) == Collect(cs[..i])
    {
      CollectPrefix(cs, i);
      order, wordsMap := AddLine(order, wordsMap, lines[i]);
      i := i + 1;
    }
    assert content == StripBom(content0);
    assert cs[..i] == cs;
    CollectWellFormed(cs);
    words := Entries(Table(order, wordsMap));
    CatalogEntries(content0);
  }
}
