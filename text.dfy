/**
 * The JavaScript string built-ins the core relies on: `trim`, `toLowerCase`,
 * `includes`, `split` on one character, a global `replace` of a literal
 * pattern, and the decimal form of a number in a template string.
 */
module Text {
  import opened Wrappers

  /** The characters JavaScript counts as white space or line terminators:
      what `String.prototype.trim` strips and what `\s` matches. */
  predicate IsSpace(c: char) {
    c == '\t' || c == '\n' || c == '\U{B}' || c == '\U{C}' || c == '\r' || c == ' '
    || c == '\U{A0}' || c == '\U{1680}' || ('\U{2000}' <= c <= '\U{200A}')
    || c == '\U{2028}' || c == '\U{2029}' || c == '\U{202F}' || c == '\U{205F}'
    || c == '\U{3000}' || c == '\U{FEFF}'
  }

  predicate AllSpace(s: string) {
    forall i | 0 <= i < |s| :: IsSpace(s[i])
  }

  /** The index of the first non-space character at or after `i` (or `|s|`). */
  function SkipSpaces(s: string, i: nat): (n: nat)
    requires i <= |s|
    ensures i <= n <= |s|
    ensures forall k | i <= k < n :: IsSpace(s[k])
    ensures n < |s| ==> !IsSpace(s[n])
    decreases |s| - i
  {
    if i < |s| && IsSpace(s[i]) then SkipSpaces(s, i + 1) else i
  }

  /** The index just after the last non-space character before `j` (or 0). */
  function BackSpaces(s: string, j: nat): (n: nat)
    requires j <= |s|
    ensures n <= j
    ensures forall k | n <= k < j :: IsSpace(s[k])
    ensures 0 < n ==> !IsSpace(s[n - 1])
  {
    if 0 < j && IsSpace(s[j - 1]) then BackSpaces(s, j - 1) else j
  }

  /** `String.prototype.trim`: the text between the leading and the trailing white space. */
  function Trim(s: string): (r: string)
    ensures r == [] || (!IsSpace(r[0]) && !IsSpace(r[|r| - 1]))
  {
    var a, b := SkipSpaces(s, 0), BackSpaces(s, |s|);
    if a < b then s[a..b] else ""
  }

  /** Trimming is determined by the shape of the input: white space, then a
      core that starts and ends with a non-space character, then white space. */
  lemma TrimOfPadded(w1: string, x: string, w2: string)
    requires AllSpace(w1) && AllSpace(w2)
    requires x == [] || (!IsSpace(x[0]) && !IsSpace(x[|x| - 1]))
    ensures Trim(w1 + x + w2) == x
  {
    var s := w1 + x + w2;
    var a, b := SkipSpaces(s, 0), BackSpaces(s, |s|);
    if x == [] {
      assert AllSpace(s);
      assert a == |s|;
    } else {
      assert s[|w1|] == x[0];
      assert s[|w1| + |x| - 1] == x[|x| - 1];
      assert forall k | 0 <= k < |w1| :: s[k] == w1[k];
      assert forall k | |w1| + |x| <= k < |s| :: s[k] == w2[k - |w1| - |x|];
      assert a == |w1|;
      assert b == |w1| + |x|;
      assert s[a..b] == x;
    }
  }

  /** The text around the trimmed core is white space. */
  lemma TrimParts(s: string) returns (a: nat)
    ensures a + |Trim(s)| <= |s|
    ensures s == s[..a] + Trim(s) + s[a + |Trim(s)|..]
    ensures AllSpace(s[..a]) && AllSpace(s[a + |Trim(s)|..])
  {
    var b := BackSpaces(s, |s|);
    a := SkipSpaces(s, 0);
    if a < b {
      assert Trim(s) == s[a..b];
      SliceThree(s, a, b);
      SliceAllSpace(s, 0, a);
      SliceAllSpace(s, b, |s|);
    } else {
      assert Trim(s) == [];
      assert a == |s|;
      a := 0;
      assert s == s[..0] + [] + s[0..];
      SliceAllSpace(s, 0, 0);
      SliceAllSpace(s, 0, |s|);
    }
  }

  /** A text is its three slices around two cut points. */
  lemma SliceThree(s: string, a: nat, b: nat)
    requires a <= b <= |s|
    ensures s == s[..a] + s[a..b] + s[b..]
  {
  }

  /** A slice whose characters are all white space. */
  lemma SliceAllSpace(s: string, i: nat, j: nat)
    requires i <= j <= |s|
    requires forall k | i <= k < j :: IsSpace(s[k])
    ensures AllSpace(s[i..j])
  {
    forall k | 0 <= k < j - i ensures IsSpace(s[i..j][k]) {
      assert s[i..j][k] == s[i + k];
    }
  }

  /** Trimming twice is trimming once. */
  lemma TrimIdempotent(s: string)
    ensures Trim(Trim(s)) == Trim(s)
  {
    TrimOfPadded([], Trim(s), []);
    assert [] + Trim(s) + [] == Trim(s);
  }

  /** White space around a string does not survive trimming. */
  lemma TrimIgnoresPadding(w1: string, x: string, w2: string)
    requires AllSpace(w1) && AllSpace(w2)
    ensures Trim(w1 + x + w2) == Trim(x)
  {
    var r := Trim(x);
    var a := TrimParts(x);
    var u, v := x[..a], x[a + |r|..];
    Regroup(w1, u, r, v, w2);
    AllSpaceAppend(w1, u);
    AllSpaceAppend(v, w2);
    TrimOfPadded(w1 + u, r, v + w2);
  }

  /** Moving the padding next to the core. */
  lemma Regroup(w1: string, u: string, r: string, v: string, w2: string)
    ensures w1 + (u + r + v) + w2 == (w1 + u) + r + (v + w2)
  {
  }

  /** White space followed by white space is white space. */
  lemma AllSpaceAppend(u: string, v: string)
    requires AllSpace(u) && AllSpace(v)
    ensures AllSpace(u + v)
  {
    forall k | 0 <= k < |u + v| ensures IsSpace((u + v)[k]) {
      if k < |u| {
        assert (u + v)[k] == u[k];
      } else {
        assert (u + v)[k] == v[k - |u|];
      }
    }
  }

  /** `toLowerCase` on one character, for the ASCII letters. */
  function LowerChar(c: char): char {
    if 'A' <= c <= 'Z' then (c as int + 32) as char else c
  }

  /** `String.prototype.toLowerCase`, restricted to ASCII letters. */
  function ToLower(s: string): string {
    seq(|s|, i requires 0 <= i < |s| => LowerChar(s[i]))
  }

  /** Lower-casing keeps the length, leaves no upper-case ASCII letter, and
      changes nothing else. */
  lemma ToLowerShape(s: string)
    ensures |ToLower(s)| == |s|
    ensures forall i | 0 <= i < |s| :: !('A' <= ToLower(s)[i] <= 'Z')
    ensures forall i | 0 <= i < |s| :: !('A' <= s[i] <= 'Z') ==> ToLower(s)[i] == s[i]
    ensures forall i | 0 <= i < |s| :: 'A' <= s[i] <= 'Z' ==> ToLower(s)[i] as int == s[i] as int + 32
  {
  }

  /** Lower-casing and trimming commute: lower-casing never creates or removes white space. */
  lemma TrimToLowerCommute(s: string)
    ensures Trim(ToLower(s)) == ToLower(Trim(s))
  {
    var r := Trim(s);
    var a := TrimParts(s);
    var w1, w2 := s[..a], s[a + |r|..];
    assert s == w1 + r + w2;
    LowerPaddedCore(w1, r, w2);
  }

  /** Lower-casing a padded core and trimming gives the core lower-cased. */
  lemma LowerPaddedCore(w1: string, r: string, w2: string)
    requires AllSpace(w1) && AllSpace(w2)
    requires r == [] || (!IsSpace(r[0]) && !IsSpace(r[|r| - 1]))
    ensures Trim(ToLower(w1 + r + w2)) == ToLower(r)
  {
    ToLowerPadded(w1, r, w2);
    if r != [] {
      LowerCharKeepsSpace(r[0]);
      LowerCharKeepsSpace(r[|r| - 1]);
    }
    TrimOfPadded(w1, ToLower(r), w2);
  }

  /** Lower-casing a padded text lower-cases the text and keeps the padding. */
  lemma ToLowerPadded(w1: string, r: string, w2: string)
    requires AllSpace(w1) && AllSpace(w2)
    ensures ToLower(w1 + r + w2) == w1 + ToLower(r) + w2
  {
    ToLowerAppend(w1 + r, w2);
    ToLowerAppend(w1, r);
    ToLowerKeepsSpace(w1);
    ToLowerKeepsSpace(w2);
  }

  /** Lower-casing a character neither creates nor removes white space. */
  lemma LowerCharKeepsSpace(c: char)
    ensures IsSpace(LowerChar(c)) <==> IsSpace(c)
  {
  }

  /** Lower-casing works character by character. */
  lemma ToLowerAppend(x: string, y: string)
    ensures ToLower(x + y) == ToLower(x) + ToLower(y)
  {
  }

  /** White space has no case. */
  lemma ToLowerKeepsSpace(w: string)
    requires AllSpace(w)
    ensures ToLower(w) == w
  {
  }

  /** `needle` occurs in `hay` starting at index `i`. */
  predicate OccursAt(hay: string, needle: string, i: int) {
    0 <= i && i + |needle| <= |hay| && hay[i..i + |needle|] == needle
  }

  /** `String.prototype.indexOf`: the first index where `needle` occurs, if any. */
  function Find(hay: string, needle: string): (r: Option<nat>)
    ensures r.Some? ==> OccursAt(hay, needle, r.value)
    ensures r.Some? ==> forall j | 0 <= j < r.value :: !OccursAt(hay, needle, j)
    ensures r.None? ==> forall j :: !OccursAt(hay, needle, j)
    decreases |hay|
  {
    if needle <= hay then
      assert hay[0..|needle|] == needle;
      Some(0)
    else if |hay| == 0 then None
    else
      var r := Find(hay[1..], needle);
      assert forall j | 1 <= j :: OccursAt(hay, needle, j) == OccursAt(hay[1..], needle, j - 1);
      match r
      case None => None
      case Some(k) => Some(k + 1)
  }

  /** `String.prototype.includes`. */
  predicate Contains(hay: string, needle: string) {
    Find(hay, needle).Some?
  }

  /** Whatever occurs in a string still occurs once more text is appended to it. */
  lemma ContainsExtend(hay: string, more: string, needle: string)
    requires Contains(hay, needle)
    ensures Contains(hay + more, needle)
  {
    var i := Find(hay, needle).value;
    assert (hay + more)[i..i + |needle|] == hay[i..i + |needle|];
    assert OccursAt(hay + more, needle, i);
  }

  /** Every string occurs in itself. */
  lemma ContainsSelf(s: string)
    ensures Contains(s, s)
  {
    assert OccursAt(s, s, 0);
  }

  /** A string occurs in any string that ends with it. */
  lemma ContainsSuffix(front: string, s: string)
    ensures Contains(front + s, s)
  {
    assert (front + s)[|front|..|front| + |s|] == s;
    assert OccursAt(front + s, s, |front|);
  }

  /** `s.replace(/pat/g, rep)` for a literal pattern: left to right,
      non-overlapping occurrences. */
  function ReplaceAll(s: string, pat: string, rep: string): string
    requires |pat| > 0
    decreases |s|
  {
    if |s| == 0 then ""
    else if pat <= s then rep + ReplaceAll(s[|pat|..], pat, rep)
    else [s[0]] + ReplaceAll(s[1..], pat, rep)
  }

  /** A text in which the pattern never occurs is left as it is. */
  lemma {:induction false} ReplaceAllNoMatch(s: string, pat: string, rep: string)
    requires |pat| > 0 && forall j :: !OccursAt(s, pat, j)
    ensures ReplaceAll(s, pat, rep) == s
    decreases |s|
  {
    if |s| > 0 {
      assert !OccursAt(s, pat, 0);
      forall j ensures !OccursAt(s[1..], pat, j) {
        if OccursAt(s[1..], pat, j) {
          assert s[1..][j..j + |pat|] == s[j + 1..j + 1 + |pat|];
          assert OccursAt(s, pat, j + 1);
        }
      }
      ReplaceAllNoMatch(s[1..], pat, rep);
    }
  }

  /** Replacing a one-character pattern by text without that character removes it entirely. */
  lemma {:induction false} ReplaceAllRemoves(s: string, c: char, rep: string)
    requires c !in rep
    ensures c !in ReplaceAll(s, [c], rep)
    decreases |s|
  {
    if |s| > 0 {
      if [c] <= s {
        ReplaceAllRemoves(s[1..], c, rep);
      } else {
        assert s[0] != c;
        ReplaceAllRemoves(s[1..], c, rep);
      }
    }
  }

  /** A replacement never introduces a character that neither the text nor the replacement holds. */
  lemma {:induction false} ReplaceAllKeepsAbsent(s: string, pat: string, rep: string, c: char)
    requires |pat| > 0 && c !in s && c !in rep
    ensures c !in ReplaceAll(s, pat, rep)
    decreases |s|
  {
    if |s| > 0 {
      if pat <= s {
        assert c !in s[|pat|..];
        ReplaceAllKeepsAbsent(s[|pat|..], pat, rep, c);
      } else {
        assert c !in s[1..];
        ReplaceAllKeepsAbsent(s[1..], pat, rep, c);
      }
    }
  }

  /** `s.split(sep)` for a one-character separator. */
  function Split(s: string, sep: char): (parts: seq<string>)
    ensures |parts| >= 1
    ensures forall i | 0 <= i < |parts| :: sep !in parts[i]
  {
    if |s| == 0 then [""]
    else
      var rest := Split(s[1..], sep);
      if s[0] == sep then [""] + rest
      else [[s[0]] + rest[0]] + rest[1..]
  }

  /** `parts.join(sep)` for a one-character separator. */
  function Join(parts: seq<string>, sep: char): string {
    if |parts| == 0 then ""
    else if |parts| == 1 then parts[0]
    else parts[0] + [sep] + Join(parts[1..], sep)
  }

  /** Splitting loses nothing: joining the pieces back gives the input. */
  lemma {:induction false} JoinSplit(s: string, sep: char)
    ensures Join(Split(s, sep), sep) == s
  {
    if |s| > 0 {
      var rest := Split(s[1..], sep);
      JoinSplit(s[1..], sep);
      if s[0] == sep {
        assert ([""] + rest)[1..] == rest;
      } else if |rest| == 1 {
      } else {
        var parts := Split(s, sep);
        assert parts[1..] == rest[1..];
        assert Join(rest, sep) == rest[0] + [sep] + Join(rest[1..], sep);
      }
    }
  }

  /** The character of a decimal digit. */
  function DigitChar(d: nat): (c: char)
    requires d < 10
    ensures '0' <= c <= '9'
  {
    ('0' as int + d) as char
  }

  /** The decimal form of a natural number, as a template string prints it. */
  function NatToString(n: nat): (s: string)
    ensures 1 <= |s|
    ensures forall i | 0 <= i < |s| :: '0' <= s[i] <= '9'
    ensures n < 10 <==> |s| == 1
  {
    if n < 10 then [DigitChar(n)] else NatToString(n / 10) + [DigitChar(n % 10)]
  }

  /** The printed digits denote the number in decimal, without leading zeros. */
  lemma {:induction false} NatToStringDecimal(n: nat)
    ensures DecimalValue(NatToString(n)) == n
    ensures n > 0 ==> NatToString(n)[0] != '0'
    decreases n
  {
    if n >= 10 {
      var s := NatToString(n);
      NatToStringDecimal(n / 10);
      assert s[..|s| - 1] == NatToString(n / 10);
      assert s[0] == NatToString(n / 10)[0];
    }
  }

  /** The number a string of decimal digits denotes, most significant digit first. */
  function DecimalValue(s: string): nat
    requires forall i | 0 <= i < |s| :: '0' <= s[i] <= '9'
  {
    if s == [] then 0
    else 10 * DecimalValue(s[..|s| - 1]) + (s[|s| - 1] as int - '0' as int)
  }

  /** Different numbers print differently. */
  lemma {:induction false} NatToStringInjective(a: nat, b: nat)
    requires NatToString(a) == NatToString(b)
    ensures a == b
  {
    if a >= 10 && b >= 10 {
      var sa, sb := NatToString(a), NatToString(b);
      assert sa[|sa| - 1] == sb[|sb| - 1];
      assert NatToString(a / 10) == sa[..|sa| - 1] == sb[..|sb| - 1] == NatToString(b / 10);
      NatToStringInjective(a / 10, b / 10);
    }
  }
}
