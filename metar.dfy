/**
 * The flight-category rule both front ends apply to one line of raw METAR/TAF text
 * (the block is the same code in V4.py and in wx_api.py), and the fixed colour of
 * each category.
 *
 * The two regular expressions of the rule are modelled as scanners over positions:
 * `VisAt`/`FirstVisAt` for `re.search(r'(\d{1,2})SM|P6SM', line)` and
 * `LayerAt`/`Layers` for `re.findall(r'(OVC|BKN|VV)(\d{3})', line)`.
 */
module Metar {
  import opened Wrappers
  import opened Text

  datatype Category = LIFR | IFR | MVFR | VFR | UNKNOWN

  /** `any(code in line for code in ['SKC', 'CLR', 'SCT', 'FEW', 'P6SM'])` */
  predicate HasShortcutToken(line: string) {
    Contains(line, "SKC") || Contains(line, "CLR") || Contains(line, "SCT") ||
    Contains(line, "FEW") || Contains(line, "P6SM")
  }

  // ---------------------------------------------------------------------------
  // Visibility: re.search(r'(\d{1,2})SM|P6SM', line)
  // ---------------------------------------------------------------------------

  /** What the visibility pattern matches: group 1 as a number, or the `P6SM` alternative. */
  datatype VisToken = Miles(n: nat) | PlusSix

  /**
   * The visibility pattern anchored at offset `i`. The first alternative is tried first;
   * `\d{1,2}` is greedy, so two digits are tried before one.
   */
  function VisAt(s: string, i: nat): (r: Option<VisToken>)
    ensures r == Some(PlusSix) ==> OccursAt(s, "P6SM", i)
  {
    if i + 4 <= |s| && IsDigit(s[i]) && IsDigit(s[i + 1]) && s[i + 2] == 'S' && s[i + 3] == 'M' then
      Some(Miles(10 * DigitValue(s[i]) + DigitValue(s[i + 1])))
    else if i + 3 <= |s| && IsDigit(s[i]) && s[i + 1] == 'S' && s[i + 2] == 'M' then
      Some(Miles(DigitValue(s[i])))
    else if OccursAt(s, "P6SM", i) then
      Some(PlusSix)
    else
      None
  }

  /** `re.search` from offset `i`: the leftmost offset at which the pattern matches. */
  function FirstVisAt(s: string, i: nat): (r: Option<nat>)
    ensures r.Some? ==> i <= r.value < |s| && VisAt(s, r.value).Some?
    ensures r.Some? ==> forall j: nat :: i <= j < r.value ==> VisAt(s, j).None?
    ensures r.None? ==> forall j: nat :: i <= j ==> VisAt(s, j).None?
    decreases |s| - i
  {
    if i >= |s| then None
    else if VisAt(s, i).Some? then Some(i)
    else FirstVisAt(s, i + 1)
  }

  /**
   * The visibility in statute miles: absent without a match; 6.1 when `P6SM` is in the
   * line; otherwise group 1 of the leftmost match. (When `P6SM` is not in the line the
   * leftmost match is never the `P6SM` alternative, so the last case does not arise.)
   */
  function Visibility(line: string): (r: Option<real>)
    ensures r.None? <==> forall j: nat :: VisAt(line, j).None?
  {
    match FirstVisAt(line, 0)
    case None => None
    case Some(p) =>
      if Contains(line, "P6SM") then Some(6.1)
      else
        match VisAt(line, p)
        case Some(Miles(n)) => Some(n as real)
        case _ => None
  }

  /**
   * Without `P6SM` in the line, the visibility is the whole number of miles, 0 to 99,
   * of the leftmost `\d{1,2}SM`; the 6.1 sentinel is never produced.
   */
  lemma LeftmostMilesIsVisibility(line: string, p: nat)
    requires !Contains(line, "P6SM")
    requires VisAt(line, p).Some?
    requires forall j: nat :: j < p ==> VisAt(line, j).None?
    ensures VisAt(line, p).value.Miles? && VisAt(line, p).value.n <= 99
    ensures Visibility(line) == Some(VisAt(line, p).value.n as real)
  {
    assert !OccursAt(line, "P6SM", p);
    var q := FirstVisAt(line, 0);
    assert q.Some?;
    assert !(p < q.value) && !(q.value < p);
  }

  /**
   * Outside the shortcut the visibility, when present, is a whole number of miles from 0
   * to 99: `P6SM` is one of the shortcut tokens, so 6.1 is never reached there.
   */
  lemma WholeMilesOutsideShortcut(line: string)
    requires !HasShortcutToken(line)
    ensures Visibility(line).Some? ==>
              Visibility(line).value == Visibility(line).value.Floor as real &&
              0.0 <= Visibility(line).value <= 99.0
  {
    var q := FirstVisAt(line, 0);
    if q.Some? {
      LeftmostMilesIsVisibility(line, q.value);
    }
  }

  // ---------------------------------------------------------------------------
  // Ceiling: re.findall(r'(OVC|BKN|VV)(\d{3})', line)
  // ---------------------------------------------------------------------------

  /** Length of the sky-cover word at offset `i`: 3 for `OVC` or `BKN`, 2 for `VV`, else 0. */
  function CoverWidth(s: string, i: nat): nat {
    if OccursAt(s, "OVC", i) || OccursAt(s, "BKN", i) then 3
    else if OccursAt(s, "VV", i) then 2
    else 0
  }

  predicate ThreeDigitsAt(s: string, i: nat) {
    i + 3 <= |s| && IsDigit(s[i]) && IsDigit(s[i + 1]) && IsDigit(s[i + 2])
  }

  /** The layer height (hundreds of feet) of a match of the ceiling pattern at offset `i`. */
  function LayerAt(s: string, i: nat): (r: Option<nat>)
    ensures r.Some? ==> r.value <= 999
  {
    var w := CoverWidth(s, i);
    if w > 0 && ThreeDigitsAt(s, i + w) then
      Some(100 * DigitValue(s[i + w]) + 10 * DigitValue(s[i + w + 1]) + DigitValue(s[i + w + 2]))
    else
      None
  }

  /** Offset just past the match at `i`. */
  function LayerEnd(s: string, i: nat): nat {
    i + CoverWidth(s, i) + 3
  }

  /** `re.findall` from offset `i`: scan left to right, resuming after each match. */
  function Layers(s: string, i: nat): (r: seq<nat>)
    ensures forall k :: 0 <= k < |r| ==> r[k] <= 999
    decreases |s| - i
  {
    if i >= |s| then []
    else if LayerAt(s, i).Some? then [LayerAt(s, i).value] + Layers(s, LayerEnd(s, i))
    else Layers(s, i + 1)
  }

  /** No match of the ceiling pattern starts inside another one. */
  lemma LayersDoNotOverlap(s: string, i: nat, j: nat)
    requires LayerAt(s, i).Some?
    requires i < j < LayerEnd(s, i)
    ensures LayerAt(s, j).None?
  {
    var w := CoverWidth(s, i);
    assert ThreeDigitsAt(s, i + w);
    if j >= i + w {
      assert IsDigit(s[j]);
      NoCoverAt(s, j);
    } else if OccursAt(s, "OVC", i) {
      CharsOfOccurrence(s, "OVC", i);
      assert s[i + 1] == 'V' && s[i + 2] == 'C';
      if j == i + 1 {
        NoCoverAtSecond(s, j);
      } else {
        NoCoverAt(s, j);
      }
    } else if OccursAt(s, "BKN", i) {
      CharsOfOccurrence(s, "BKN", i);
      assert s[i + 1] == 'K' && s[i + 2] == 'N';
      NoCoverAt(s, j);
    } else {
      CharsOfOccurrence(s, "VV", i);
      assert s[j] == 'V';
      assert j == i + 1 && IsDigit(s[i + 2]);
      NoCoverAtSecond(s, j);
    }
  }

  /** No sky-cover word starts on a character other than O, B and V. */
  lemma NoCoverAt(s: string, j: nat)
    requires j < |s| && s[j] != 'O' && s[j] != 'B' && s[j] != 'V'
    ensures CoverWidth(s, j) == 0
  {
    NoWordAt(s, j, "OVC");
    NoWordAt(s, j, "BKN");
    NoWordAt(s, j, "VV");
  }

  /** Nor on a character other than O and B that is followed by something other than V. */
  lemma NoCoverAtSecond(s: string, j: nat)
    requires j + 1 < |s| && s[j] != 'O' && s[j] != 'B' && s[j + 1] != 'V'
    ensures CoverWidth(s, j) == 0
  {
    NoWordAt(s, j, "OVC");
    NoWordAt(s, j, "BKN");
    if OccursAt(s, "VV", j) {
      CharsOfOccurrence(s, "VV", j);
    }
  }

  /** The characters of an occurrence are those of the word. */
  lemma CharsOfOccurrence(s: string, word: string, i: nat)
    requires OccursAt(s, word, i)
    ensures forall k :: 0 <= k < |word| ==> s[i + k] == word[k]
  {
    forall k | 0 <= k < |word| ensures s[i + k] == word[k] {
      assert s[i..i + |word|][k] == s[i + k];
    }
  }

  /** A word cannot start on a character other than its first. */
  lemma NoWordAt(s: string, j: nat, word: string)
    requires j < |s| && |word| > 0 && s[j] != word[0]
    ensures !OccursAt(s, word, j)
  {
  }

  /**
   * The scan misses nothing: the heights `findall` reports from offset `i` are exactly
   * the heights of the matches that start at or after `i`.
   */
  lemma {:induction false} LayersAreAllMatches(s: string, i: nat, h: nat)
    ensures h in Layers(s, i) <==> exists j: nat :: i <= j && LayerAt(s, j) == Some(h)
    decreases |s| - i
  {
    if i >= |s| {
      forall j: nat | i <= j ensures LayerAt(s, j).None? {
        assert CoverWidth(s, j) == 0;
      }
    } else if LayerAt(s, i).Some? {
      LayersAreAllMatches(s, LayerEnd(s, i), h);
      MatchesAfterMatch(s, i, h);
    } else {
      LayersAreAllMatches(s, i + 1, h);
      MatchesAfterMiss(s, i, h);
    }
  }

  /** The step of the scan that reports the match at `i` and resumes after it. */
  lemma MatchesAfterMatch(s: string, i: nat, h: nat)
    requires i < |s| && LayerAt(s, i).Some?
    requires h in Layers(s, LayerEnd(s, i)) <==>
             exists j: nat :: LayerEnd(s, i) <= j && LayerAt(s, j) == Some(h)
    ensures h in Layers(s, i) <==> exists j: nat :: i <= j && LayerAt(s, j) == Some(h)
  {
    var v := LayerAt(s, i).value;
    var e := LayerEnd(s, i);
    assert Layers(s, i) == [v] + Layers(s, e);
    if h in Layers(s, i) {
      if h == v {
        assert LayerAt(s, i) == Some(h);
      } else {
        assert h in Layers(s, e);
        var j: nat :| e <= j && LayerAt(s, j) == Some(h);
        assert i <= j;
      }
    }
    if exists j: nat :: i <= j && LayerAt(s, j) == Some(h) {
      var j: nat :| i <= j && LayerAt(s, j) == Some(h);
      if j == i {
        assert h == v;
      } else if j < e {
        LayersDoNotOverlap(s, i, j);
      } else {
        assert h in Layers(s, e);
      }
    }
  }

  /** The step of the scan that moves on from an offset where nothing matches. */
  lemma MatchesAfterMiss(s: string, i: nat, h: nat)
    requires i < |s| && LayerAt(s, i).None?
    requires h in Layers(s, i + 1) <==> exists j: nat :: i + 1 <= j && LayerAt(s, j) == Some(h)
    ensures h in Layers(s, i) <==> exists j: nat :: i <= j && LayerAt(s, j) == Some(h)
  {
    assert Layers(s, i) == Layers(s, i + 1);
    if exists j: nat :: i <= j && LayerAt(s, j) == Some(h) {
      var j: nat :| i <= j && LayerAt(s, j) == Some(h);
      assert i + 1 <= j;
    }
  }

  /** `min(xs)` of a non-empty list. */
  function Min(xs: seq<nat>): (m: nat)
    requires |xs| > 0
    ensures m in xs
    ensures forall k :: 0 <= k < |xs| ==> m <= xs[k]
  {
    if |xs| == 1 then xs[0]
    else
      var t := Min(xs[1..]);
      if xs[0] <= t then xs[0] else t
  }

  /**
   * The ceiling in feet: absent without a layer match, otherwise 100 times the lowest
   * layer height matched anywhere in the line.
   */
  function Ceiling(line: string): (r: Option<int>)
    ensures r.None? <==> forall j: nat :: LayerAt(line, j).None?
    ensures r.Some? ==> r.value % 100 == 0 && 0 <= r.value <= 99900
    ensures r.Some? ==> forall j: nat :: LayerAt(line, j).Some? ==> r.value <= 100 * LayerAt(line, j).value
    ensures r.Some? ==> exists j: nat :: LayerAt(line, j).Some? && r.value == 100 * LayerAt(line, j).value
  {
    var heights := Layers(line, 0);
    if heights == [] then
      NoLayersNoMatch(line);
      None
    else
      var m := Min(heights);
      LowestLayer(line);
      assert (100 * m) % 100 == 0 && 100 * m <= 99900;
      Some(100 * m)
  }

  /** An empty `findall` result means there is no match anywhere. */
  lemma NoLayersNoMatch(line: string)
    requires Layers(line, 0) == []
    ensures forall j: nat :: LayerAt(line, j).None?
  {
    forall j: nat ensures LayerAt(line, j).None? {
      if LayerAt(line, j).Some? {
        LayersAreAllMatches(line, 0, LayerAt(line, j).value);
      }
    }
  }

  /** The minimum of the `findall` heights is the lowest height matched anywhere. */
  lemma LowestLayer(line: string)
    requires Layers(line, 0) != []
    ensures var m := Min(Layers(line, 0));
            (exists j: nat :: LayerAt(line, j) == Some(m)) &&
            forall j: nat :: LayerAt(line, j).Some? ==> m <= LayerAt(line, j).value
  {
    var m := Min(Layers(line, 0));
    LayersAreAllMatches(line, 0, m);
    forall j: nat | LayerAt(line, j).Some? ensures m <= LayerAt(line, j).value {
      LayersAreAllMatches(line, 0, LayerAt(line, j).value);
    }
  }

  // ---------------------------------------------------------------------------
  // The threshold chain
  // ---------------------------------------------------------------------------

  /** How bad a known category is: VFR 0, MVFR 1, IFR 2, LIFR 3. */
  function Severity(c: Category): nat {
    match c
    case VFR => 0
    case MVFR => 1
    case IFR => 2
    case LIFR => 3
    case UNKNOWN => 0
  }

  /** The worse of two known categories. */
  function Worse(a: Category, b: Category): (r: Category)
    requires a != UNKNOWN && b != UNKNOWN
    ensures r == a || r == b
    ensures Severity(r) >= Severity(a) && Severity(r) >= Severity(b)
  {
    if Severity(a) >= Severity(b) then a else b
  }

  /** The category the ceiling alone gives. */
  function CeilingBand(ceiling: int): Category {
    if ceiling < 500 then LIFR
    else if ceiling < 1000 then IFR
    else if ceiling <= 3000 then MVFR
    else VFR
  }

  /** The category the visibility alone gives. */
  function VisibilityBand(visibility: real): Category {
    if visibility < 1.0 then LIFR
    else if visibility < 3.0 then IFR
    else if visibility <= 5.0 then MVFR
    else VFR
  }

  /**
   * The chain of range checks, first satisfied wins. It never falls through to its
   * last arm, and it picks the worse of the ceiling band and the visibility band.
   */
  function ThresholdCategory(ceiling: int, visibility: real): (r: Category)
    ensures r != UNKNOWN
    ensures r == Worse(CeilingBand(ceiling), VisibilityBand(visibility))
  {
    if ceiling < 500 || visibility < 1.0 then LIFR
    else if (500 <= ceiling < 1000) || (1.0 <= visibility < 3.0) then IFR
    else if (1000 <= ceiling <= 3000) || (3.0 <= visibility <= 5.0) then MVFR
    else if ceiling > 3000 && visibility > 5.0 then VFR
    else UNKNOWN
  }

  /** A lower ceiling or a lower visibility never gives a better category. */
  lemma ThresholdMonotone(c1: int, v1: real, c2: int, v2: real)
    requires c1 <= c2 && v1 <= v2
    ensures Severity(ThresholdCategory(c1, v1)) >= Severity(ThresholdCategory(c2, v2))
  {
  }

  /** The flight category of one line of METAR/TAF text. */
  function Classify(line: string): (r: Category)
    ensures HasShortcutToken(line) ==> r == VFR
    ensures r == UNKNOWN <==>
              !HasShortcutToken(line) &&
              ((forall j: nat :: LayerAt(line, j).None?) || (forall j: nat :: VisAt(line, j).None?))
    ensures !HasShortcutToken(line) && Ceiling(line).Some? && Visibility(line).Some? ==>
              r == Worse(CeilingBand(Ceiling(line).value), VisibilityBand(Visibility(line).value))
  {
    if HasShortcutToken(line) then VFR
    else
      var visibility := Visibility(line);
      var ceiling := Ceiling(line);
      if ceiling.Some? && visibility.Some? then ThresholdCategory(ceiling.value, visibility.value)
      else UNKNOWN
  }

  /** A line holding a shortcut token is VFR whatever ceiling or visibility it also reports. */
  lemma ShortcutWins(line: string, i: nat, token: string)
    requires token in ["SKC", "CLR", "SCT", "FEW", "P6SM"]
    requires OccursAt(line, token, i)
    ensures Classify(line) == VFR
  {
  }

  /** Lowering the ceiling of a line (keeping its visibility) never improves its category. */
  lemma LowerCeilingNeverBetter(a: string, b: string)
    requires !HasShortcutToken(a) && !HasShortcutToken(b)
    requires Ceiling(a).Some? && Ceiling(b).Some? && Ceiling(a).value <= Ceiling(b).value
    requires Visibility(a) == Visibility(b) && Visibility(a).Some?
    ensures Severity(Classify(a)) >= Severity(Classify(b))
  {
    ThresholdMonotone(Ceiling(a).value, Visibility(a).value, Ceiling(b).value, Visibility(b).value);
  }

  /** An empty line is UNKNOWN (each front end then colours it black). */
  lemma EmptyLineUnknown()
    ensures Classify("") == UNKNOWN
    ensures ColorOf(Classify("")) == "black"
  {
    assert !HasShortcutToken("");
  }

  // ---------------------------------------------------------------------------
  // Colours and the rendered span
  // ---------------------------------------------------------------------------

  /** `colors.get(category, 'black')`: every category has its own colour. */
  function ColorOf(c: Category): (color: string)
    ensures |color| > 0
  {
    match c
    case LIFR => "magenta"
    case IFR => "red"
    case MVFR => "blue"
    case VFR => "green"
    case UNKNOWN => "black"
  }

  /** The colour tells the category: no two categories share a colour. */
  lemma ColorOfInjective(a: Category, b: Category)
    requires ColorOf(a) == ColorOf(b)
    ensures a == b
  {
  }

  /** `f"<span style='color:{color}'>{line}</span>"` */
  function Span(line: string): string {
    "<span style='color:" + ColorOf(Classify(line)) + "'>" + line + "</span>"
  }

  lemma SpanPrefix(line: string)
    ensures |Span(line)| >= 3 && Span(line)[..3] == "<sp"
  {
    var open := "<span style='color:";
    assert Span(line) == open + (ColorOf(Classify(line)) + "'>" + line + "</span>");
    assert (open + (ColorOf(Classify(line)) + "'>" + line + "</span>"))[..3] == open[..3];
  }
}
