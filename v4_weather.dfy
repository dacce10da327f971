/**
 * `colorizeWeather` of the desktop variant (V4.py): blank lines are dropped, every
 * other line becomes a coloured span, and the lines are grouped by the airport code a
 * line starts with, with a bold header for the first airport and a rule plus a header
 * whenever the code changes.
 *
 * The list the loop builds is specified by `Pieces`, a sequence of `Piece`s that
 * `Render` turns into the strings of the list; the lemmas below state what the pieces
 * are in terms of the input lines.
 */
module V4Weather {
  import opened Wrappers
  import opened Text
  import Metar

  /** One entry of the list the loop builds. */
  datatype Piece = Rule | Header(code: string) | Line(text: string)

  /** `line.startswith('K') or line.startswith('PH') or line.startswith('TJ')` */
  predicate IsAirportLine(line: string) {
    StartsWith(line, "K") || StartsWith(line, "PH") || StartsWith(line, "TJ")
  }

  /** Python truthiness of `current_airport` (None and the empty string are false). */
  predicate Truthy(current: Option<string>) {
    current.Some? && current.value != ""
  }

  /** The airport code of an airport line: `line.split()[0]`. It is never empty. */
  function AirportCode(line: string): (code: string)
    requires IsAirportLine(line)
    ensures code != ""
  {
    assert !IsSpace(line[0]);
    LeadingToken(line)
  }

  /**
   * The pieces one line adds, given the current airport: nothing for a blank line,
   * otherwise at most a rule and a header and then the line itself, last.
   */
  function Step(line: string, current: Option<string>): (r: seq<Piece>)
    ensures r == [] <==> IsBlank(line)
    ensures r != [] ==> r[|r| - 1] == Line(line)
    ensures |r| <= 3
  {
    if IsBlank(line) then []
    else if IsAirportLine(line) then
      var code := AirportCode(line);
      var header :=
        if Truthy(current) && current.value != code then [Rule, Header(code)]
        else if !Truthy(current) then [Header(code)]
        else [];
      header + [Line(line)]
    else
      [Line(line)]
  }

  /**
   * The current airport after one line. Every non-blank airport line sets it to that
   * line's token, and no other line changes it; once set, it stays set.
   */
  function NextAirport(line: string, current: Option<string>): (r: Option<string>)
    ensures Truthy(r) <==> Truthy(current) || (!IsBlank(line) && IsAirportLine(line))
    ensures r != current ==> !IsBlank(line) && IsAirportLine(line) && r == Some(AirportCode(line))
    ensures !IsBlank(line) && IsAirportLine(line) ==> r == Some(AirportCode(line))
    ensures IsBlank(line) || !IsAirportLine(line) ==> r == current
  {
    if !IsBlank(line) && IsAirportLine(line) then Some(AirportCode(line)) else current
  }

  /** The pieces for the remaining `lines`, given the current airport. */
  function Pieces(lines: seq<string>, current: Option<string>): seq<Piece> {
    if |lines| == 0 then []
    else Step(lines[0], current) + Pieces(lines[1..], NextAirport(lines[0], current))
  }

  /**
   * The string the loop appends for a piece. Its first three characters tell which
   * kind of piece it came from.
   */
  function Render(p: Piece): (r: string)
    ensures |r| >= 3
    ensures p.Rule? <==> r[..3] == "<br"
    ensures p.Header? <==> r[..3] == "<b>"
    ensures p.Line? <==> r[..3] == "<sp"
  {
    match p
    case Rule => "<br><hr>"
    case Header(code) =>
      assert ("<b>" + code + "</b>")[..3] == ("<b>" + code)[..3] == "<b>";
      "<b>" + code + "</b>"
    case Line(text) =>
      Metar.SpanPrefix(text);
      Metar.Span(text)
  }

  function RenderAll(ps: seq<Piece>): (r: seq<string>)
    ensures |r| == |ps|
    ensures forall k :: 0 <= k < |ps| ==> r[k] == Render(ps[k])
  {
    if |ps| == 0 then [] else [Render(ps[0])] + RenderAll(ps[1..])
  }

  lemma {:induction false} RenderAllAppend(a: seq<Piece>, b: seq<Piece>)
    ensures RenderAll(a + b) == RenderAll(a) + RenderAll(b)
  {
    if |a| == 0 {
      assert a + b == b;
    } else {
      assert (a + b)[0] == a[0] && (a + b)[1..] == a[1..] + b;
      RenderAllAppend(a[1..], b);
    }
  }

  /** The four shapes of `Step`. */
  lemma StepCases(line: string, current: Option<string>)
    ensures IsBlank(line) ==> Step(line, current) == []
    ensures !IsBlank(line) && !IsAirportLine(line) ==> Step(line, current) == [Line(line)]
    ensures !IsBlank(line) && IsAirportLine(line) ==>
              var code := AirportCode(line);
              Step(line, current) ==
                if Truthy(current) && current.value != code then [Rule, Header(code), Line(line)]
                else if !Truthy(current) then [Header(code), Line(line)]
                else [Line(line)]
  {
  }

  /** The header strings the loop appends before an airport line with token `code`. */
  function HeaderStrings(code: string, current: Option<string>): seq<string> {
    if Truthy(current) && current.value != code then ["<br><hr>", "<b>" + code + "</b>"]
    else if !Truthy(current) then ["<b>" + code + "</b>"]
    else []
  }

  /** What the loop appends for one line, case by case. */
  lemma StepRendered(line: string, current: Option<string>)
    ensures IsBlank(line) ==> RenderAll(Step(line, current)) == []
    ensures !IsBlank(line) && !IsAirportLine(line) ==>
              RenderAll(Step(line, current)) == [] + [Metar.Span(line)]
    ensures !IsBlank(line) && IsAirportLine(line) ==>
              RenderAll(Step(line, current)) ==
                HeaderStrings(AirportCode(line), current) + [Metar.Span(line)]
  {
    StepCases(line, current);
    if !IsBlank(line) && IsAirportLine(line) {
      RenderedShapes(AirportCode(line), line);
    } else if !IsBlank(line) {
      RenderedShapes("", line);
    }
  }

  /** The strings of the three shapes a step can have. */
  lemma RenderedShapes(code: string, line: string)
    ensures RenderAll([Rule, Header(code), Line(line)]) ==
            ["<br><hr>", "<b>" + code + "</b>"] + [Metar.Span(line)]
    ensures RenderAll([Header(code), Line(line)]) == ["<b>" + code + "</b>"] + [Metar.Span(line)]
    ensures RenderAll([Line(line)]) == [] + [Metar.Span(line)]
  {
    var one := [Line(line)];
    var two := [Header(code), Line(line)];
    var three := [Rule, Header(code), Line(line)];
    assert one[1..] == [] && two[1..] == one && three[1..] == two;
    assert RenderAll(one) == [Metar.Span(line)];
    assert RenderAll(two) == ["<b>" + code + "</b>"] + RenderAll(one);
    assert RenderAll(three) == ["<br><hr>"] + RenderAll(two);
  }

  lemma AppendTwo(x: seq<string>, a: string, b: string)
    ensures (x + [a]) + [b] == x + [a, b]
  {
  }

  lemma AppendAfter(x: seq<string>, h: seq<string>, c: string)
    ensures (x + h) + [c] == x + (h + [c])
  {
  }

  /** One more line consumed: the pieces so far grow by that line's step. */
  lemma PiecesStep(lines: seq<string>, i: nat, done: seq<Piece>, current: Option<string>)
    requires i < |lines|
    requires done + Pieces(lines[i..], current) == Pieces(lines, None)
    ensures (done + Step(lines[i], current)) + Pieces(lines[i + 1..], NextAirport(lines[i], current))
            == Pieces(lines, None)
  {
    var st := Step(lines[i], current);
    var rest := Pieces(lines[i + 1..], NextAirport(lines[i], current));
    PiecesOfSuffix(lines, i, current);
    AppendAssociative(done, st, rest);
  }

  lemma AppendAssociative(x: seq<Piece>, y: seq<Piece>, z: seq<Piece>)
    ensures (x + y) + z == x + (y + z)
  {
  }

  lemma PiecesOfSuffix(lines: seq<string>, i: nat, current: Option<string>)
    requires i < |lines|
    ensures Pieces(lines[i..], current) ==
            Step(lines[i], current) + Pieces(lines[i + 1..], NextAirport(lines[i], current))
  {
    var suffix := lines[i..];
    assert suffix[0] == lines[i] && suffix[1..] == lines[i + 1..];
  }

  /** The timestamp line; the formatted UTC time is a parameter. */
  function Footer(retrievedAt: string): string {
    "<br><br><i>Data retrieved at " + retrievedAt + "</i>"
  }

  /**
   * `colorizeWeather`: the list built line by line is the rendering of `Pieces` from no
   * current airport, followed by the timestamp line, joined with `<br>`.
   */
  method ColorizeWeather(data: string, retrievedAt: string) returns (html: string)
    ensures html == Join(RenderAll(Pieces(Split(data, '\n'), None)) + [Footer(retrievedAt)], "<br>")
  {
    var lines := Split(data, '\n');
    var coloredLines: seq<string> := [];
    var currentAirport: Option<string> := None;
    ghost var done: seq<Piece> := [];
    for i := 0 to |lines|
      invariant coloredLines == RenderAll(done)
      invariant done + Pieces(lines[i..], currentAirport) == Pieces(lines, None)
    {
      var line := lines[i];
      StepRendered(line, currentAirport);
      PiecesStep(lines, i, done, currentAirport);
      ghost var before, current0 := coloredLines, currentAirport;
      if !IsBlank(line) {
        ghost var header: seq<string> := [];
        if IsAirportLine(line) {
          var airportCode := AirportCode(line);
          if Truthy(currentAirport) && currentAirport.value != airportCode {
            coloredLines := coloredLines + ["<br><hr>"];
            coloredLines := coloredLines + ["<b>" + airportCode + "</b>"];
            AppendTwo(before, "<br><hr>", "<b>" + airportCode + "</b>");
          } else if !Truthy(currentAirport) {
            coloredLines := coloredLines + ["<b>" + airportCode + "</b>"];
          }
          header := HeaderStrings(airportCode, current0);
          currentAirport := Some(airportCode);
        }
        AppendAfter(before, header, Metar.Span(line));
        coloredLines := coloredLines + [Metar.Span(line)];
      }
      RenderAllAppend(done, Step(line, current0));
      done := done + Step(line, current0);
    }
    assert lines[|lines|..] == [] && done + [] == done;
    html := Join(coloredLines + [Footer(retrievedAt)], "<br>");
  }

  // What the pieces say about the input lines.

  /** The lines `colorizeWeather` keeps: those that are not blank, in order. */
  function NonBlank(lines: seq<string>): (r: seq<string>)
    ensures |r| <= |lines|
    ensures forall k :: 0 <= k < |r| ==> !IsBlank(r[k])
  {
    if |lines| == 0 then []
    else (if IsBlank(lines[0]) then [] else [lines[0]]) + NonBlank(lines[1..])
  }

  /** The texts of the `Line` pieces, in order. */
  function LinesOf(ps: seq<Piece>): seq<string> {
    if |ps| == 0 then []
    else (if ps[0].Line? then [ps[0].text] else []) + LinesOf(ps[1..])
  }

  lemma {:induction false} LinesOfAppend(a: seq<Piece>, b: seq<Piece>)
    ensures LinesOf(a + b) == LinesOf(a) + LinesOf(b)
  {
    if |a| == 0 {
      assert a + b == b;
    } else {
      assert (a + b)[0] == a[0] && (a + b)[1..] == a[1..] + b;
      LinesOfAppend(a[1..], b);
    }
  }

  /** The header, the rule and the line one input line contributes. */
  lemma StepSummary(line: string, current: Option<string>)
    ensures LinesOf(Step(line, current)) == if IsBlank(line) then [] else [line]
    ensures !IsBlank(line) && IsAirportLine(line) ==>
              var code := AirportCode(line);
              var changes := !Truthy(current) || current.value != code;
              HeadersOf(Step(line, current)) == (if changes then [code] else []) &&
              RuleCount(Step(line, current)) == (if Truthy(current) && current.value != code then 1 else 0)
    ensures IsBlank(line) || !IsAirportLine(line) ==>
              HeadersOf(Step(line, current)) == [] && RuleCount(Step(line, current)) == 0
  {
    StepCases(line, current);
    if !IsBlank(line) && IsAirportLine(line) {
      var code := AirportCode(line);
      ShapeSummary(code, line);
    } else if !IsBlank(line) {
      ShapeSummary("", line);
    }
  }

  lemma ShapeSummary(code: string, line: string)
    ensures var ps := [Rule, Header(code), Line(line)];
            LinesOf(ps) == [line] && HeadersOf(ps) == [code] && RuleCount(ps) == 1
    ensures var ps := [Header(code), Line(line)];
            LinesOf(ps) == [line] && HeadersOf(ps) == [code] && RuleCount(ps) == 0
    ensures var ps := [Line(line)];
            LinesOf(ps) == [line] && HeadersOf(ps) == [] && RuleCount(ps) == 0
  {
    var one := [Line(line)];
    var two := [Header(code), Line(line)];
    var three := [Rule, Header(code), Line(line)];
    assert one[1..] == [];
    assert two[1..] == one;
    assert three[1..] == two;
    assert LinesOf(one) == [line] && HeadersOf(one) == [] && RuleCount(one) == 0;
    assert LinesOf(two) == LinesOf(one) && HeadersOf(two) == [code] + HeadersOf(one);
    assert RuleCount(two) == RuleCount(one);
    assert LinesOf(three) == LinesOf(two) && HeadersOf(three) == HeadersOf(two);
    assert RuleCount(three) == 1 + RuleCount(two);
  }

  /**
   * Exactly one coloured span per non-blank line, in the order of the lines, whatever the
   * current airport.
   */
  lemma {:induction false} OneSpanPerNonBlankLine(lines: seq<string>, current: Option<string>)
    ensures LinesOf(Pieces(lines, current)) == NonBlank(lines)
  {
    if |lines| > 0 {
      var step := Step(lines[0], current);
      OneSpanPerNonBlankLine(lines[1..], NextAirport(lines[0], current));
      LinesOfAppend(step, Pieces(lines[1..], NextAirport(lines[0], current)));
      StepSummary(lines[0], current);
    }
  }

  /** There are no pieces exactly when every line is blank, and at most three per line. */
  lemma {:induction false} PiecesSize(lines: seq<string>, current: Option<string>)
    ensures Pieces(lines, current) == [] <==> NonBlank(lines) == []
    ensures |Pieces(lines, current)| <= 3 * |lines|
  {
    if |lines| > 0 {
      PiecesSize(lines[1..], NextAirport(lines[0], current));
    }
  }

  /** The leading tokens of the non-blank airport lines, in order. */
  function AirportTokens(lines: seq<string>): seq<string> {
    if |lines| == 0 then []
    else
      (if !IsBlank(lines[0]) && IsAirportLine(lines[0]) then [AirportCode(lines[0])] else [])
      + AirportTokens(lines[1..])
  }

  /** `toks` with every run of equal neighbours collapsed to one element. */
  function Dedup(toks: seq<string>): (r: seq<string>)
    ensures |r| <= |toks|
    ensures |toks| > 0 ==> |r| > 0 && r[0] == toks[0]
    ensures forall k :: 0 <= k < |r| - 1 ==> r[k] != r[k + 1]
  {
    if |toks| <= 1 then toks
    else if toks[0] == toks[1] then Dedup(toks[1..])
    else [toks[0]] + Dedup(toks[1..])
  }

  /** A sequence without equal neighbours is left as it is. */
  lemma {:induction false} DedupOfDistinctNeighbours(toks: seq<string>)
    requires forall k :: 0 <= k < |toks| - 1 ==> toks[k] != toks[k + 1]
    ensures Dedup(toks) == toks
  {
    if |toks| > 1 {
      assert toks[0] != toks[1];
      DedupOfDistinctNeighbours(toks[1..]);
      assert [toks[0]] + toks[1..] == toks;
    }
  }

  /** The airport codes of the `Header` pieces, in order. */
  function HeadersOf(ps: seq<Piece>): seq<string> {
    if |ps| == 0 then []
    else (if ps[0].Header? then [ps[0].code] else []) + HeadersOf(ps[1..])
  }

  lemma {:induction false} HeadersOfAppend(a: seq<Piece>, b: seq<Piece>)
    ensures HeadersOf(a + b) == HeadersOf(a) + HeadersOf(b)
  {
    if |a| == 0 {
      assert a + b == b;
    } else {
      assert (a + b)[0] == a[0] && (a + b)[1..] == a[1..] + b;
      HeadersOfAppend(a[1..], b);
    }
  }

  /**
   * A header is emitted for the first airport line and then exactly when an airport
   * line's leading token differs from the current airport: the headers are the airport
   * tokens with repeated neighbours collapsed. From a current airport `c`, the run of
   * `c` at the front gets no header.
   */
  lemma {:induction false} HeadersAreAirportChanges(lines: seq<string>, current: Option<string>)
    requires current.Some? ==> current.value != ""
    ensures HeadersOf(Pieces(lines, current)) ==
              if current.None? then Dedup(AirportTokens(lines))
              else Dedup([current.value] + AirportTokens(lines))[1..]
  {
    if |lines| == 0 {
    } else {
      var line := lines[0];
      var next := NextAirport(line, current);
      var toks := AirportTokens(lines[1..]);
      StepSummary(line, current);
      HeadersOfAppend(Step(line, current), Pieces(lines[1..], next));
      var rest := HeadersOf(Pieces(lines[1..], next));
      if !IsBlank(line) && IsAirportLine(line) {
        var c := AirportCode(line);
        assert AirportTokens(lines) == [c] + toks;
        HeadersAreAirportChanges(lines[1..], next);
        assert rest == Dedup([c] + toks)[1..];
        DedupFront(c, toks);
        if current.Some? && current.value == c {
          DedupRepeated(c, toks);
        } else if current.Some? {
          DedupChange(current.value, c, toks);
        }
      } else {
        assert AirportTokens(lines) == toks;
        HeadersAreAirportChanges(lines[1..], next);
      }
    }
  }

  lemma DedupFront(c: string, toks: seq<string>)
    ensures Dedup([c] + toks) == [c] + Dedup([c] + toks)[1..]
  {
  }

  lemma DedupRepeated(c: string, toks: seq<string>)
    ensures Dedup([c] + ([c] + toks)) == Dedup([c] + toks)
  {
    assert ([c] + ([c] + toks))[1..] == [c] + toks;
  }

  lemma DedupChange(v: string, c: string, toks: seq<string>)
    requires v != c
    ensures Dedup([v] + ([c] + toks)) == [v] + Dedup([c] + toks)
  {
    assert ([v] + ([c] + toks))[1..] == [c] + toks;
  }

  /** The number of rules. */
  function RuleCount(ps: seq<Piece>): nat {
    if |ps| == 0 then 0 else (if ps[0].Rule? then 1 else 0) + RuleCount(ps[1..])
  }

  lemma {:induction false} RuleCountAppend(a: seq<Piece>, b: seq<Piece>)
    ensures RuleCount(a + b) == RuleCount(a) + RuleCount(b)
  {
    if |a| == 0 {
      assert a + b == b;
    } else {
      assert (a + b)[0] == a[0] && (a + b)[1..] == a[1..] + b;
      RuleCountAppend(a[1..], b);
    }
  }

  /**
   * Counting rules: from no current airport there is one rule fewer than headers (none
   * when there are no headers); from a current airport there are as many rules as headers.
   */
  lemma {:induction false} RuleCountMatchesHeaders(lines: seq<string>, current: Option<string>)
    requires current.Some? ==> current.value != ""
    ensures var ps := Pieces(lines, current);
            RuleCount(ps) + (if current.None? && |HeadersOf(ps)| > 0 then 1 else 0) == |HeadersOf(ps)|
  {
    if |lines| > 0 {
      var line := lines[0];
      var next := NextAirport(line, current);
      StepSummary(line, current);
      HeadersOfAppend(Step(line, current), Pieces(lines[1..], next));
      RuleCountAppend(Step(line, current), Pieces(lines[1..], next));
      RuleCountMatchesHeaders(lines[1..], next);
    }
  }

  /**
   * How the pieces are laid out at position `k`: a rule is always followed by a header,
   * and a header by the airport line whose leading token it shows.
   */
  predicate GroupedAt(ps: seq<Piece>, k: nat)
    requires k < |ps|
  {
    match ps[k]
    case Rule => k + 1 < |ps| && ps[k + 1].Header?
    case Header(c) =>
      k + 1 < |ps| && ps[k + 1].Line? && !IsBlank(ps[k + 1].text) &&
      IsAirportLine(ps[k + 1].text) && AirportCode(ps[k + 1].text) == c
    case Line(_) => true
  }

  predicate Grouped(ps: seq<Piece>) {
    forall k: nat :: k < |ps| ==> GroupedAt(ps, k)
  }

  lemma GroupedAppend(a: seq<Piece>, b: seq<Piece>)
    requires Grouped(a) && Grouped(b)
    requires |a| > 0 ==> a[|a| - 1].Line?
    ensures Grouped(a + b)
  {
    var ab := a + b;
    forall k: nat | k < |ab| ensures GroupedAt(ab, k) {
      if k + 1 < |a| {
        assert GroupedAt(a, k);
        assert ab[k] == a[k] && ab[k + 1] == a[k + 1];
      } else if k + 1 == |a| {
        assert ab[k] == a[k];
      } else {
        assert GroupedAt(b, k - |a|);
        assert ab[k] == b[k - |a|];
        if k + 1 < |ab| {
          assert ab[k + 1] == b[k + 1 - |a|];
        }
      }
    }
  }

  /** The pieces of any input are grouped. */
  lemma {:induction false} PiecesAreGrouped(lines: seq<string>, current: Option<string>)
    ensures Grouped(Pieces(lines, current))
  {
    if |lines| > 0 {
      var line := lines[0];
      StepCases(line, current);
      PiecesAreGrouped(lines[1..], NextAirport(line, current));
      GroupedAppend(Step(line, current), Pieces(lines[1..], NextAirport(line, current)));
    }
  }

  // Where the rules are.

  /** Some header occurs among the first `k` pieces. */
  predicate HeaderBefore(ps: seq<Piece>, k: nat)
    requires k <= |ps|
  {
    exists j :: 0 <= j < k && ps[j].Header?
  }

  /**
   * Every header has a rule directly before it exactly when an airport was already
   * current (`seen`) or an earlier header exists.
   */
  predicate RulesPlaced(ps: seq<Piece>, seen: bool) {
    forall k :: 0 <= k < |ps| && ps[k].Header? ==>
      ((0 < k && ps[k - 1].Rule?) <==> (seen || HeaderBefore(ps, k)))
  }

  lemma RulesPlacedAt(ps: seq<Piece>, seen: bool, k: nat)
    requires RulesPlaced(ps, seen)
    requires k < |ps| && ps[k].Header?
    ensures (0 < k && ps[k - 1].Rule?) <==> (seen || HeaderBefore(ps, k))
  {
  }

  lemma HeaderBeforeLeft(a: seq<Piece>, b: seq<Piece>, k: nat)
    requires k <= |a|
    ensures HeaderBefore(a + b, k) <==> HeaderBefore(a, k)
  {
    if HeaderBefore(a + b, k) {
      var j :| 0 <= j < k && (a + b)[j].Header?;
      assert a[j] == (a + b)[j];
    }
    if HeaderBefore(a, k) {
      var j :| 0 <= j < k && a[j].Header?;
      assert (a + b)[j] == a[j];
    }
  }

  lemma HeaderBeforeRight(a: seq<Piece>, b: seq<Piece>, k: nat)
    requires |a| <= k <= |a| + |b|
    ensures HeaderBefore(a + b, k) <==> HeaderBefore(a, |a|) || HeaderBefore(b, k - |a|)
  {
    var ab := a + b;
    if HeaderBefore(ab, k) {
      var j :| 0 <= j < k && ab[j].Header?;
      if j < |a| {
        assert a[j] == ab[j];
      } else {
        assert b[j - |a|] == ab[j];
      }
    }
    if HeaderBefore(a, |a|) {
      var j :| 0 <= j < |a| && a[j].Header?;
      assert ab[j] == a[j];
    }
    if HeaderBefore(b, k - |a|) {
      var j :| 0 <= j < k - |a| && b[j].Header?;
      assert ab[j + |a|] == b[j];
    }
  }

  lemma RulesPlacedAppend(a: seq<Piece>, b: seq<Piece>, seen: bool, seen': bool)
    requires RulesPlaced(a, seen) && RulesPlaced(b, seen')
    requires seen' <==> seen || HeaderBefore(a, |a|)
    requires |a| > 0 ==> a[|a| - 1].Line?
    ensures RulesPlaced(a + b, seen)
  {
    var ab := a + b;
    forall k | 0 <= k < |ab| && ab[k].Header?
      ensures (0 < k && ab[k - 1].Rule?) <==> (seen || HeaderBefore(ab, k))
    {
      if k < |a| {
        assert ab[k] == a[k];
        RulesPlacedAt(a, seen, k);
        if 0 < k {
          assert ab[k - 1] == a[k - 1];
        }
        HeaderBeforeLeft(a, b, k);
      } else {
        var k' := k - |a|;
        assert ab[k] == b[k'];
        RulesPlacedAt(b, seen', k');
        if 0 < k' {
          assert ab[k - 1] == b[k' - 1];
        } else if 0 < k {
          assert ab[k - 1] == a[|a| - 1];
        }
        HeaderBeforeRight(a, b, k);
      }
    }
    assert RulesPlaced(ab, seen);
  }

  /** One line's pieces place their rule correctly, and record whether they hold a header. */
  lemma StepRulesPlaced(line: string, current: Option<string>)
    ensures RulesPlaced(Step(line, current), Truthy(current))
    ensures var st := Step(line, current);
            Truthy(NextAirport(line, current)) <==> Truthy(current) || HeaderBefore(st, |st|)
  {
    StepCases(line, current);
    var st := Step(line, current);
    if !IsBlank(line) && IsAirportLine(line) {
      var code := AirportCode(line);
      if Truthy(current) && current.value != code {
        assert st == [Rule, Header(code), Line(line)];
        assert st[0].Rule? && st[1].Header? && HeaderBefore(st, 3);
      } else if !Truthy(current) {
        assert st == [Header(code), Line(line)];
        assert st[0].Header? && st[1].Line? && HeaderBefore(st, 2);
        assert !HeaderBefore(st, 0);
      } else {
        assert st == [Line(line)];
      }
    }
  }

  /** From any current airport, the rules of the pieces are placed as `RulesPlaced` says. */
  lemma {:induction false} PiecesRulesPlaced(lines: seq<string>, current: Option<string>)
    ensures RulesPlaced(Pieces(lines, current), Truthy(current))
  {
    if |lines| > 0 {
      var line := lines[0];
      var next := NextAirport(line, current);
      StepRulesPlaced(line, current);
      PiecesRulesPlaced(lines[1..], next);
      RulesPlacedAppend(Step(line, current), Pieces(lines[1..], next), Truthy(current), Truthy(next));
    }
  }

  /**
   * From no current airport, the header at `k` has a rule directly before it exactly when
   * some header comes earlier: the first airport's header has none, every later one has one.
   */
  lemma RuleBeforeEveryLaterHeader(lines: seq<string>, k: nat)
    requires k < |Pieces(lines, None)| && Pieces(lines, None)[k].Header?
    ensures (0 < k && Pieces(lines, None)[k - 1].Rule?) <==> HeaderBefore(Pieces(lines, None), k)
  {
    PiecesRulesPlaced(lines, None);
    RulesPlacedAt(Pieces(lines, None), false, k);
  }
}
