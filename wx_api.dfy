/**
 * The Flask helper module (wx_api.py): its unconditional K prefix for the weather `ids`
 * and the DATIS path, and `colorize_weather`, which colours every line of the report,
 * blank lines included, without grouping.
 */
module WxApi {
  import opened Wrappers
  import opened Text
  import Metar
  import V4Codes

  /** The `ids` parameter of `fetch_weather`: both codes with K in front. */
  function WeatherIds(airport1: string, airport2: string): string {
    "K" + airport1 + "," + "K" + airport2
  }

  /** Splitting `ids` on commas gives the two K-prefixed codes (codes without commas). */
  lemma WeatherIdsFields(airport1: string, airport2: string)
    requires ',' !in airport1 && ',' !in airport2
    ensures Split(WeatherIds(airport1, airport2), ',') == ["K" + airport1, "K" + airport2]
  {
    var parts := ["K" + airport1, "K" + airport2];
    assert ',' !in "K" + airport1 && ',' !in "K" + airport2;
    assert parts[1..] == ["K" + airport2];
    assert WeatherIds(airport1, airport2) == Join(parts, [',']);
    SplitJoin(parts, ',');
  }

  /** The DATIS URL of `fetch_datis`: always K and the code, with no special regions. */
  function DatisUrl(code: string): (url: string)
    ensures |url| == |V4Codes.DatisBase| + 1 + |code|
    ensures url[..|V4Codes.DatisBase|] == V4Codes.DatisBase
    ensures url[|V4Codes.DatisBase|..] == "K" + code
  {
    V4Codes.DatisBase + "K" + code
  }

  /**
   * For three-letter codes outside PH/TJ the two front ends ask for the same weather
   * `ids` (without an alternate) and the same DATIS URL.
   */
  lemma AgreesWithV4OnThreeLetterCodes(airport1: string, airport2: string)
    requires |airport1| == 3 && !V4Codes.KeepsCode(airport1)
    requires |airport2| == 3 && !V4Codes.KeepsCode(airport2)
    ensures V4Codes.WeatherIds(airport1, airport2, "") == WeatherIds(airport1, airport2)
    ensures V4Codes.DatisUrl(airport1) == Success(DatisUrl(airport1))
  {
    assert V4Codes.DatisBase + ("K" + airport1) == V4Codes.DatisBase + "K" + airport1;
  }

  /**
   * A four-letter code is kept as it is by the desktop variant but gets a second prefix
   * letter here (`PHNL` is asked for as `KPHNL`).
   */
  lemma DiffersFromV4OnFourLetterCodes(code: string)
    requires |code| == 4
    ensures V4Codes.DatisUrl(code) == Success(V4Codes.DatisBase + code)
    ensures DatisUrl(code) != V4Codes.DatisBase + code
  {
    assert |DatisUrl(code)| != |V4Codes.DatisBase + code|;
  }

  /** The URL of `fetch_airport_status`: the code is passed through with no FAA mapping. */
  function StatusUrl(code: string): (url: string)
    ensures |url| == |V4Codes.StatusBase| + |code|
    ensures url[..|V4Codes.StatusBase|] == V4Codes.StatusBase
    ensures url[|V4Codes.StatusBase|..] == code
  {
    V4Codes.StatusBase + code
  }

  /**
   * A four-letter `K` code loses its `K` in the desktop variant's status URL but is sent
   * unchanged here (`KSFO` is asked for as `SFO` there and as `KSFO` here).
   */
  lemma StatusDiffersFromV4OnKCodes(code: string)
    requires |code| == 4 && code[0] == 'K'
    ensures V4Codes.StatusUrl(code) == Success(V4Codes.StatusBase + code[1..])
    ensures StatusUrl(code) != V4Codes.StatusBase + code[1..]
  {
    V4Codes.KCodesAreNotTableKeys(code);
    assert |StatusUrl(code)| != |V4Codes.StatusBase + code[1..]|;
  }

  /** One coloured span per line, in the order of the lines. */
  function Spans(lines: seq<string>): seq<string> {
    seq(|lines|, k requires 0 <= k < |lines| => Metar.Span(lines[k]))
  }

  /**
   * `colorize_weather`: split the report on newlines, colour each line, blank ones
   * included, and join the spans with `<br>`.
   */
  method ColorizeWeather(data: string) returns (html: string)
    ensures html == Join(Spans(Split(data, '\n')), "<br>")
  {
    var lines := Split(data, '\n');
    var coloredLines: seq<string> := [];
    for i := 0 to |lines|
      invariant |coloredLines| == i
      invariant forall k :: 0 <= k < i ==> coloredLines[k] == Metar.Span(lines[k])
    {
      coloredLines := coloredLines + [Metar.Span(lines[i])];
    }
    assert coloredLines == Spans(lines);
    html := Join(coloredLines, "<br>");
  }

  /** The report has as many spans as `data.split('\n')` has pieces: one more than its newlines. */
  lemma SpanCount(data: string)
    ensures |Spans(Split(data, '\n'))| == CountChar(data, '\n') + 1
  {
  }
}
