/**
 * Airport-code rules of the desktop variant (V4.py): the K-prefix rule of
 * `format_airport_code` and the `ids` list handed to the weather service, the same
 * rule repeated in `fetchDatis`, and the ICAO-to-FAA code mapping of
 * `fetchAirportStatus` over its two static tables.
 */
module V4Codes {
  import opened Wrappers
  import opened Text

  /** Codes that the desktop variant leaves without a K prefix: length 4, or a PH/TJ prefix. */
  predicate KeepsCode(code: string) {
    |code| == 4 || StartsWith(code, "PH") || StartsWith(code, "TJ")
  }

  /**
   * `format_airport_code`: nothing for an empty code; the code itself when it is
   * already four long or starts with PH/TJ; otherwise the code with K in front.
   */
  function FormatAirportCode(code: string): (r: Option<string>)
    ensures r.None? <==> code == ""
    ensures r.Some? ==> |code| <= |r.value| <= |code| + 1
    ensures r.Some? ==> r.value[|r.value| - |code|..] == code
    ensures r.Some? ==> (r.value == code <==> KeepsCode(code))
    ensures r.Some? && !KeepsCode(code) ==> r.value == "K" + code
  {
    if code == "" then None
    else if |code| == 4 || StartsWith(code, "PH") || StartsWith(code, "TJ") then Some(code)
    else Some("K" + code)
  }

  /** A three-letter code outside PH/TJ becomes a four-letter code starting with K. */
  lemma ThreeLetterCodeGetsK(code: string)
    requires |code| == 3 && !StartsWith(code, "PH") && !StartsWith(code, "TJ")
    ensures FormatAirportCode(code) == Some("K" + code)
    ensures |FormatAirportCode(code).value| == 4
  {
  }

  /**
   * Formatting again changes nothing exactly when the first formatting gave a code of
   * length 4 or one with a PH/TJ prefix; a one- or two-letter code gains a K each time.
   */
  lemma {:induction false} FormatIdempotentOnIcaoShape(code: string)
    requires code != ""
    ensures var f := FormatAirportCode(code).value;
            FormatAirportCode(f) == Some(f) <==> (|code| == 3 || KeepsCode(code))
  {
    var f := FormatAirportCode(code).value;
    if !KeepsCode(code) {
      assert f == "K" + code && f[0] == 'K';
    }
  }

  /** `f"{x}"` of `format_airport_code`'s result: Python renders None as the text None. */
  function Show(o: Option<string>): string {
    match o
    case None => "None"
    case Some(s) => s
  }

  /**
   * The `ids` parameter built by `fetchWeather`: the two formatted codes, then the
   * formatted alternate when one was entered, separated by commas.
   */
  function WeatherIds(airport1: string, airport2: string, airport3: string): string {
    var ids := Show(FormatAirportCode(airport1)) + "," + Show(FormatAirportCode(airport2));
    if airport3 != "" then ids + "," + Show(FormatAirportCode(airport3)) else ids
  }

  /**
   * Splitting `ids` on commas gives back the formatted departure and arrival codes, and
   * the formatted alternate exactly when one was entered (codes without commas). An empty
   * departure or arrival code shows up as the text None.
   */
  lemma {:induction false} WeatherIdsFields(airport1: string, airport2: string, airport3: string)
    requires ',' !in airport1 && ',' !in airport2 && ',' !in airport3
    ensures Split(WeatherIds(airport1, airport2, airport3), ',') ==
            [Show(FormatAirportCode(airport1)), Show(FormatAirportCode(airport2))] +
            (if airport3 != "" then [FormatAirportCode(airport3).value] else [])
  {
    var f1, f2, f3 := Show(FormatAirportCode(airport1)), Show(FormatAirportCode(airport2)),
                      Show(FormatAirportCode(airport3));
    NoCommaInFormatted(airport1);
    NoCommaInFormatted(airport2);
    NoCommaInFormatted(airport3);
    if airport3 != "" {
      JoinThree(f1, f2, f3, ",");
      SplitJoin([f1, f2, f3], ',');
    } else {
      JoinTwo(f1, f2, ",");
      SplitJoin([f1, f2], ',');
    }
  }

  lemma NoCommaInFormatted(code: string)
    requires ',' !in code
    ensures ',' !in Show(FormatAirportCode(code))
  {
    if code != "" && !KeepsCode(code) {
      assert Show(FormatAirportCode(code)) == ['K'] + code;
    }
  }

  const DatisBase := "https://datis.clowd.io/api/"

  /**
   * `fetchDatis` before its request: the message for an empty code, otherwise the URL
   * ending in the code formatted by its own copy of the K-prefix rule, which formats
   * every non-empty code exactly as `format_airport_code` does.
   */
  function DatisUrl(code: string): (r: Result<string, string>)
    ensures r.Failure? <==> code == ""
    ensures r.Failure? ==> r.error == "No airport code provided"
    ensures r.Success? ==> r.value == DatisBase + FormatAirportCode(code).value
  {
    if code == "" then Failure("No airport code provided")
    else
      var formatted := if |code| == 4 || StartsWith(code, "PH") || StartsWith(code, "TJ") then code else "K" + code;
      Success(DatisBase + formatted)
  }

  // ---------------------------------------------------------------------------
  // fetchAirportStatus: ICAO code to the FAA (IATA) code the status service expects
  // ---------------------------------------------------------------------------

  const HawaiiAirports: map<string, string> := map[
    "PHNL" := "HNL", "PHTO" := "ITO", "PHOG" := "OGG", "PHKO" := "KOA",
    "PHMK" := "MKK", "PHNY" := "LNY", "PHLI" := "LIH", "PHMU" := "MUE",
    "PHJR" := "JRF", "PHHN" := "HNM", "PHPA" := "PAK", "PHUP" := "UPP",
    "PHLU" := "LUP", "PHJH" := "JHM", "PHDH" := "HDH", "PHIK" := "HIK",
    "PHNP" := "NPS", "PHNG" := "NGF", "PHBK" := "BKH", "PHSF" := "BSF",
    "PHHF" := "HFS", "PHHI" := "HHI"
  ]

  const PuertoRicoAirports: map<string, string> := map[
    "TJSJ" := "SJU", "TJBQ" := "BQN", "TJPS" := "PSE", "TJMZ" := "MAZ",
    "TJIG" := "VQS", "TJCP" := "CPX"
  ]

  predicate IsUpperAsciiWord(w: string) {
    forall k :: 0 <= k < |w| ==> 'A' <= w[k] <= 'Z'
  }

  // The shape of the two tables, one fact per lemma (each is a case split over the keys).

  lemma HawaiiKeysShape()
    ensures forall k :: k in HawaiiAirports ==> |k| == 4 && k[0] == 'P' && k[1] == 'H'
  {
  }

  lemma HawaiiKeysUpper()
    ensures forall k :: k in HawaiiAirports ==> IsUpperAsciiWord(k)
  {
  }

  lemma HawaiiValuesShape()
    ensures forall k :: k in HawaiiAirports ==> |HawaiiAirports[k]| == 3
  {
  }

  lemma HawaiiValuesNotRegional()
    ensures forall k :: k in HawaiiAirports ==>
              !(HawaiiAirports[k][0] == 'P' && HawaiiAirports[k][1] == 'H') &&
              !(HawaiiAirports[k][0] == 'T' && HawaiiAirports[k][1] == 'J')
  {
  }

  lemma PuertoRicoKeysShape()
    ensures forall k :: k in PuertoRicoAirports ==> |k| == 4 && k[0] == 'T' && k[1] == 'J'
  {
  }

  lemma PuertoRicoKeysUpper()
    ensures forall k :: k in PuertoRicoAirports ==> IsUpperAsciiWord(k)
  {
  }

  lemma PuertoRicoValuesShape()
    ensures forall k :: k in PuertoRicoAirports ==> |PuertoRicoAirports[k]| == 3
  {
  }

  lemma PuertoRicoValuesNotRegional()
    ensures forall k :: k in PuertoRicoAirports ==>
              !(PuertoRicoAirports[k][0] == 'P' && PuertoRicoAirports[k][1] == 'H') &&
              !(PuertoRicoAirports[k][0] == 'T' && PuertoRicoAirports[k][1] == 'J')
  {
  }

  /**
   * The Hawaii keys are upper-case four-letter codes with a PH prefix, the Puerto Rico
   * keys the same with a TJ prefix, and every value is a three-letter code.
   */
  lemma TablesWellFormed()
    ensures forall k :: k in HawaiiAirports ==>
              |k| == 4 && k[0] == 'P' && k[1] == 'H' && IsUpperAsciiWord(k) && |HawaiiAirports[k]| == 3
    ensures forall k :: k in PuertoRicoAirports ==>
              |k| == 4 && k[0] == 'T' && k[1] == 'J' && IsUpperAsciiWord(k) && |PuertoRicoAirports[k]| == 3
  {
    HawaiiKeysShape();
    HawaiiKeysUpper();
    HawaiiValuesShape();
    PuertoRicoKeysShape();
    PuertoRicoKeysUpper();
    PuertoRicoValuesShape();
  }

  /**
   * The FAA code for an airport code: a four-character code is looked up, upper-cased,
   * in the Hawaii table and then the Puerto Rico table, and otherwise loses its first
   * character (both fallback branches do the same); any other length is kept.
   */
  function FaaCode(code: string): (r: string)
    ensures |code| == 4 ==> |r| == 3
    ensures |code| == 4 && Upper(code) in HawaiiAirports ==> r == HawaiiAirports[Upper(code)]
    ensures |code| == 4 && Upper(code) !in HawaiiAirports && Upper(code) in PuertoRicoAirports ==>
              r == PuertoRicoAirports[Upper(code)]
    ensures |code| == 4 && Upper(code) !in HawaiiAirports && Upper(code) !in PuertoRicoAirports ==>
              r == code[1..]
    ensures |code| != 4 ==> r == code
  {
    TablesWellFormed();
    if |code| == 4 then
      if Upper(code) in HawaiiAirports then HawaiiAirports[Upper(code)]
      else if Upper(code) in PuertoRicoAirports then PuertoRicoAirports[Upper(code)]
      else if StartsWith(code, "K") then code[1..]
      else code[1..]
    else
      code
  }

  lemma UpperOfUpperWord(w: string)
    requires IsUpperAsciiWord(w)
    ensures Upper(w) == w
  {
    assert forall k :: 0 <= k < |w| ==> Upper(w)[k] == w[k];
  }

  /** The lookup ignores case: a table key in lower case maps to the key's table value. */
  lemma {:induction false} FaaCodeIgnoresCase(key: string)
    requires key in HawaiiAirports || key in PuertoRicoAirports
    ensures key in HawaiiAirports ==> FaaCode(key) == FaaCode(Lower(key)) == HawaiiAirports[key]
    ensures key in PuertoRicoAirports ==> FaaCode(key) == FaaCode(Lower(key)) == PuertoRicoAirports[key]
  {
    TablesWellFormed();
    assert IsUpperAsciiWord(key) && |key| == 4;
    UpperLowerOfAsciiWord(key);
    UpperOfUpperWord(key);
    assert |Lower(key)| == 4;
  }

  /** No table key starts with K. */
  lemma KWordsAreNotTableKeys(u: string)
    requires |u| > 0 && u[0] == 'K'
    ensures u !in HawaiiAirports && u !in PuertoRicoAirports
  {
    HawaiiKeysShape();
    PuertoRicoKeysShape();
  }

  /** So a K-prefixed four-letter code always takes the fallback and loses its K. */
  lemma KCodesAreNotTableKeys(code: string)
    requires |code| == 4 && code[0] == 'K'
    ensures Upper(code) !in HawaiiAirports && Upper(code) !in PuertoRicoAirports
    ensures FaaCode(code) == code[1..]
  {
    var u := Upper(code);
    assert u[0] == 'K';
    KWordsAreNotTableKeys(u);
  }

  /**
   * Formatting a three-letter code and mapping the result to an FAA code gives the
   * three-letter code back: `K` is added and stripped again, and a PH/TJ code is left
   * alone by both steps.
   */
  lemma {:induction false} FormatThenFaaCodeRoundTrip(code: string)
    requires |code| == 3
    ensures FaaCode(FormatAirportCode(code).value) == code
  {
    if !KeepsCode(code) {
      var f := "K" + code;
      assert FormatAirportCode(code).value == f;
      KCodesAreNotTableKeys(f);
      assert f[1..] == code;
    }
  }

  /**
   * Formatting, mapping to an FAA code and formatting again is stable for every
   * three-letter code, the Hawaii and Puerto Rico ones included.
   */
  lemma FormatFaaFormatIsStable(code: string)
    requires |code| == 3
    ensures FormatAirportCode(FaaCode(FormatAirportCode(code).value)) == FormatAirportCode(code)
  {
    FormatThenFaaCodeRoundTrip(code);
  }

  /**
   * The K-prefix rule does not translate three-letter Hawaii or Puerto Rico codes to
   * their ICAO form: each table value is formatted with a K in front, not to its key.
   */
  lemma {:induction false} RegionalThreeLetterCodesGetK(key: string)
    requires key in HawaiiAirports || key in PuertoRicoAirports
    ensures var iata := if key in HawaiiAirports then HawaiiAirports[key] else PuertoRicoAirports[key];
            FormatAirportCode(iata) == Some("K" + iata) && "K" + iata != key
  {
    TablesWellFormed();
    HawaiiValuesNotRegional();
    PuertoRicoValuesNotRegional();
    var iata := if key in HawaiiAirports then HawaiiAirports[key] else PuertoRicoAirports[key];
    assert |iata| == 3;
    assert !StartsWith(iata, "PH") && !StartsWith(iata, "TJ") by {
      assert !(iata[0] == 'P' && iata[1] == 'H') && !(iata[0] == 'T' && iata[1] == 'J');
    }
    assert ("K" + iata)[0] == 'K' && key[0] != 'K';
  }

  const StatusBase := "https://external-api.faa.gov/asws/api/airport/status/"

  /** `fetchAirportStatus` before its request: the error text for an empty code, else the URL. */
  function StatusUrl(code: string): (r: Result<string, string>)
    ensures r.Failure? <==> code == ""
    ensures r.Failure? ==> r.error == "Error: Airport code is required"
    ensures r.Success? ==> |r.value| >= |StatusBase| && r.value[..|StatusBase|] == StatusBase &&
                           r.value[|StatusBase|..] == FaaCode(code)
  {
    if code == "" then Failure("Error: Airport code is required")
    else Success(StatusBase + FaaCode(code))
  }
}
