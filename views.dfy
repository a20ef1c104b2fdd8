/**
 * The decision logic of the two request handlers of backend/api/views.py
 * that compute something: `geocode`, which turns the places the
 * geocoding service found into city options, and `recommend`, which
 * compares the current weather with a plant's ideal ranges and writes the
 * advice text the frontend classifies.
 *
 * What lies outside the handlers becomes a parameter: the configured API
 * key, what the weather services answered, the plants table (by slug) and
 * the way Python renders a number inside an f-string (`show`, `showInt`),
 * which is left uninterpreted.
 */
module Views {
  import opened Wrappers
  import opened Text
  import Recommendations
  import SentenceSplit

  /** Python truthiness of an optional text: present and not empty. */
  predicate Truthy(s: Option<string>) {
    s.Some? && |s.value| > 0
  }

  /** `s or ""`: the text when it is truthy, the empty text otherwise. */
  function OrEmpty(s: Option<string>): (r: string)
    ensures Truthy(s) ==> r == s.value
    ensures r == "" <==> !Truthy(s)
  {
    if Truthy(s) then s.value else ""
  }

  /** A computation that either finishes or stops on a Python `TypeError`. */
  datatype Outcome<T> = Done(value: T) | TypeError

  // ---------------------------------------------------------------------
  // geocode
  // ---------------------------------------------------------------------

  /** One place of the geocoding answer; `item.get(...)` gives `None` for an absent field. */
  datatype RawPlace = RawPlace(
    name: Option<string>, country: Option<string>, state: Option<string>,
    lat: Option<real>, lon: Option<real>)

  /** One suggestion sent to the frontend (`CityOption` of frontend/types/index.ts). */
  datatype CityOption = CityOption(
    name: Option<string>, country: Option<string>, state: string,
    display: Option<string>, lat: Option<real>, lon: Option<real>)

  /** `f", {part}"` when the part is truthy, nothing otherwise. */
  function Part(part: Option<string>): (r: string)
    ensures Truthy(part) ==> r == ", " + part.value
    ensures r == "" <==> !Truthy(part)
  {
    if Truthy(part) then ", " + part.value else ""
  }

  /**
   * The display of a place: its name, then `, state` and `, country` for
   * the parts that are truthy. Appending to a missing name is a `TypeError`;
   * a missing name with nothing to append stays missing.
   */
  function Display(name: Option<string>, state: Option<string>, country: Option<string>): (r: Outcome<Option<string>>)
    ensures r.TypeError? <==> name.None? && (Truthy(state) || Truthy(country))
    ensures r.Done? ==> (r.value.Some? <==> name.Some?)
    ensures r.Done? && name.Some? ==>
              && |r.value.value| == |name.value| + |Part(state)| + |Part(country)|
              && r.value.value[..|name.value|] == name.value
              && r.value.value[|name.value|..] == Part(state) + Part(country)
    ensures r.Done? && name.Some? && !Truthy(state) && !Truthy(country) ==> r.value == name
  {
    if name.None? then
      if Truthy(state) || Truthy(country) then TypeError else Done(None)
    else
      Done(Some(name.value + Part(state) + Part(country)))
  }

  /** With both parts truthy, the state comes before the country. */
  lemma DisplayOfBothParts(name: string, state: string, country: string)
    requires |state| > 0 && |country| > 0
    ensures Display(Some(name), Some(state), Some(country)) == Done(Some(name + ", " + state + ", " + country))
  {
    assert Part(Some(state)) == ", " + state && Part(Some(country)) == ", " + country;
    assert name + (", " + state) == name + ", " + state;
    assert name + ", " + state + (", " + country) == name + ", " + state + ", " + country;
  }

  /** Each truthy part follows a comma and a space in the display. */
  lemma DisplayShowsParts(name: string, state: Option<string>, country: Option<string>)
    ensures Display(Some(name), state, country).Done?
    ensures Truthy(state) ==> Contains(Display(Some(name), state, country).value.value, ", " + state.value)
    ensures Truthy(country) ==> Contains(Display(Some(name), state, country).value.value, ", " + country.value)
  {
    var d := name + Part(state) + Part(country);
    if Truthy(state) {
      ContainsInfix(name, Part(state), Part(country));
    }
    if Truthy(country) {
      assert d == (name + Part(state)) + Part(country) + "";
      ContainsInfix(name + Part(state), Part(country), "");
    }
  }

  /** Lines 41-45: `display` starts as the name and grows by `+=`. */
  method BuildDisplay(name: Option<string>, state: Option<string>, country: Option<string>) returns (r: Outcome<Option<string>>)
    ensures r == Display(name, state, country)
  {
    var display := name;
    if Truthy(state) {
      if display.None? {
        return TypeError;
      }
      display := Some(display.value + ", " + state.value);
    }
    assert display.Some? ==> display.value == name.value + Part(state);
    if Truthy(country) {
      if display.None? {
        return TypeError;
      }
      display := Some(display.value + ", " + country.value);
    }
    assert display.Some? ==> display.value == name.value + Part(state) + Part(country);
    return Done(display);
  }

  /** Lines 35-53: the suggestion built from one place. */
  function ToCityOption(item: RawPlace): (r: Outcome<CityOption>)
    ensures r.TypeError? <==> Display(item.name, item.state, item.country).TypeError?
    ensures r.Done? ==>
              && r.value.name == item.name && r.value.country == item.country
              && r.value.lat == item.lat && r.value.lon == item.lon
              && r.value.state == OrEmpty(item.state)
              && r.value.display == Display(item.name, item.state, item.country).value
  {
    match Display(item.name, item.state, item.country)
    case TypeError => TypeError
    case Done(display) =>
      Done(CityOption(item.name, item.country, OrEmpty(item.state), display, item.lat, item.lon))
  }

  /** Lines 33-53: the suggestions for the places, in their order; the first `TypeError` stops it. */
  function Transform(data: seq<RawPlace>): (r: Outcome<seq<CityOption>>)
    ensures r.Done? ==> |r.value| == |data|
    decreases |data|
  {
    if |data| == 0 then Done([])
    else
      match Transform(data[..|data| - 1])
      case TypeError => TypeError
      case Done(results) =>
        match ToCityOption(data[|data| - 1])
        case TypeError => TypeError
        case Done(c) => Done(results + [c])
  }

  /** The transform finishes exactly when no place raises a `TypeError`. */
  lemma {:induction false} TransformFinishes(data: seq<RawPlace>)
    ensures Transform(data).Done? <==> forall i :: 0 <= i < |data| ==> ToCityOption(data[i]).Done?
    decreases |data|
  {
    if |data| > 0 {
      var front := data[..|data| - 1];
      TransformFinishes(front);
      assert forall i :: 0 <= i < |front| ==> front[i] == data[i];
    }
  }

  /** When it finishes, the transform gives one suggestion per place, in the same order. */
  lemma {:induction false} TransformIsPerItem(data: seq<RawPlace>)
    requires Transform(data).Done?
    ensures |Transform(data).value| == |data|
    ensures forall i :: 0 <= i < |data| ==> ToCityOption(data[i]) == Done(Transform(data).value[i])
    decreases |data|
  {
    if |data| > 0 {
      var n := |data| - 1;
      var front := data[..n];
      var last := ToCityOption(data[n]);
      assert Transform(front).Done? && last.Done?;
      TransformIsPerItem(front);
      var r := Transform(data).value;
      assert r == Transform(front).value + [last.value];
      forall i | 0 <= i < |data|
        ensures ToCityOption(data[i]) == Done(r[i])
      {
        if i < n {
          assert front[i] == data[i];
        }
      }
    }
  }

  /** Once a place raises a `TypeError`, so does every longer answer. */
  lemma {:induction false} TransformErrorStays(data: seq<RawPlace>, n: nat)
    requires n <= |data| && Transform(data[..n]).TypeError?
    ensures Transform(data).TypeError?
    decreases |data| - n
  {
    if n < |data| {
      assert data[..n + 1][..n] == data[..n];
      TransformErrorStays(data, n + 1);
    } else {
      assert data[..n] == data;
    }
  }

  /** Lines 33-53: the loop that appends one suggestion per place. */
  method TransformPlaces(data: seq<RawPlace>) returns (r: Outcome<seq<CityOption>>)
    ensures r == Transform(data)
  {
    var results: seq<CityOption> := [];
    for i := 0 to |data|
      invariant Transform(data[..i]) == Done(results)
    {
      var item := data[i];
      assert data[..i + 1][..i] == data[..i];
      var display := BuildDisplay(item.name, item.state, item.country);
      if display.TypeError? {
        TransformErrorStays(data, i + 1);
        return TypeError;
      }
      results := results + [CityOption(item.name, item.country, OrEmpty(item.state), display.value, item.lat, item.lon)];
    }
    assert data[..|data|] == data;
    return Done(results);
  }

  /** What the geocoding service did with the request. */
  datatype Lookup =
    | LookupFailed                                      // a `RequestException`
    | LookupAnswered(status: int, data: seq<RawPlace>)  // an answer with its status code

  /** The reply of `geocode`. */
  datatype GeocodeReply =
    | Cities(options: seq<CityOption>)
    | GeocodeFailure(status: nat, detail: string)
    | GeocodeCrash                                      // an uncaught `TypeError`: a server error

  /** Lines 16-54: the reply for the query `q` (empty when absent). */
  function Geocode(q: string, apiKey: Option<string>, lookup: Lookup): (r: GeocodeReply)
    ensures |q| < 2 ==> r == Cities([])
    ensures |q| >= 2 && !Truthy(apiKey) ==> r == GeocodeFailure(500, "API key no configurada")
    ensures |q| >= 2 && Truthy(apiKey) && (lookup.LookupFailed? || lookup.status != 200) ==> r == Cities([])
  {
    if |q| < 2 then Cities([])
    else if !Truthy(apiKey) then GeocodeFailure(500, "API key no configurada")
    else
      match lookup
      case LookupFailed => Cities([])
      case LookupAnswered(status, data) =>
        if status != 200 then Cities([])
        else
          match Transform(data)
          case TypeError => GeocodeCrash
          case Done(options) => Cities(options)
  }

  /** A short query is answered with no suggestions, whatever the key and the service would do. */
  lemma ShortQueryNeedsNoLookup(q: string, k1: Option<string>, l1: Lookup, k2: Option<string>, l2: Lookup)
    requires |q| < 2
    ensures Geocode(q, k1, l1) == Geocode(q, k2, l2) == Cities([])
  {
  }

  /** Every place the service found becomes one suggestion, in its order. */
  lemma GeocodeKeepsEveryPlace(q: string, apiKey: Option<string>, data: seq<RawPlace>)
    requires |q| >= 2 && Truthy(apiKey)
    requires forall i :: 0 <= i < |data| ==> data[i].name.Some?
    ensures Geocode(q, apiKey, LookupAnswered(200, data)).Cities?
    ensures var options := Geocode(q, apiKey, LookupAnswered(200, data)).options;
      && |options| == |data|
      && forall i :: 0 <= i < |data| ==> ToCityOption(data[i]) == Done(options[i])
  {
    TransformFinishes(data);
    TransformIsPerItem(data);
  }

  /** The handler: the guards of lines 16-21, then the transform. */
  method GeocodeHandler(q: string, apiKey: Option<string>, lookup: Lookup) returns (reply: GeocodeReply)
    ensures reply == Geocode(q, apiKey, lookup)
  {
    if |q| < 2 {
      return Cities([]);
    }
    if !Truthy(apiKey) {
      return GeocodeFailure(500, "API key no configurada");
    }
    if lookup.LookupFailed? || lookup.status != 200 {
      return Cities([]);
    }
    var results := TransformPlaces(lookup.data);
    if results.TypeError? {
      return GeocodeCrash;
    }
    return Cities(results.value);
  }

  // ---------------------------------------------------------------------
  // recommend
  // ---------------------------------------------------------------------

  /** The fields of a plant that `recommend` uses (backend/api/models.py). */
  datatype Plant = Plant(
    name: string, minTemp: real, maxTemp: real,
    minHumidity: real, maxHumidity: real, careInstructions: string)

  /** Where a reading lies against an ideal range. */
  datatype Verdict = Below | Exceeds | Within

  /** Lines 110-115 and 116-121: below the minimum, else above the maximum, else within. */
  function Classify(x: real, lo: real, hi: real): (v: Verdict)
    ensures v == Below <==> x < lo
    ensures v == Exceeds <==> lo <= x && hi < x
    ensures v == Within <==> lo <= x && x <= hi
  {
    if x < lo then Below else if x > hi then Exceeds else Within
  }

  /** Line 111. */
  function TemperatureBelow(temp: real, lo: real, show: real -> string): string {
    "La temperatura actual (" + show(temp) + "°C) está " + "por debajo"
      + " del rango ideal (" + show(lo) + "°C). Considera proteger la planta o retrasar riego."
  }

  /** Line 113. */
  function TemperatureExceeds(temp: real, hi: real, show: real -> string): string {
    "La temperatura actual (" + show(temp) + "°C) " + "excede"
      + " el rango ideal (" + show(hi) + "°C). Evita luz directa y controla la tierra."
  }

  /** Line 115. */
  function TemperatureWithin(temp: real, lo: real, hi: real, show: real -> string): string {
    "La temperatura actual (" + show(temp) + "°C) " + "está dentro del rango ideal"
      + " (" + show(lo) + "–" + show(hi) + "°C)."
  }

  /** Line 117. */
  function HumidityBelow(humidity: real, lo: real, show: real -> string): string {
    "La humedad actual (" + show(humidity) + "%) está " + "por debajo"
      + " del rango ideal (" + show(lo) + "%). Aumenta la frecuencia de riego o humedad ambiente."
  }

  /** Line 119. */
  function HumidityExceeds(humidity: real, hi: real, show: real -> string): string {
    "La humedad actual (" + show(humidity) + "%) " + "excede" + " el rango ideal (" + show(hi) + "%)."
  }

  /** Line 121. */
  function HumidityWithin(humidity: real, lo: real, hi: real, show: real -> string): string {
    "La humedad actual (" + show(humidity) + "%) " + "está dentro del rango ideal"
      + " (" + show(lo) + "–" + show(hi) + "%)."
  }

  /** Lines 110-115: the one temperature message. */
  function TemperatureMessage(temp: real, plant: Plant, show: real -> string): (m: string)
    ensures Classify(temp, plant.minTemp, plant.maxTemp) == Below ==> m == TemperatureBelow(temp, plant.minTemp, show)
    ensures Classify(temp, plant.minTemp, plant.maxTemp) == Exceeds ==> m == TemperatureExceeds(temp, plant.maxTemp, show)
    ensures Classify(temp, plant.minTemp, plant.maxTemp) == Within ==> m == TemperatureWithin(temp, plant.minTemp, plant.maxTemp, show)
  {
    match Classify(temp, plant.minTemp, plant.maxTemp)
    case Below => TemperatureBelow(temp, plant.minTemp, show)
    case Exceeds => TemperatureExceeds(temp, plant.maxTemp, show)
    case Within => TemperatureWithin(temp, plant.minTemp, plant.maxTemp, show)
  }

  /** Lines 116-121: the one humidity message. */
  function HumidityMessage(humidity: real, plant: Plant, show: real -> string): (m: string)
    ensures Classify(humidity, plant.minHumidity, plant.maxHumidity) == Below ==> m == HumidityBelow(humidity, plant.minHumidity, show)
    ensures Classify(humidity, plant.minHumidity, plant.maxHumidity) == Exceeds ==> m == HumidityExceeds(humidity, plant.maxHumidity, show)
    ensures Classify(humidity, plant.minHumidity, plant.maxHumidity) == Within ==> m == HumidityWithin(humidity, plant.minHumidity, plant.maxHumidity, show)
  {
    match Classify(humidity, plant.minHumidity, plant.maxHumidity)
    case Below => HumidityBelow(humidity, plant.minHumidity, show)
    case Exceeds => HumidityExceeds(humidity, plant.maxHumidity, show)
    case Within => HumidityWithin(humidity, plant.minHumidity, plant.maxHumidity, show)
  }

  /** Lines 109-125: the temperature message, the humidity message and the care instructions, one space apart. */
  function AdviceText(temp: real, humidity: real, plant: Plant, show: real -> string): (r: string)
    ensures r == TemperatureMessage(temp, plant, show) + " " + HumidityMessage(humidity, plant, show) + " " + plant.careInstructions
  {
    SentenceSplit.JoinThree(TemperatureMessage(temp, plant, show), HumidityMessage(humidity, plant, show), plant.careInstructions, " ");
    SentenceSplit.Join([TemperatureMessage(temp, plant, show), HumidityMessage(humidity, plant, show), plant.careInstructions], " ")
  }

  /** What the weather service did with the request. */
  datatype WeatherCall =
    | WeatherFailed                                                          // a `RequestException`
    | WeatherAnswered(status: int, temp: real, humidity: real, description: string)

  /** The reply of `recommend`. */
  datatype RecommendReply =
    | Advice(temperatura: real, humedad: real, descripcionClima: string,
             recomendaciones: string, ciudad: string, planta: string)
    | RecommendFailure(status: nat, detail: string)
    | PlantNotFound                                     // the 404 of `get_object_or_404`

  /** The detail of the 400 reply for a missing field (line 77). */
  const MissingFields := "Faltan campos 'planta' o 'ciudad'."

  /** Lines 73-134: the reply for the fields `planta` and `ciudad` of the request. */
  function Recommend(
    planta: Option<string>, ciudad: Option<string>, plants: map<string, Plant>,
    apiKey: Option<string>, weather: WeatherCall, show: real -> string, showInt: int -> string): (r: RecommendReply)
    ensures !Truthy(planta) || !Truthy(ciudad) ==> r == RecommendFailure(400, MissingFields)
    ensures Truthy(planta) && Truthy(ciudad) && planta.value !in plants ==> r == PlantNotFound
    ensures r.Advice? ==>
              && Truthy(planta) && Truthy(ciudad) && planta.value in plants && Truthy(apiKey)
              && weather.WeatherAnswered? && weather.status == 200
              && r.recomendaciones == AdviceText(weather.temp, weather.humidity, plants[planta.value], show)
              && r.ciudad == ciudad.value && r.planta == plants[planta.value].name
    ensures Truthy(planta) && Truthy(ciudad) && planta.value in plants ==>
              && (!Truthy(apiKey) ==> r == RecommendFailure(500, "API key no configurada."))
              && (Truthy(apiKey) && weather.WeatherFailed? ==>
                    r == RecommendFailure(503, "No se pudo conectar a la API de clima."))
              && (Truthy(apiKey) && weather.WeatherAnswered? && weather.status != 200 ==>
                    r == RecommendFailure(400, "Error al obtener clima: " + showInt(weather.status)))
              && (Truthy(apiKey) && weather.WeatherAnswered? && weather.status == 200 ==>
                    r == Advice(weather.temp, weather.humidity, weather.description,
                                AdviceText(weather.temp, weather.humidity, plants[planta.value], show),
                                ciudad.value, plants[planta.value].name))
  {
    if !Truthy(planta) || !Truthy(ciudad) then RecommendFailure(400, MissingFields)
    else if planta.value !in plants then PlantNotFound
    else if !Truthy(apiKey) then RecommendFailure(500, "API key no configurada.")
    else
      match weather
      case WeatherFailed => RecommendFailure(503, "No se pudo conectar a la API de clima.")
      case WeatherAnswered(status, temp, humidity, description) =>
        if status != 200 then RecommendFailure(400, "Error al obtener clima: " + showInt(status))
        else
          var plant := plants[planta.value];
          Advice(temp, humidity, description, AdviceText(temp, humidity, plant, show), ciudad.value, plant.name)
  }

  /** The handler: the guards, then the messages appended one by one and joined (lines 73-134). */
  method RecommendHandler(
    planta: Option<string>, ciudad: Option<string>, plants: map<string, Plant>,
    apiKey: Option<string>, weather: WeatherCall, show: real -> string, showInt: int -> string) returns (reply: RecommendReply)
    ensures reply == Recommend(planta, ciudad, plants, apiKey, weather, show, showInt)
  {
    if !Truthy(planta) || !Truthy(ciudad) {
      return RecommendFailure(400, MissingFields);
    }
    if planta.value !in plants {
      return PlantNotFound;
    }
    var plant := plants[planta.value];
    if !Truthy(apiKey) {
      return RecommendFailure(500, "API key no configurada.");
    }
    if weather.WeatherFailed? {
      return RecommendFailure(503, "No se pudo conectar a la API de clima.");
    }
    if weather.status != 200 {
      return RecommendFailure(400, "Error al obtener clima: " + showInt(weather.status));
    }
    var temp, humidity := weather.temp, weather.humidity;
    var mensajes: seq<string> := [];
    mensajes := AppendTemperatureMessage(mensajes, temp, plant, show);
    mensajes := AppendHumidityMessage(mensajes, humidity, plant, show);
    mensajes := mensajes + [plant.careInstructions];
    ghost var t, h := TemperatureMessage(temp, plant, show), HumidityMessage(humidity, plant, show);
    assert mensajes == [t, h, plant.careInstructions];
    var recomendacion := SentenceSplit.Join(mensajes, " ");
    return Advice(temp, humidity, weather.description, recomendacion, ciudad.value, plant.name);
  }

  /** Lines 110-115: the temperature message is appended, chosen by an `if`/`elif`/`else`. */
  method AppendTemperatureMessage(mensajes: seq<string>, temp: real, plant: Plant, show: real -> string) returns (r: seq<string>)
    ensures r == mensajes + [TemperatureMessage(temp, plant, show)]
  {
    if temp < plant.minTemp {
      r := mensajes + [TemperatureBelow(temp, plant.minTemp, show)];
    } else if temp > plant.maxTemp {
      r := mensajes + [TemperatureExceeds(temp, plant.maxTemp, show)];
    } else {
      r := mensajes + [TemperatureWithin(temp, plant.minTemp, plant.maxTemp, show)];
    }
  }

  /** Lines 116-121: the humidity message is appended, chosen by an `if`/`elif`/`else`. */
  method AppendHumidityMessage(mensajes: seq<string>, humidity: real, plant: Plant, show: real -> string) returns (r: seq<string>)
    ensures r == mensajes + [HumidityMessage(humidity, plant, show)]
  {
    if humidity < plant.minHumidity {
      r := mensajes + [HumidityBelow(humidity, plant.minHumidity, show)];
    } else if humidity > plant.maxHumidity {
      r := mensajes + [HumidityExceeds(humidity, plant.maxHumidity, show)];
    } else {
      r := mensajes + [HumidityWithin(humidity, plant.minHumidity, plant.maxHumidity, show)];
    }
  }

  // ---------------------------------------------------------------------
  // The messages and the frontend's keywords
  // ---------------------------------------------------------------------

  /** A "below" message mentions `por debajo`, an alert keyword of the frontend. */
  lemma BelowMessagesAreAlerts(x: real, lo: real, show: real -> string)
    ensures Contains(TemperatureBelow(x, lo, show), "por debajo")
    ensures Contains(HumidityBelow(x, lo, show), "por debajo")
    ensures Recommendations.HasAlert(TemperatureBelow(x, lo, show))
    ensures Recommendations.HasAlert(HumidityBelow(x, lo, show))
  {
    var k := "por debajo";
    assert Recommendations.AlertKeywords[7] == k;
    var t1 := "La temperatura actual (" + show(x) + "°C) está ";
    var t2 := " del rango ideal (" + show(lo) + "°C). Considera proteger la planta o retrasar riego.";
    RegroupAroundKeyword(t1, k, " del rango ideal (", show(lo), "°C). Considera proteger la planta o retrasar riego.");
    ContainsInfix(t1, k, t2);
    LowerCaseKeepsInfix(t1, k, t2);
    var h1 := "La humedad actual (" + show(x) + "%) está ";
    var h2 := " del rango ideal (" + show(lo) + "%). Aumenta la frecuencia de riego o humedad ambiente.";
    RegroupAroundKeyword(h1, k, " del rango ideal (", show(lo), "%). Aumenta la frecuencia de riego o humedad ambiente.");
    ContainsInfix(h1, k, h2);
    LowerCaseKeepsInfix(h1, k, h2);
  }

  /** An "exceeds" message mentions `excede`, an alert keyword of the frontend. */
  lemma ExceedsMessagesAreAlerts(x: real, hi: real, show: real -> string)
    ensures Contains(TemperatureExceeds(x, hi, show), "excede")
    ensures Contains(HumidityExceeds(x, hi, show), "excede")
    ensures Recommendations.HasAlert(TemperatureExceeds(x, hi, show))
    ensures Recommendations.HasAlert(HumidityExceeds(x, hi, show))
  {
    var k := "excede";
    assert Recommendations.AlertKeywords[0] == k;
    var t1 := "La temperatura actual (" + show(x) + "°C) ";
    var t2 := " el rango ideal (" + show(hi) + "°C). Evita luz directa y controla la tierra.";
    RegroupAroundKeyword(t1, k, " el rango ideal (", show(hi), "°C). Evita luz directa y controla la tierra.");
    ContainsInfix(t1, k, t2);
    LowerCaseKeepsInfix(t1, k, t2);
    var h1 := "La humedad actual (" + show(x) + "%) ";
    var h2 := " el rango ideal (" + show(hi) + "%).";
    RegroupAroundKeyword(h1, k, " el rango ideal (", show(hi), "%).");
    ContainsInfix(h1, k, h2);
    LowerCaseKeepsInfix(h1, k, h2);
  }

  /** A "within" message mentions `está dentro del rango ideal`, which the frontend reads as praise. */
  lemma WithinMessagesArePraise(x: real, lo: real, hi: real, show: real -> string)
    ensures Contains(TemperatureWithin(x, lo, hi, show), "está dentro del rango ideal")
    ensures Contains(HumidityWithin(x, lo, hi, show), "está dentro del rango ideal")
    ensures Recommendations.IsPositive(TemperatureWithin(x, lo, hi, show))
    ensures Recommendations.IsPositive(HumidityWithin(x, lo, hi, show))
  {
    var k := "está dentro del rango ideal";
    assert Recommendations.PositiveKeywords[1] == "está dentro del rango";
    var t1 := "La temperatura actual (" + show(x) + "°C) ";
    var t2 := " (" + show(lo) + "–" + show(hi) + "°C).";
    WithinParts(t1, show(lo), show(hi), "°C).");
    ContainsInfix(t1, k, t2);
    LowerCaseKeepsInfix(t1, "está dentro del rango", " ideal" + t2);
    var h1 := "La humedad actual (" + show(x) + "%) ";
    var h2 := " (" + show(lo) + "–" + show(hi) + "%).";
    WithinParts(h1, show(lo), show(hi), "%).");
    ContainsInfix(h1, k, h2);
    LowerCaseKeepsInfix(h1, "está dentro del rango", " ideal" + h2);
  }

  /** `a + k + b + s + c` is `a`, then `k`, then `b + s + c`. */
  lemma RegroupAroundKeyword(a: string, k: string, b: string, s: string, c: string)
    ensures a + k + b + s + c == a + k + (b + s + c)
  {
  }

  /** The two ways the "within" messages are read: around the whole phrase, and around its keyword. */
  lemma WithinParts(a: string, lo: string, hi: string, c: string)
    ensures a + "está dentro del rango ideal" + " (" + lo + "–" + hi + c
              == a + "está dentro del rango ideal" + (" (" + lo + "–" + hi + c)
    ensures a + "está dentro del rango ideal" + " (" + lo + "–" + hi + c
              == a + "está dentro del rango" + (" ideal" + (" (" + lo + "–" + hi + c))
  {
    assert "está dentro del rango ideal" == "está dentro del rango" + " ideal";
  }
}
