# GreenAdvice core in Dafny

GreenAdvice gives care advice for a house plant in a given city. The backend
(`backend/api/views.py`) does two things:

- `geocode` suggests cities for a partial name;
- `recommend` compares the city's current weather with the plant's ideal
  temperature and humidity ranges and writes a short advice text.

The frontend (`frontend/lib/utils/recommendations.ts`) cuts that advice text
into sentences and sorts them into alerts and recommendations. It also keeps
favourite cities and the consultation history in the browser's
`localStorage` (`frontend/lib/services/storage.ts`).

This project models those three pieces and proves what they promise.

- **`Recommendations`, with `Text`, `DecimalMask` and `SentenceSplit`**
  model `processRecommendations`.
  - The text is split into lines, and blank lines are dropped.
  - In each trimmed line, the decimal points are masked as `DECIMAL` by the
    four regular-expression replacements, in their order.
  - The line is split at a period that is followed by white space and an
    ASCII capital letter, or at a period that ends the line.
  - Each piece is restored, trimmed and kept only when it is longer than
    five characters.
  - Every kept sentence goes to `alerts` if its lower-case form contains an
    alert keyword, and to `recommendations` otherwise. A final period is
    added when the sentence lacks one.
  - `splitIntoSentences` and the list builders are functions. Each global
    `replace` and regex `split` is written as the left-to-right scan that
    JavaScript performs.
  - `ProcessRecommendations` is the method with the outer loop of the
    source; `FileSentences` holds the inner loop over one line's
    sentences. The result of `ProcessRecommendations` is proved equal to
    the filter-based specification `AlertsOf(Sentences(text))` /
    `RecommendationsOf(Sentences(text))`.
- **`RecommendationExamples`** proves what the classifier does on three
  concrete sentences:
  - a sentence that praises and warns at once;
  - a reading with a decimal temperature;
  - an ideal range written `10.0–29.0` followed by a second sentence.
- **`Storage`** models `storageService`.
  - `localStorage` is the class `LocalStore`. Its two keys are the fields
    `favorites` and `history`; each holds `None` until it is first written.
  - `addToHistory` and `addFavoriteCity` are methods that read, rebuild and
    write those fields.
  - The new lists are built by the functions `WithHistoryItem` and
    `WithFavorite`, and the lemmas beside them prove their properties.
- **`Views`** models the decision logic of the two request handlers.
  - `geocode`: the short-query guard, then the per-place transform with its
    `display` and `state` defaulting. The transform is a method with a loop,
    proved equal to a recursive function.
  - `recommend`: the missing-field guard, then the three-way range verdicts
    for temperature and humidity, then the three messages joined by spaces.
  - Lemmas prove that the fixed wording of each message carries the keyword
    the frontend classifier reacts to.
  - Outside inputs are parameters:
    - the configured API key;
    - what the weather services answered;
    - the plants table, as a map from slug to plant;
    - Python's rendering of a number inside an f-string (`show`, `showInt`),
      which is left uninterpreted.

Characters follow JavaScript where the model needs them:

- `IsSpace` is the ECMAScript white-space and line-terminator set.
- `LowerChar` lowers `A`–`Z` and the Latin-1 capitals `À`–`Þ`, except `×`.
  This includes `Á É Í Ó Ú Ñ Ü`.
- `IsAsciiUpper` is the split lookahead `[A-Z]`.

## Model

| member | source | states |
|---|---|---|
| Text.LowerChar | frontend/lib/utils/recommendations.ts:80 | lowering never yields an ASCII capital and keeps digits; it adds 32 to exactly the ASCII capitals and the Latin-1 capitals `À`–`Þ` other than `×`, and leaves every other character as it is |
| Text.LowerCase | frontend/lib/utils/recommendations.ts:80 | lowering a text keeps its length, lowers each character on its own and leaves no ASCII capital |
| Text.LowerCaseIdempotent | frontend/lib/utils/recommendations.ts:80-83 | lowering an already lowered text changes nothing |
| Text.Trim | frontend/lib/utils/recommendations.ts:20 | a trimmed text is no longer than the text and, when not empty, starts and ends with a character that is not white space |
| Text.TrimSpec | frontend/lib/utils/recommendations.ts:20 | `trim` removes exactly a white-space margin at each end, and a non-empty result starts and ends with a non-space |
| Text.TrimIdempotent | frontend/lib/utils/recommendations.ts:35 | trimming an already trimmed sentence changes nothing, so the second `trim` of line 35 is a no-op |
| Text.TrimEmptyIffBlank | frontend/lib/utils/recommendations.ts:25 | a line trims to the empty string exactly when every character is white space, which is the blank-line filter |
| Text.TrimmedIsFixed | frontend/lib/utils/recommendations.ts:28 | a text with no white space at either end is its own trim |
| Text.LowerCaseConcat | frontend/lib/utils/recommendations.ts:80 | lowering works character by character, so it distributes over concatenation |
| Text.LowerCaseKeepsInfix | frontend/lib/utils/recommendations.ts:83 | a lower-case keyword written inside a sentence is found in the sentence's lower-case form |
| Text.LowerCaseMissingPair | frontend/lib/utils/recommendations.ts:83 | a keyword with two adjacent letters that never occur adjacent in the lowered sentence is not contained in it |
| DecimalMask.DigitRunIsMaximal | frontend/lib/utils/recommendations.ts:10 | `\d+` takes the maximal digit run: every counted character is a digit and the next one is not |
| DecimalMask.DecimalIsMaximal | frontend/lib/utils/recommendations.ts:10 | a match of `(\d+)\.(\d+)` takes the whole digit run before the point and the whole digit run after it |
| DecimalMask.DecimalMatchIsGreedy | frontend/lib/utils/recommendations.ts:10-12 | the pattern matches at a position iff the text there is digits, a point, digits and the suffix, and the greedy match covers the longest such digit runs |
| DecimalMask.Mask | frontend/lib/utils/recommendations.ts:10-13 | a global replacement only writes the token in place of a period, so it never shortens the text and keeps its first character |
| DecimalMask.MaskAll | frontend/lib/utils/recommendations.ts:9-20 | whatever the four replacements of lines 10-13 mask, the restoring replacement of line 20 undoes: restoring the masked line is restoring the line |
| DecimalMask.Restore | frontend/lib/utils/recommendations.ts:20 | restoring never lengthens a text and leaves a text without the letter D as it is |
| DecimalMask.MaskWithoutDecimalPoint | frontend/lib/utils/recommendations.ts:10-13 | a text in which no period is followed by a digit is left as it is by every replacement |
| DecimalMask.MaskKeepsPlainPrefix | frontend/lib/utils/recommendations.ts:10-13 | a replacement keeps a digit-free prefix: the masked text starts with it iff the original does |
| DecimalMask.MaskBareDecimal | frontend/lib/utils/recommendations.ts:10 | `x.y` followed by a non-digit becomes `xDECIMALy` and the scan resumes after `y` |
| DecimalMask.MaskRange | frontend/lib/utils/recommendations.ts:13 | the range rule turns `x1.y1–x2.y2` followed by a non-digit into `x1DECIMALy1–x2DECIMALy2` and resumes the scan after it |
| DecimalMask.RestoreUndoesMask | frontend/lib/utils/recommendations.ts:10-20 | restoring a masked text gives what restoring the unmasked text gives, for each of the four patterns |
| DecimalMask.RestoreFixesExactlyTokenFree | frontend/lib/utils/recommendations.ts:20 | restoring leaves a text unchanged iff it does not contain `DECIMAL`, so a literal `DECIMAL` in the advice becomes a period |
| DecimalMask.MaskAllRoundTrip | frontend/lib/utils/recommendations.ts:9-20 | for a line without `DECIMAL`, masking then restoring gives the line back |
| SentenceSplit.SpaceRun | frontend/lib/utils/recommendations.ts:16 | `\s+` takes the maximal run of white space |
| SentenceSplit.MatchLength | frontend/lib/utils/recommendations.ts:16 | a sentence-separator match is a period that ends the text, or a period followed by nothing but white space up to an ASCII capital, which is not consumed; the line separator of line 25 matches `\r\n` or `\n`, never a lone `\r` |
| SentenceSplit.SentenceEndMatchesRun | frontend/lib/utils/recommendations.ts:16 | conversely, a period, a run of white space and an ASCII capital match as the period and the whole run |
| SentenceSplit.SentenceEndMatchesFinalPeriod | frontend/lib/utils/recommendations.ts:16 | conversely, a period that is the whole remaining text matches alone |
| SentenceSplit.Split | frontend/lib/utils/recommendations.ts:16 | `split` always yields at least one piece |
| SentenceSplit.SplitAtFirstMatch | frontend/lib/utils/recommendations.ts:16 | the first piece is the text before the first match, and splitting resumes after that match |
| SentenceSplit.SplitWithoutMatch | frontend/lib/utils/recommendations.ts:16 | a text with no match splits into itself alone |
| SentenceSplit.SplitCopiesPlainPrefix | frontend/lib/utils/recommendations.ts:16 | text before any match stays at the head of the first piece |
| SentenceSplit.OneSentenceWithoutBoundary | frontend/lib/utils/recommendations.ts:16 | a line whose every period is neither followed by spaces and a capital nor at the end is one sentence |
| SentenceSplit.SplitAtFinalPeriod | frontend/lib/utils/recommendations.ts:16 | a text ending in its only period splits into the text before it and an empty piece |
| SentenceSplit.LinesHaveNoLineFeed | frontend/lib/utils/recommendations.ts:25 | no line produced by the line split contains a line feed |
| SentenceSplit.JoinSplitLines | frontend/lib/utils/recommendations.ts:25 | joining the lines with `\n` gives the text with each `\r\n` turned into `\n`, so the split loses only the separators |
| SentenceSplit.OneLineWithoutLineFeed | frontend/lib/utils/recommendations.ts:25 | a text without a line feed is a single line, carriage returns included |
| Recommendations.Finish | frontend/lib/utils/recommendations.ts:89 | the finished sentence ends with a period, starts with the sentence, and is one longer exactly when the sentence lacked the period |
| Recommendations.Retained | frontend/lib/utils/recommendations.ts:19-21 | every kept piece is trimmed and longer than five characters, and none are added |
| Recommendations.RetainedMembership | frontend/lib/utils/recommendations.ts:19-21 | a sentence is kept iff it is the restored, trimmed form of some piece and is longer than five characters |
| Recommendations.RetainedAppend | frontend/lib/utils/recommendations.ts:19-21 | the kept sentences of two runs of pieces are those of the first run followed by those of the second, so order is kept |
| Recommendations.SplitIntoSentences | frontend/lib/utils/recommendations.ts:7-22 | every sentence of a line is trimmed and longer than five characters |
| Recommendations.NonBlank | frontend/lib/utils/recommendations.ts:25 | only lines that are not blank are kept, and none are added |
| Recommendations.NonBlankMembership | frontend/lib/utils/recommendations.ts:25 | a line is kept iff it is one of the lines and does not trim to the empty text |
| Recommendations.NonBlankAppend | frontend/lib/utils/recommendations.ts:25 | the kept lines of two runs of lines are those of the first run followed by those of the second, so order is kept |
| Recommendations.SentencesOfLines | frontend/lib/utils/recommendations.ts:27-32 | every sentence of the lines is trimmed and longer than five characters |
| Recommendations.Sentences | frontend/lib/utils/recommendations.ts:25-36 | every retained sentence of the advice text is trimmed and longer than five characters |
| Recommendations.HasAlert | frontend/lib/utils/recommendations.ts:80-83 | the alert test ignores case: a sentence and its lower-case form get the same answer |
| Recommendations.IsPositive | frontend/lib/utils/recommendations.ts:80-86 | the positive test ignores case in the same way |
| Recommendations.AlertsOf | frontend/lib/utils/recommendations.ts:92-94 | the alerts are no more than the sentences, and each ends with a period |
| Recommendations.RecommendationsOf | frontend/lib/utils/recommendations.ts:95-102 | the recommendations are no more than the sentences, and each ends with a period |
| Recommendations.PickedMembership | frontend/lib/utils/recommendations.ts:92-102 | an entry of a bucket is exactly the finished form of some sentence the bucket's test accepts |
| Recommendations.AlertMembership | frontend/lib/utils/recommendations.ts:83 | a text is an alert iff it is the finished form of a sentence that mentions an alert keyword |
| Recommendations.RecommendationMembership | frontend/lib/utils/recommendations.ts:95-102 | a text is a recommendation iff it is the finished form of a sentence without an alert keyword, with or without a positive keyword |
| Recommendations.PartitionSizes | frontend/lib/utils/recommendations.ts:92-102 | every retained sentence lands in exactly one bucket: the two sizes add up to the number of sentences |
| Recommendations.ListsOfOneMore | frontend/lib/utils/recommendations.ts:92-102 | one more sentence appends its finished form to exactly one bucket, at the end, leaving the other unchanged |
| Recommendations.PrefixLists | frontend/lib/utils/recommendations.ts:93-101 | the buckets of the first sentences are prefixes of the full buckets: nothing is reordered |
| Recommendations.SentencePlace | frontend/lib/utils/recommendations.ts:93-101 | each sentence's finished form sits in its bucket right after those of the earlier sentences of the same bucket |
| Recommendations.OutputShape | frontend/lib/utils/recommendations.ts:89 | every alert and every recommendation ends with a period and has at least six characters |
| Recommendations.NonBlankOfBlank | frontend/lib/utils/recommendations.ts:25 | lines made only of white space are all dropped |
| Recommendations.BlankTextHasNoAdvice | frontend/lib/utils/recommendations.ts:25-29 | an empty or all-white-space text yields no sentences, no alerts and no recommendations |
| Recommendations.SingleLineSentences | frontend/lib/utils/recommendations.ts:25-32 | a single trimmed line yields exactly the sentences `splitIntoSentences` gives for it |
| Recommendations.OneSentenceText | frontend/lib/utils/recommendations.ts:7-22 | a line whose masked form has one final period and no other yields the restored sentence alone |
| Recommendations.MaskKeepsNoSentenceEnd | frontend/lib/utils/recommendations.ts:10-16 | masking never creates a split point where the line had none |
| Recommendations.AtMostOneSentence | frontend/lib/utils/recommendations.ts:16 | a line with no split point yields at most one sentence |
| Recommendations.SentencesOfNextLine | frontend/lib/utils/recommendations.ts:27-32 | the sentences of one more line come after those of the earlier lines |
| Recommendations.OneMoreSentence | frontend/lib/utils/recommendations.ts:34-102 | handling one more sentence of a line extends exactly one bucket by its finished form |
| Recommendations.ProcessRecommendations | frontend/lib/utils/recommendations.ts:2-107 | the two nested loops return exactly the alert and recommendation filters of the retained sentences, in order |
| Recommendations.FileSentences | frontend/lib/utils/recommendations.ts:34-102 | the loop over one line's sentences extends the buckets of the earlier sentences to exactly the buckets of those sentences followed by this line's |
| RecommendationExamples.MentionedAt | frontend/lib/utils/recommendations.ts:83 | a sentence with a lower-case keyword written at some position mentions that keyword |
| RecommendationExamples.DecimalSentence | frontend/lib/utils/recommendations.ts:10-20 | a one-line sentence holding `x.y` and ending in a period yields one sentence, with the decimal restored as written |
| RecommendationExamples.RiskAndPraiseAlert | frontend/lib/utils/recommendations.ts:39-65 | `Es perfecto pero hay riesgo de quemaduras` mentions an alert keyword |
| RecommendationExamples.RiskAndPraisePositive | frontend/lib/utils/recommendations.ts:68-78 | the same sentence also mentions a positive keyword |
| RecommendationExamples.AlertTakesPriority | frontend/lib/utils/recommendations.ts:92-98 | `Es perfecto pero hay riesgo de quemaduras.` lands in alerts and not in recommendations, although it is positive |
| RecommendationExamples.HotReadingAlert | frontend/lib/utils/recommendations.ts:39-65 | `La temperatura es 13.82°C y supera el máximo` mentions an alert keyword |
| RecommendationExamples.DecimalStaysInSentence | frontend/lib/utils/recommendations.ts:10-20 | `La temperatura es 13.82°C y supera el máximo.` yields exactly one alert equal to itself: the decimal is no split point and is restored verbatim |
| RecommendationExamples.TwoSentenceSplit | frontend/lib/utils/recommendations.ts:16 | `m. Q.` splits into `m`, `Q` and an empty piece when `m` has no period and `Q` starts with a capital |
| RecommendationExamples.MaskTwoDecimals | frontend/lib/utils/recommendations.ts:10 | both decimals of a range `x.y–u.v` are masked by the first replacement |
| RecommendationExamples.LaterRulesKeepMaskedRange | frontend/lib/utils/recommendations.ts:10-13 | on a range between texts without digits or periods, the bare rule masks both periods and the °C, % and range rules then leave the line unchanged |
| RecommendationExamples.RangeRuleMasksLikeBareRule | frontend/lib/utils/recommendations.ts:10-13 | on such a line, the range rule alone would mask the range exactly as the bare rule does |
| RecommendationExamples.RangeLineSplit | frontend/lib/utils/recommendations.ts:9-16 | a masked range line splits at the sentence boundary only, never at a decimal point |
| RecommendationExamples.RangeLineRestores | frontend/lib/utils/recommendations.ts:20 | the first piece of a range line restores to the range as written |
| RecommendationExamples.RangeAdviceSentences | frontend/lib/utils/recommendations.ts:9-21 | `El rango ideal es 10.0–29.0 grados. Todo está bien.` yields exactly the two sentences |
| RecommendationExamples.RangeSentenceNoAlert | frontend/lib/utils/recommendations.ts:39-65 | the range sentence mentions no alert keyword |
| RecommendationExamples.AllWellNoAlert | frontend/lib/utils/recommendations.ts:39-65 | `Todo está bien` mentions no alert keyword |
| RecommendationExamples.RangeAdviceIsTwoRecommendations | frontend/lib/utils/recommendations.ts:89-102 | that text yields no alerts and two recommendations: the first contains `10.0–29.0` and the second is `Todo está bien.` |
| RecommendationExamples.RangeSentenceKeepsRange | frontend/lib/utils/recommendations.ts:89 | the finished range sentence still contains `10.0–29.0` |
| Storage.Take | frontend/lib/services/storage.ts:28 | `slice(0, n)` keeps the first min(length, n) entries, unchanged and in order |
| Storage.WithHistoryItem | frontend/lib/services/storage.ts:28 | the new item comes first, then the first min(length, 9) old entries in order, so at most 10 are kept and only the oldest are dropped |
| Storage.WithoutName | frontend/lib/services/storage.ts:35 | no kept favourite has the given name, and none are added |
| Storage.WithFavorite | frontend/lib/services/storage.ts:35 | the new city is last and no other entry has its name |
| Storage.WithoutNameMembership | frontend/lib/services/storage.ts:35 | a favourite survives the filter iff it was there and has another name |
| Storage.WithoutNameAppend | frontend/lib/services/storage.ts:35 | the filter works piece by piece, so the kept entries keep their relative order |
| Storage.WithoutAbsentName | frontend/lib/services/storage.ts:35 | when no entry has the name, the filter returns the list unchanged |
| Storage.WithoutNameKeepsUnique | frontend/lib/services/storage.ts:35 | filtering a list of distinct names leaves the names distinct |
| Storage.FavoriteKeepsNamesUnique | frontend/lib/services/storage.ts:35 | adding a favourite to a list of distinct names keeps the names distinct |
| Storage.NewFavoriteIsAppended | frontend/lib/services/storage.ts:35 | a favourite with a new name is simply appended |
| Storage.FavoriteIsIdempotent | frontend/lib/services/storage.ts:33-37 | adding the same city twice stores it once |
| Storage.HistoryIsMostRecentFirst | frontend/lib/services/storage.ts:26-31 | after two consultations, the later one comes first and the earlier one second |
| Storage.LocalStore.constructor | frontend/lib/services/storage.ts:6 | a fresh store holds neither key |
| Storage.LocalStore.GetFavoriteCities | frontend/lib/services/storage.ts:4-8 | a key that was never written reads as the empty list; otherwise the saved list is returned |
| Storage.LocalStore.SaveFavoriteCities | frontend/lib/services/storage.ts:10-13 | the favourites become the given list and the history is unchanged |
| Storage.LocalStore.GetHistory | frontend/lib/services/storage.ts:15-19 | a key that was never written reads as the empty list; otherwise the saved list is returned |
| Storage.LocalStore.SaveHistory | frontend/lib/services/storage.ts:21-24 | the history becomes the given list and the favourites are unchanged |
| Storage.LocalStore.AddToHistory | frontend/lib/services/storage.ts:26-31 | the returned and stored history is the item followed by the first nine old entries; it has at most 10 entries and the favourites are unchanged |
| Storage.LocalStore.AddFavoriteCity | frontend/lib/services/storage.ts:33-38 | the returned and stored favourites are the old ones without the city's name, then the city; the history is unchanged, and distinct names stay distinct |
| Views.OrEmpty | backend/api/views.py:49 | `state or ""` is the state when it is truthy and the empty text exactly when it is not |
| Views.Part | backend/api/views.py:42-45 | a truthy part contributes `", "` and the part; otherwise it contributes nothing |
| Views.Display | backend/api/views.py:40-45 | the display is the name, then `", " + state` when the state is truthy, then `", " + country` when the country is truthy, in that order; a missing name is a `TypeError` iff a part must be appended to it, and stays missing otherwise |
| Views.DisplayOfBothParts | backend/api/views.py:41-45 | with a name and both parts truthy, the display is the name, `", " + state`, then `", " + country` |
| Views.DisplayShowsParts | backend/api/views.py:41-45 | with a name present, the display contains `", " + state` and `", " + country` whenever those are truthy |
| Views.BuildDisplay | backend/api/views.py:41-45 | the `+=` steps build exactly the display |
| Views.ToCityOption | backend/api/views.py:35-53 | a place becomes an option with its name, country, coordinates and display, and its state defaulted to `""`; it fails exactly when its display does |
| Views.Transform | backend/api/views.py:33-53 | a finished transform has exactly one option per place |
| Views.TransformFinishes | backend/api/views.py:33-53 | the transform finishes iff every place can be turned into an option |
| Views.TransformIsPerItem | backend/api/views.py:33-53 | a finished transform yields one option per place, in order, each the option of its own place |
| Views.TransformErrorStays | backend/api/views.py:33-53 | once a prefix of the places fails, the whole transform fails |
| Views.TransformPlaces | backend/api/views.py:33-53 | the loop that appends one option per place computes the transform |
| Views.Geocode | backend/api/views.py:16-54 | a query shorter than 2 is answered with no cities; a missing key with 500 `API key no configurada`; a failed or non-200 lookup with no cities |
| Views.ShortQueryNeedsNoLookup | backend/api/views.py:16-18 | for a short query the reply does not depend on the key or on the lookup, so no lookup is needed |
| Views.GeocodeKeepsEveryPlace | backend/api/views.py:33-54 | when every place has a name, a 200 answer yields one city per place, in order |
| Views.GeocodeHandler | backend/api/views.py:16-54 | the handler's guards and loop compute exactly the geocode reply |
| Views.Classify | backend/api/views.py:110-121 | a reading is below iff it is under the minimum, exceeds iff it is not below and over the maximum, and is within iff it lies between them |
| Views.TemperatureMessage | backend/api/views.py:110-115 | the temperature message is the below, exceeds or within wording according to the verdict |
| Views.HumidityMessage | backend/api/views.py:116-121 | the humidity message is the below, exceeds or within wording according to the verdict |
| SentenceSplit.JoinThree | backend/api/views.py:125 | joining three parts puts one separator between consecutive parts |
| Views.AppendTemperatureMessage | backend/api/views.py:110-115 | exactly one temperature message is appended |
| Views.AppendHumidityMessage | backend/api/views.py:116-121 | exactly one humidity message is appended |
| Views.AdviceText | backend/api/views.py:109-125 | joining the three messages with `" "` gives the temperature message, a space, the humidity message, a space and the care instructions |
| Views.Recommend | backend/api/views.py:73-134 | a missing or empty `planta` or `ciudad` is a 400 before any lookup; an unknown plant is not found; then no key is a 500, a failed weather call a 503 and a non-200 answer a 400 with the status; a 200 answer gives exactly the advice with the reading, the three messages joined by spaces, the city and the plant name, and advice is given in no other case |
| Views.RecommendHandler | backend/api/views.py:73-134 | the handler's guards, appends and join compute exactly the recommend reply |
| Views.BelowMessagesAreAlerts | backend/api/views.py:111-117 | both "below" messages contain `por debajo`, so the frontend files them as alerts |
| Views.ExceedsMessagesAreAlerts | backend/api/views.py:113-119 | both "exceeds" messages contain `excede`, so the frontend files them as alerts |
| Views.WithinMessagesArePraise | backend/api/views.py:115-121 | both "within" messages contain `está dentro del rango ideal`, a positive keyword of the frontend |

## Left out

- The `typeof window === "undefined"` guard and the JSON encoding in `storage.ts`. These are browser I/O. A saved list is taken to read back as it was, and the store is two fields.
- The HTTP calls of `views.py`, their timeouts and Django's `Response` plumbing. What the services answered is a parameter (`Lookup`, `WeatherCall`), and a reply is a datatype value.
- The database lookup of `get_object_or_404`. The plants table is a map from slug to plant, and a missing slug is `PlantNotFound`. The 404 body that Django writes is not modelled.
- Views.Recommend: the number rendering in the f-strings is the uninterpreted `show`/`showInt`. Python's float formatting, and the difference between a JSON integer and float in the weather answer, are not modelled.
- Views.Recommend: a malformed weather answer, which makes `resp.json()` or a `["main"]` key lookup raise, is not modelled. The weather answer is taken to carry the fields it should.
- Views.Recommend: `planta` and `ciudad` are optional texts. A JSON value of another type in those fields is not modelled.
- Views.Geocode: the places are records of optional fields. A `data` that is not a list of objects is not modelled.
- Text.LowerChar: JavaScript's `toLowerCase` is modelled for ASCII and the Latin-1 capitals only. Other scripts, and characters whose lower case is longer than one character, are not modelled.
- Text.Trim: `trim` and `\s` use the ECMAScript white-space set, listed character by character. Strings are sequences of characters, not of UTF-16 code units.
- The React components, the `fetch` wrappers (`api.ts`, `cities.ts`), the settings and the URL routing are outside this model.
