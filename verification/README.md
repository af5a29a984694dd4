# ESP32 RGB web server: request handling, in Dafny

This project models the actuator side of Micro-Change-RGB. The actuator is an ESP32
running nanoFramework (`WiFiAP/Program.cs`). It drives an RGB LED through three GPIO
pins and serves HTTP:

- `GET /setcolor?color=<name>` sets the LED to one of eight fixed colors.
- Any other request gets a short HTML usage page.

The model covers everything in that file that makes a decision:

- **Pins and the color switch.** `SetRgbColor` and `SetColorByName` update the three
  pin fields of class `WifiAP.Program`. The eight-entry name → triple table is
  `Colors.ColorOf` plus `Colors.Triple`.
- **Query parsing.** `ParseParams` fills a table from `k=v&k=v` text in a loop, and
  `HasKey` scans the keys. Both are methods in `Query`. The .NET `Hashtable` becomes a
  `map<string, string>`.
- **Routing.** `ProcessRequest` splits the raw URL on `?`, lowers the path, and builds
  the reply's content type, body and header step by step. It is a method of
  `WifiAP.Program`. Its result and new LED state are tied to two pure functions:
  `WifiAP.ReplyFor` (the reply for a raw URL) and `WifiAP.NextState` (the LED state
  after it).
- **String helpers.** The .NET operations the handler relies on are modelled in `Text`:
  `String.Split(char)`, `ToLower` (ASCII letters) and `Trim` (Latin-1 white space).

A C# `null` string is `Wrappers.Option<string>.None`.

Behaviour that follows the code and may be surprising:

- `GET /setcolor` with no `?` gets the HTML usage page, because the handler requires a
  second piece after splitting on `?` (`WiFiAP/Program.cs:197`). One might expect
  "Color parameter is missing!" here; the code serves the usage page
  (`RequestExamples.ExampleNoQuery`).
- The reply echoes the raw parameter value. Only the copy used for the lookup is lowered
  and trimmed (`RequestExamples.ExampleUpperCaseValue`, `ExamplePaddedValue`).
- The empty check comes before trimming. A value of spaces is therefore answered
  "Unknown color: ..." and not "Color parameter is missing!"
  (`RequestExamples.ExampleWhiteOnlyValue`).
- Only the text between the first and the second `?` is parsed as the query
  (`WifiAP.SecondQuestionMarkCuts`).

## Model

| member | source | states |
|---|---|---|
| `Text.Split` | WiFiAP/Program.cs:240-243 | `String.Split(c)`: one piece more than there are separators, and no piece contains the separator |
| `Text.JoinSplit` | WiFiAP/Program.cs:240-243 | gluing the pieces back together with the separator gives the original string |
| `Text.SplitJoin` | WiFiAP/Program.cs:240-243 | splitting a join of separator-free pieces gives the pieces back |
| `Text.SplitHead` | WiFiAP/Program.cs:194-197 | the first piece is the text before the first separator; a second piece exists exactly when the separator occurs |
| `Text.SplitSnoc` | WiFiAP/Program.cs:240-241 | appending a separator and a separator-free piece adds exactly that piece at the end |
| `Text.LowerTwice` | WiFiAP/Program.cs:69 | ASCII lowering is idempotent |
| `Text.LowerConcat` | WiFiAP/Program.cs:69 | lowering a concatenation lowers each part |
| `Text.LowerIgnoresCase` | WiFiAP/Program.cs:195 | strings equal up to ASCII case lower to the same string |
| `Text.LowerKeepsWhite` | WiFiAP/Program.cs:69 | lowering neither creates nor removes white space |
| `Text.TrimStartSpec` | WiFiAP/Program.cs:69 | TrimStart drops a white-space prefix and leaves no leading white space |
| `Text.TrimEndSpec` | WiFiAP/Program.cs:69 | TrimEnd drops a white-space suffix and leaves no trailing white space |
| `Text.TrimTwice` | WiFiAP/Program.cs:69 | trimming is idempotent |
| `Text.TrimPadded` | WiFiAP/Program.cs:69 | white space on either side does not change the trimmed result |
| `Text.TrimWhite` | WiFiAP/Program.cs:69 | a string of white space trims to the empty string |
| `Query.ParseParams` | WiFiAP/Program.cs:237-248 | the loop builds exactly the table of the `&`-segments taken in order, keeping only segments that split on `=` into two |
| `Query.HasKey` | WiFiAP/Program.cs:250-256 | true exactly when the key is in the table, by exact (case-sensitive) string equality |
| `Query.PairIffOneEquals` | WiFiAP/Program.cs:243-244 | a segment contributes an entry exactly when it contains exactly one `=` |
| `Query.PairShape` | WiFiAP/Program.cs:243-245 | a contributing segment is its key, `=`, and its value, and neither contains `=` |
| `Query.MakePair` | WiFiAP/Program.cs:243-245 | conversely, `k=v` with no `=` in k or v contributes key k with value v |
| `Query.EmptyQuery` | WiFiAP/Program.cs:237-248 | an empty query yields an empty table |
| `Query.QueryAppend` | WiFiAP/Program.cs:241-246 | appending `&segment` to a query is one more step of the fill loop |
| `Query.LaterPairWins` | WiFiAP/Program.cs:245 | a later `k=v` overwrites whatever an earlier segment stored under k |
| `Query.TableKeys` | WiFiAP/Program.cs:241-246 | a key is in the table exactly when some contributing segment carries it |
| `Query.TableLastWins` | WiFiAP/Program.cs:241-246 | a key's value comes from the last contributing segment that carries it |
| `Colors.ColorOf` | WiFiAP/Program.cs:72-100 | the switch gives a color exactly for the eight labels, and that color's label is the input |
| `Colors.TripleInjective` | WiFiAP/Program.cs:74-97 | the eight colors have eight distinct pin triples; only `off` is all low |
| `Colors.NameRoundTrip` | WiFiAP/Program.cs:72-97 | each label selects its own color and no other label does |
| `Colors.RecognizeIff` | WiFiAP/Program.cs:64-103 | a value is recognised exactly when it is non-null and non-empty and its lowered-then-trimmed form is one of the eight names; the recognised color has that name |
| `Colors.NormalizeInsensitive` | WiFiAP/Program.cs:69 | ASCII case and surrounding white space do not change the normalised name |
| `Colors.RecognizeInsensitive` | WiFiAP/Program.cs:64-100 | ASCII case and surrounding white space do not change which color, if any, is chosen |
| `Colors.WhiteOnlyUnknown` | WiFiAP/Program.cs:66-99 | a value of white space only passes the empty check but is not recognised |
| `Colors.ApplyIdempotent` | WiFiAP/Program.cs:55-100 | applying the same name twice leaves the state of applying it once |
| `Colors.ApplyForgetsState` | WiFiAP/Program.cs:72-97 | a recognised name fixes the LED state whatever it was before |
| `WifiAP.Program.constructor` | WiFiAP/Program.cs:41-53 | after start-up (a green blink, then all pins low) the LED is off |
| `WifiAP.Program.SetRgbColor` | WiFiAP/Program.cs:55-62 | the three pins take the three given values |
| `WifiAP.Program.SetColorByName` | WiFiAP/Program.cs:64-103 | returns true exactly for a recognised name, then the pins show its triple; otherwise the pins are unchanged |
| `WifiAP.Program.ProcessRequest` | WiFiAP/Program.cs:182-235 | the reply is `ReplyFor(rawUrl)` and the new LED state is `NextState(old state, rawUrl)` |
| `WifiAP.UsagePageIff` | WiFiAP/Program.cs:191-221 | the HTML usage page is served, with the LED untouched, exactly when the URL has no `?` or its lowered path is not `/setcolor`; otherwise the reply is `text/plain`; every reply carries `Access-Control-Allow-Origin: *` |
| `WifiAP.QueryRoute` | WiFiAP/Program.cs:194-203 | for a `/setcolor` path the branch is decided by the color entry of the parsed query table |
| `WifiAP.SetColorReply` | WiFiAP/Program.cs:197-214 | for a `/setcolor` path and any query: when the parsed table has no `color` entry or an empty one, the body is "Color parameter is missing!" and the LED is untouched; when the entry names a color, the body is "Color set to " plus the raw entry and the LED shows that color; otherwise the body is "Unknown color: " plus the raw entry and the LED is untouched |
| `WifiAP.SecondQuestionMarkCuts` | WiFiAP/Program.cs:194-200 | text after a second `?` is ignored |
| `WifiAP.ColorRoute` | WiFiAP/Program.cs:197-212 | `<path>?color=<v>` is routed to the color handler with value v, or is reported missing when v is empty |
| `WifiAP.ColorTable` | WiFiAP/Program.cs:237-248 | the query `color=<v>` parses to the single entry color → v |
| `WifiAP.KnownColorRequest` | WiFiAP/Program.cs:204-214 | the one-parameter request `<path>?color=<v>` with v naming a color echoes v after "Color set to " and sets that color's triple |
| `WifiAP.UnknownColorRequest` | WiFiAP/Program.cs:204-214 | the one-parameter request `<path>?color=<v>` with a non-empty v naming no color echoes v after "Unknown color: " and leaves the LED untouched |
| `WifiAP.EmptyColorRequest` | WiFiAP/Program.cs:199-214 | the request `<path>?color=` gives "Color parameter is missing!" and leaves the LED untouched |
| `WifiAP.BodyMatchesEffect` | WiFiAP/Program.cs:204-211 | the LED changes only when the body says "Color set to ...", and then it shows the color named by the echoed value |
| `WifiAP.RequestIdempotent` | WiFiAP/Program.cs:197-208 | handling the same request twice leaves the LED as handling it once |
| `RequestExamples.PathSpelling` | WiFiAP/Program.cs:195-197 | `/setcolor`, `/SetColor` and `/SETCOLOR` all lower to the control path |
| `RequestExamples.ExampleRed` | WiFiAP/Program.cs:74-76 | `?color=red` → "Color set to red", LED (on, off, off) |
| `RequestExamples.ExampleOff` | WiFiAP/Program.cs:95-97 | `?color=off` → "Color set to off", LED all off |
| `RequestExamples.ExampleUnknown` | WiFiAP/Program.cs:98-99 | `?color=purple` → "Unknown color: purple", LED unchanged |
| `RequestExamples.ExampleUpperCaseValue` | WiFiAP/Program.cs:69 | `?color=RED` sets red and echoes "RED" unchanged |
| `RequestExamples.ExamplePaddedValue` | WiFiAP/Program.cs:69 | `?color= Blue ` sets blue and echoes the padded value |
| `RequestExamples.ExampleWhiteOnlyValue` | WiFiAP/Program.cs:66-69 | `?color=` followed by two spaces → "Unknown color: " plus the two spaces, LED unchanged |
| `RequestExamples.ExampleEmptyValue` | WiFiAP/Program.cs:204-212 | `?color=` → "Color parameter is missing!", LED unchanged |
| `RequestExamples.ExampleAbsentKey` | WiFiAP/Program.cs:199-211 | `?k=v` with k other than `color` → "Color parameter is missing!", LED unchanged |
| `RequestExamples.ExampleOtherParameterFirst` | WiFiAP/Program.cs:200-207 | `?k=v&color=w` with w naming a color → "Color set to " plus w, LED shows that color, whatever the earlier parameter (another `color` entry included) |
| `RequestExamples.ExampleNoQuery` | WiFiAP/Program.cs:197 | `/setcolor` without `?` → the HTML usage page, LED unchanged |
| `RequestExamples.ExampleRoot` | WiFiAP/Program.cs:216-221 | `/` → the HTML usage page, LED unchanged |

## Left out

- Wi-Fi bring-up (`ConnectToWifi`, `Wifi_AvailableNetworksChanged`). It is a foreign adapter API driven by event callbacks and sleeps, and it makes no decision the handler depends on.
- GPIO hardware: the controller and `OpenPin`. Each pin is a boolean field, true for `PinValue.High`.
- The one-second `Thread.Sleep` in the start-up blink. The constructor performs both writes back to back.
- The listener thread and accept loop (`StartWebServer`). Requests are modelled one at a time. The single listener thread handles them that way too, so no interleaving is lost.
- `HttpListenerContext` plumbing: UTF-8 encoding of the body, `ContentLength64`, the output-stream write and `response.Close()`. The reply is a returned value: content type, body and headers.
- The HTTP status code. The handler never sets it, so it stays at the listener's default.
- The `try`/`catch` around the handler. No modelled step can throw.
- `Debug.WriteLine` logging, and `Main`'s infinite sleep.
- Text.ToLower: models lowering of ASCII letters only, not the culture-dependent mapping of the rest of Unicode.
- Text.IsWhiteSpace: covers the Latin-1 white-space characters of `Char.IsWhiteSpace` (tab through carriage return, space, U+0085, U+00A0). The other Unicode space separators are not covered.
- Query.HasKey: visits the keys in an arbitrary order. The `Hashtable`'s own iteration order is not modelled; the result does not depend on it.
- The speech-recognition client (`Microphone Test/Program.cs`): microphone capture, the recogniser, keyword mapping and the HTTP client. It is not part of this model.
