/**
 * The ESP32 RGB web server: three LED pins, the color switch that drives
 * them, and the handling of one HTTP request. The pins become three boolean
 * fields; the reply is returned as a value instead of being written to the
 * listener's output stream.
 */
module WifiAP {
  import opened Wrappers
  import opened Text
  import opened Query
  import opened Colors

  /** What ProcessRequest sends back: content type, body text and headers. */
  datatype Reply = Reply(contentType: string, body: string, headers: seq<(string, string)>)

  const CorsHeader: (string, string) := ("Access-Control-Allow-Origin", "*")
  const SetColorPath := "/setcolor"
  const UsagePage := "<h1>ESP32 RGB WebServer</h1>" +
                     "<p>Use /setcolor?color=red|green|blue|yellow|magenta|cyan|white|off</p>"
  const MissingColorText := "Color parameter is missing!"
  const SetPrefix := "Color set to "
  const UnknownPrefix := "Unknown color: "

  /** The branch ProcessRequest takes for a raw URL. */
  datatype Route = Usage | MissingColor | SetColor(color: string)

  function RouteOf(rawUrl: string): Route
  {
    var parts := Split(rawUrl, '?');
    if ToLower(parts[0]) == SetColorPath && |parts| > 1 then
      var parameters := QueryTable(parts[1]);
      if "color" in parameters && parameters["color"] != "" then SetColor(parameters["color"])
      else MissingColor
    else Usage
  }

  /** The reply to a raw URL; it does not depend on the LED state. */
  function ReplyFor(rawUrl: string): Reply
  {
    match RouteOf(rawUrl)
    case Usage => Reply("text/html", UsagePage, [CorsHeader])
    case MissingColor => Reply("text/plain", MissingColorText, [CorsHeader])
    case SetColor(color) =>
      Reply("text/plain",
            if Recognize(Some(color)).Some? then SetPrefix + color else UnknownPrefix + color,
            [CorsHeader])
  }

  /** The LED state after handling a raw URL from state `s`. */
  function NextState(s: Rgb, rawUrl: string): Rgb
  {
    match RouteOf(rawUrl)
    case SetColor(color) => ApplyName(s, Some(color))
    case _ => s
  }

  /** The static Program class: its three GPIO pins and request handling. */
  class Program {
    var redLed: bool
    var greenLed: bool
    var blueLed: bool

    function State(): Rgb
      reads this
    {
      Rgb(redLed, greenLed, blueLed)
    }

    /** InitializeRgbLed: blink green once at start-up, then all pins low. */
    constructor ()
      ensures State() == Triple(Off)
    {
      redLed, greenLed, blueLed := false, false, false;
      new;
      SetRgbColor(false, true, false);
      SetRgbColor(false, false, false);
    }

    /** Program.SetRgbColor: write the three pins. */
    method SetRgbColor(r: bool, g: bool, b: bool)
      modifies this
      ensures State() == Rgb(r, g, b)
    {
      redLed := r;
      greenLed := g;
      blueLed := b;
    }

    /**
     * Program.SetColorByName: a recognised name sets the pins to its triple
     * and answers true; anything else answers false and writes nothing.
     */
    method SetColorByName(color: Option<string>) returns (ok: bool)
      modifies this
      ensures ok <==> Recognize(color).Some?
      ensures ok ==> State() == Triple(Recognize(color).value)
      ensures !ok ==> State() == old(State())
      ensures State() == ApplyName(old(State()), color)
    {
      if IsNullOrEmpty(color) {
        return false;
      }
      var name := Trim(ToLower(color.value));
      match name {
      case "red" => SetRgbColor(true, false, false);
      case "green" => SetRgbColor(false, true, false);
      case "blue" => SetRgbColor(false, false, true);
      case "yellow" => SetRgbColor(true, true, false);
      case "magenta" => SetRgbColor(true, false, true);
      case "cyan" => SetRgbColor(false, true, true);
      case "white" => SetRgbColor(true, true, true);
      case "off" => SetRgbColor(false, false, false);
      case _ => return false;
      }
      return true;
    }

    /**
     * Program.ProcessRequest: route on the lowered text before the first
     * '?', answer /setcolor with plain text and everything else with the
     * usage page.
     */
    method ProcessRequest(rawUrl: string) returns (reply: Reply)
      modifies this
      ensures reply == ReplyFor(rawUrl)
      ensures State() == NextState(old(State()), rawUrl)
    {
      var headers := [CorsHeader];
      var responseText := "";
      var contentType;
      var parts := Split(rawUrl, '?');
      var path := ToLower(parts[0]);
      if path == SetColorPath && |parts| > 1 {
        var color: Option<string> := None;
        var parameters := ParseParams(parts[1]);
        var present := HasKey(parameters, "color");
        if present {
          color := Some(parameters["color"]);
        }
        if !IsNullOrEmpty(color) {
          var success := SetColorByName(color);
          responseText := if success then SetPrefix + color.value else UnknownPrefix + color.value;
        } else {
          responseText := MissingColorText;
        }
        contentType := "text/plain";
      } else {
        contentType := "text/html";
        responseText := UsagePage;
      }
      reply := Reply(contentType, responseText, headers);
    }
  }

  /** The path part of a raw URL: the text before the first '?'. */
  function PathOf(rawUrl: string): string
  {
    rawUrl[..IndexOf(rawUrl, '?')]
  }

  /**
   * The usage page is served, and the LEDs left alone, exactly when the URL
   * has no '?' or its lowered path is not /setcolor; otherwise the reply is
   * plain text. Every reply carries the permissive CORS header.
   */
  lemma UsagePageIff(s: Rgb, rawUrl: string)
    ensures ReplyFor(rawUrl).headers == [CorsHeader]
    ensures ReplyFor(rawUrl).contentType == "text/html" <==>
              '?' !in rawUrl || ToLower(PathOf(rawUrl)) != SetColorPath
    ensures ReplyFor(rawUrl).contentType == "text/html" ==>
              ReplyFor(rawUrl).body == UsagePage && NextState(s, rawUrl) == s
    ensures ReplyFor(rawUrl).contentType != "text/html" ==> ReplyFor(rawUrl).contentType == "text/plain"
  {
    SplitHead(rawUrl, '?');
  }

  /**
   * A request "<path>?color=<v>" whose value names a color: the raw value is
   * echoed and the LEDs show that color.
   */
  lemma KnownColorRequest(s: Rgb, path: string, v: string, c: Color)
    requires '?' !in path && ToLower(path) == SetColorPath
    requires '&' !in v && '=' !in v && '?' !in v
    requires Recognize(Some(v)) == Some(c)
    ensures ReplyFor(path + "?color=" + v) == Reply("text/plain", SetPrefix + v, [CorsHeader])
    ensures NextState(s, path + "?color=" + v) == Triple(c)
  {
    ColorRoute(path, v);
  }

  /**
   * A request "<path>?color=<v>" with a non-empty value that names no color:
   * the raw value is echoed as unknown and the LEDs are left alone.
   */
  lemma UnknownColorRequest(s: Rgb, path: string, v: string)
    requires '?' !in path && ToLower(path) == SetColorPath
    requires '&' !in v && '=' !in v && '?' !in v
    requires v != "" && Recognize(Some(v)) == None
    ensures ReplyFor(path + "?color=" + v) == Reply("text/plain", UnknownPrefix + v, [CorsHeader])
    ensures NextState(s, path + "?color=" + v) == s
  {
    ColorRoute(path, v);
  }

  /** A request "<path>?color=" with an empty value is reported missing. */
  lemma EmptyColorRequest(s: Rgb, path: string)
    requires '?' !in path && ToLower(path) == SetColorPath
    ensures ReplyFor(path + "?color=") == Reply("text/plain", MissingColorText, [CorsHeader])
    ensures NextState(s, path + "?color=") == s
  {
    ColorRoute(path, "");
    assert path + "?color=" + "" == path + "?color=";
  }

  /** Only the text between the first and the second '?' is parsed as the query. */
  lemma SecondQuestionMarkCuts(path: string, query: string, rest: string)
    requires '?' !in path && '?' !in query
    ensures RouteOf(path + "?" + query + "?" + rest) == RouteOf(path + "?" + query)
  {
    var u := path + "?" + query + "?" + rest;
    assert u == path + ['?'] + (query + ['?'] + rest);
    SplitCons(path, query + ['?'] + rest, '?');
    SplitCons(query, rest, '?');
    var w := path + "?" + query;
    assert w == path + ['?'] + query;
    SplitCons(path, query, '?');
    SplitNoSep(query, '?');
  }

  /** The route of "<path>?color=<v>" for a /setcolor path. */
  lemma ColorRoute(path: string, v: string)
    requires '?' !in path && ToLower(path) == SetColorPath
    requires '&' !in v && '=' !in v && '?' !in v
    ensures RouteOf(path + "?color=" + v) == if v == "" then MissingColor else SetColor(v)
  {
    var query := "color=" + v;
    assert path + "?color=" + v == path + "?" + query;
    QueryRoute(path, query);
    ColorTable(v);
  }

  /** A /setcolor path followed by a query without a further '?' is routed on that query's table. */
  lemma QueryRoute(path: string, query: string)
    requires '?' !in path && ToLower(path) == SetColorPath && '?' !in query
    ensures var t := QueryTable(query);
      RouteOf(path + "?" + query) ==
        if "color" in t && t["color"] != "" then SetColor(t["color"]) else MissingColor
  {
    var u := path + "?" + query;
    assert u == path + ['?'] + query;
    SplitCons(path, query, '?');
    SplitNoSep(query, '?');
    assert Split(u, '?') == [path, query];
  }

  /**
   * The reply to "<path>?<query>" for a /setcolor path and any query: the
   * color entry of the parsed table is missing or empty, names a color, or
   * is echoed as unknown. Other parameters, before or after it, play no part.
   */
  lemma SetColorReply(s: Rgb, path: string, query: string)
    requires '?' !in path && ToLower(path) == SetColorPath && '?' !in query
    ensures var t := QueryTable(query); var u := path + "?" + query;
      ("color" !in t || t["color"] == "" ==>
         ReplyFor(u) == Reply("text/plain", MissingColorText, [CorsHeader]) && NextState(s, u) == s) &&
      ("color" in t && Recognize(Some(t["color"])).Some? ==>
         ReplyFor(u) == Reply("text/plain", SetPrefix + t["color"], [CorsHeader]) &&
         NextState(s, u) == Triple(Recognize(Some(t["color"])).value)) &&
      ("color" in t && t["color"] != "" && Recognize(Some(t["color"])).None? ==>
         ReplyFor(u) == Reply("text/plain", UnknownPrefix + t["color"], [CorsHeader]) && NextState(s, u) == s)
  {
    QueryRoute(path, query);
  }

  /** The table parsed from "color=<v>" maps "color" to v. */
  lemma ColorTable(v: string)
    requires '&' !in v && '=' !in v
    ensures QueryTable("color=" + v) == map["color" := v]
  {
    var query := "color=" + v;
    assert '&' !in query;
    SplitNoSep(query, '&');
    MakePair("color", v);
    assert query == "color" + "=" + v;
    assert [query][..0] == [];
    assert TableOf([query]) == Add(TableOf([]), query);
  }

  /**
   * The body reports the effect truthfully: the LEDs change only when the
   * body says "Color set to ...", and such a body means the LEDs now show
   * the color named by the echoed value, whatever they showed before.
   */
  lemma BodyMatchesEffect(s: Rgb, rawUrl: string)
    ensures NextState(s, rawUrl) != s ==> IsPrefixOf(SetPrefix, ReplyFor(rawUrl).body)
    ensures IsPrefixOf(SetPrefix, ReplyFor(rawUrl).body) ==>
              var v := ReplyFor(rawUrl).body[|SetPrefix|..];
              Recognize(Some(v)).Some? && NextState(s, rawUrl) == Triple(Recognize(Some(v)).value)
  {
    var r := ReplyFor(rawUrl);
    match RouteOf(rawUrl)
    case Usage =>
      assert r.body[0] != SetPrefix[0];
    case MissingColor =>
      assert r.body[6] != SetPrefix[6];
    case SetColor(color) =>
      if Recognize(Some(color)).Some? {
        assert r.body[|SetPrefix|..] == color;
      } else {
        assert r.body[0] != SetPrefix[0];
      }
  }

  predicate IsPrefixOf(p: string, s: string)
  {
    |p| <= |s| && s[..|p|] == p
  }

  /** Handling the same request twice leaves the LEDs as handling it once. */
  lemma RequestIdempotent(s: Rgb, rawUrl: string)
    ensures NextState(NextState(s, rawUrl), rawUrl) == NextState(s, rawUrl)
  {
    match RouteOf(rawUrl)
    case SetColor(color) => ApplyIdempotent(s, Some(color));
    case _ =>
  }
}
