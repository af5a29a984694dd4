/**
 * Concrete requests and the replies and LED states they produce, derived
 * from the general lemmas about routing, parsing and recognition. `path`
 * stands for any spelling of the control path, "/setcolor" or "/SetColor"
 * alike (see PathSpelling).
 */
module RequestExamples {
  import opened Wrappers
  import opened Text
  import opened Query
  import opened Colors
  import opened WifiAP

  /** A value already in normal form is recognised by its exact spelling. */
  lemma RecognizeClean(v: string)
    requires v != [] && !IsWhiteSpace(v[0]) && !IsWhiteSpace(v[|v| - 1])
    requires forall i :: 0 <= i < |v| ==> !('A' <= v[i] <= 'Z')
    ensures Recognize(Some(v)) == ColorOf(v)
  {
    LowerNoUpper(v);
    TrimUnpadded(v);
  }

  /** The control path is matched after lowering, so any casing of it routes to the color handler. */
  lemma PathSpelling()
    ensures '?' !in SetColorPath && ToLower(SetColorPath) == SetColorPath
    ensures '?' !in "/SetColor" && ToLower("/SetColor") == SetColorPath
    ensures '?' !in "/SETCOLOR" && ToLower("/SETCOLOR") == SetColorPath
  {
    LowerNoUpper(SetColorPath);
  }

  lemma ExampleRed(s: Rgb, path: string)
    requires '?' !in path && ToLower(path) == SetColorPath
    ensures ReplyFor(path + "?color=" + "red") == Reply("text/plain", SetPrefix + "red", [CorsHeader])
    ensures NextState(s, path + "?color=" + "red") == Rgb(true, false, false)
  {
    RecognizeClean("red");
    KnownColorRequest(s, path, "red", Red);
  }

  lemma ExampleOff(s: Rgb, path: string)
    requires '?' !in path && ToLower(path) == SetColorPath
    ensures ReplyFor(path + "?color=" + "off") == Reply("text/plain", SetPrefix + "off", [CorsHeader])
    ensures NextState(s, path + "?color=" + "off") == Rgb(false, false, false)
  {
    RecognizeClean("off");
    KnownColorRequest(s, path, "off", Off);
  }

  lemma ExampleUnknown(s: Rgb, path: string)
    requires '?' !in path && ToLower(path) == SetColorPath
    ensures ReplyFor(path + "?color=" + "purple") == Reply("text/plain", UnknownPrefix + "purple", [CorsHeader])
    ensures NextState(s, path + "?color=" + "purple") == s
  {
    RecognizeClean("purple");
    UnknownColorRequest(s, path, "purple");
  }

  /** The raw value is echoed; only the copy used for the lookup is lowered. */
  lemma ExampleUpperCaseValue(s: Rgb, path: string)
    requires '?' !in path && ToLower(path) == SetColorPath
    ensures ReplyFor(path + "?color=" + "RED") == Reply("text/plain", SetPrefix + "RED", [CorsHeader])
    ensures NextState(s, path + "?color=" + "RED") == Rgb(true, false, false)
  {
    RecognizeClean("red");
    RecognizeInsensitive("", "RED", "red", "");
    assert "" + "RED" + "" == "RED";
    KnownColorRequest(s, path, "RED", Red);
  }

  /** Surrounding spaces are trimmed for the lookup but kept in the echo. */
  lemma ExamplePaddedValue(s: Rgb, path: string)
    requires '?' !in path && ToLower(path) == SetColorPath
    ensures ReplyFor(path + "?color=" + " Blue ") == Reply("text/plain", SetPrefix + " Blue ", [CorsHeader])
    ensures NextState(s, path + "?color=" + " Blue ") == Rgb(false, false, true)
  {
    RecognizeClean("blue");
    RecognizeInsensitive(" ", "Blue", "blue", " ");
    assert " " + "Blue" + " " == " Blue ";
    KnownColorRequest(s, path, " Blue ", Blue);
  }

  /** Spaces alone pass the emptiness check and are then reported as an unknown color. */
  lemma ExampleWhiteOnlyValue(s: Rgb, path: string)
    requires '?' !in path && ToLower(path) == SetColorPath
    ensures ReplyFor(path + "?color=" + "  ") == Reply("text/plain", UnknownPrefix + "  ", [CorsHeader])
    ensures NextState(s, path + "?color=" + "  ") == s
  {
    WhiteOnlyUnknown("  ");
    UnknownColorRequest(s, path, "  ");
  }

  lemma ExampleEmptyValue(s: Rgb, path: string)
    requires '?' !in path && ToLower(path) == SetColorPath
    ensures ReplyFor(path + "?color=") == Reply("text/plain", MissingColorText, [CorsHeader])
    ensures NextState(s, path + "?color=") == s
  {
    EmptyColorRequest(s, path);
  }

  /** Without a '?' even the /setcolor path gets the usage page. */
  lemma ExampleNoQuery(s: Rgb)
    ensures ReplyFor("/setcolor") == Reply("text/html", UsagePage, [CorsHeader])
    ensures NextState(s, "/setcolor") == s
  {
    UsagePageIff(s, "/setcolor");
  }

  lemma ExampleRoot(s: Rgb)
    ensures ReplyFor("/") == Reply("text/html", UsagePage, [CorsHeader])
    ensures NextState(s, "/") == s
  {
    UsagePageIff(s, "/");
  }

  /** A single parameter other than color is reported missing. */
  lemma ExampleAbsentKey(s: Rgb, path: string, k: string, v: string)
    requires '?' !in path && ToLower(path) == SetColorPath
    requires k != "color" && '&' !in k + v && '=' !in k + v && '?' !in k + v
    ensures ReplyFor(path + "?" + k + "=" + v) == Reply("text/plain", MissingColorText, [CorsHeader])
    ensures NextState(s, path + "?" + k + "=" + v) == s
  {
    var seg := k + "=" + v;
    MakePair(k, v);
    assert '&' !in seg by {
      assert seg == k + ['='] + v;
      assert forall c :: c in seg ==> c in k || c == '=' || c in v;
    }
    SplitNoSep(seg, '&');
    assert [seg][..0] == [];
    assert TableOf([seg]) == Add(map[], seg) == map[k := v];
    assert path + "?" + k + "=" + v == path + "?" + seg;
    SetColorReply(s, path, seg);
  }

  /** Another parameter before the color entry, even an earlier color entry, does not matter. */
  lemma ExampleOtherParameterFirst(s: Rgb, path: string, k: string, v: string, w: string, c: Color)
    requires '?' !in path && ToLower(path) == SetColorPath
    requires '&' !in k + v + w && '=' !in k + v + w && '?' !in k + v + w
    requires Recognize(Some(w)) == Some(c)
    ensures ReplyFor(path + "?" + k + "=" + v + "&color=" + w) == Reply("text/plain", SetPrefix + w, [CorsHeader])
    ensures NextState(s, path + "?" + k + "=" + v + "&color=" + w) == Triple(c)
  {
    var q := k + "=" + v;
    var query := q + "&" + "color" + "=" + w;
    LaterPairWins(q, "color", w);
    assert '?' !in query by {
      assert query == k + ['='] + v + ['&'] + "color" + ['='] + w;
      assert '?' !in "color";
    }
    assert path + "?" + k + "=" + v + "&color=" + w == path + "?" + query;
    SetColorReply(s, path, query);
  }
}
