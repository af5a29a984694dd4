/**
 * The eight colors the server knows, the (red, green, blue) pin triple of
 * each, and how a color parameter is recognised: the raw value must be
 * non-null and non-empty, then it is lowered and trimmed and must equal one
 * of the eight names exactly.
 */
module Colors {
  import opened Wrappers
  import opened Text

  datatype Color = Red | Green | Blue | Yellow | Magenta | Cyan | White | Off

  /** The three LED pins, true for High. */
  datatype Rgb = Rgb(r: bool, g: bool, b: bool)

  /** The case label of each color in SetColorByName's switch. */
  function Name(c: Color): string
  {
    match c
    case Red => "red"
    case Green => "green"
    case Blue => "blue"
    case Yellow => "yellow"
    case Magenta => "magenta"
    case Cyan => "cyan"
    case White => "white"
    case Off => "off"
  }

  const KnownNames: set<string> := {"red", "green", "blue", "yellow", "magenta", "cyan", "white", "off"}

  /** The switch on a normalised name: the color whose label it is, if any. */
  function ColorOf(name: string): (c: Option<Color>)
    ensures c.Some? ==> Name(c.value) == name
    ensures c.None? ==> forall k: Color :: Name(k) != name
    ensures c.Some? <==> name in KnownNames
  {
    match name
    case "red" => Some(Red)
    case "green" => Some(Green)
    case "blue" => Some(Blue)
    case "yellow" => Some(Yellow)
    case "magenta" => Some(Magenta)
    case "cyan" => Some(Cyan)
    case "white" => Some(White)
    case "off" => Some(Off)
    case _ => None
  }

  /** The pin triple SetColorByName writes for each color. */
  function Triple(c: Color): Rgb
  {
    match c
    case Red => Rgb(true, false, false)
    case Green => Rgb(false, true, false)
    case Blue => Rgb(false, false, true)
    case Yellow => Rgb(true, true, false)
    case Magenta => Rgb(true, false, true)
    case Cyan => Rgb(false, true, true)
    case White => Rgb(true, true, true)
    case Off => Rgb(false, false, false)
  }

  /** Every color has a triple of its own; Off is all pins low. */
  lemma TripleInjective(c: Color, d: Color)
    ensures Triple(c) == Triple(d) ==> c == d
    ensures Triple(c) == Rgb(false, false, false) <==> c == Off
  {
  }

  /** Each label names its color, and only that one. */
  lemma NameRoundTrip(c: Color, name: string)
    ensures ColorOf(Name(c)) == Some(c)
    ensures ColorOf(name) == Some(c) ==> name == Name(c)
  {
  }

  /** string.IsNullOrEmpty, with None standing for null. */
  predicate IsNullOrEmpty(s: Option<string>)
  {
    s.None? || s.value == ""
  }

  /** color.ToLower().Trim() */
  function Normalize(s: string): string
  {
    Trim(ToLower(s))
  }

  /** The color SetColorByName applies for a parameter value, if any. */
  function Recognize(color: Option<string>): Option<Color>
  {
    if IsNullOrEmpty(color) then None else ColorOf(Normalize(color.value))
  }

  /** The LED state after SetColorByName(color) from state `s`. */
  function ApplyName(s: Rgb, color: Option<string>): Rgb
  {
    match Recognize(color)
    case Some(c) => Triple(c)
    case None => s
  }

  /**
   * A value is recognised exactly when it is non-null, non-empty and its
   * lowered-then-trimmed form is one of the eight names; the color is then
   * the one of that name.
   */
  lemma RecognizeIff(color: Option<string>)
    ensures Recognize(color).Some? <==> !IsNullOrEmpty(color) && Normalize(color.value) in KnownNames
    ensures Recognize(color).Some? ==> Name(Recognize(color).value) == Normalize(color.value)
  {
  }

  /** ASCII case and surrounding white space do not change the normalised form. */
  lemma NormalizeInsensitive(p: string, a: string, b: string, q: string)
    requires AllWhite(p) && AllWhite(q) && SameIgnoringCase(a, b)
    ensures Normalize(p + a + q) == Normalize(b)
  {
    LowerConcat(p + a, q);
    LowerConcat(p, a);
    assert ToLower(p + a + q) == ToLower(p) + ToLower(a) + ToLower(q);
    LowerKeepsWhite(p);
    LowerKeepsWhite(q);
    LowerIgnoresCase(a, b);
    TrimPadded(ToLower(p), ToLower(a), ToLower(q));
  }

  /** ASCII case and surrounding white space do not matter. */
  lemma RecognizeInsensitive(p: string, a: string, b: string, q: string)
    requires AllWhite(p) && AllWhite(q) && SameIgnoringCase(a, b)
    ensures Recognize(Some(p + a + q)) == Recognize(Some(b))
  {
    NormalizeInsensitive(p, a, b, q);
    if b == "" {
      assert Normalize(b) == "";
    }
  }

  /** A value of white space only is not empty, yet names no color. */
  lemma WhiteOnlyUnknown(s: string)
    requires AllWhite(s)
    ensures Recognize(Some(s)) == None
  {
    LowerKeepsWhite(s);
    TrimWhite(ToLower(s));
  }

  /** Applying the same name twice leaves the state of applying it once. */
  lemma ApplyIdempotent(s: Rgb, color: Option<string>)
    ensures ApplyName(ApplyName(s, color), color) == ApplyName(s, color)
  {
  }

  /** A recognised name fixes the state whatever it was before. */
  lemma ApplyForgetsState(s: Rgb, t: Rgb, color: Option<string>)
    requires Recognize(color).Some?
    ensures ApplyName(s, color) == ApplyName(t, color) == Triple(Recognize(color).value)
  {
  }
}
