/**
 * JavaScript strings as the registration code sees them.
 *
 * A JavaScript string is a sequence of UTF-16 code units, and both `.length`
 * and a regular expression without the `u` flag work unit by unit.  The model
 * therefore uses sequences of code units rather than Dafny `char` (a Unicode
 * scalar value), so that `|s|` is exactly `s.length`, a character outside the
 * Basic Multilingual Plane counts two, and lone surrogates are representable.
 */
module JsText {
  import opened Wrappers

  /** One UTF-16 code unit. */
  type CodeUnit = n: int | 0 <= n < 0x1_0000

  /** A JavaScript string value. */
  type JsString = seq<CodeUnit>

  /**
   * The class `\s` of ECMAScript regular expressions: the WhiteSpace code
   * points (TAB, VT, FF, ZWNBSP and every "Zs" space separator) together with
   * the LineTerminator code points (LF, CR, LINE SEPARATOR, PARAGRAPH SEPARATOR).
   */
  predicate IsWs(u: CodeUnit) {
    || u == 0x09 || u == 0x0A || u == 0x0B || u == 0x0C || u == 0x0D
    || u == 0x20 || u == 0xA0 || u == 0x1680
    || (0x2000 <= u <= 0x200A)
    || u == 0x2028 || u == 0x2029 || u == 0x202F || u == 0x205F
    || u == 0x3000 || u == 0xFEFF
  }

  /**
   * JavaScript truthiness of a field that holds a string or is absent:
   * `undefined`/`null` (None) and `""` are falsy, every other string is truthy.
   */
  predicate Truthy(field: Option<JsString>) {
    field.Some? && |field.value| > 0
  }

  /** The string a present field holds; the empty string for an absent one. */
  function Text(field: Option<JsString>): JsString {
    field.GetOr([])
  }

  /**
   * The JavaScript string whose code units are the characters of `s`, for a
   * string of Basic Multilingual Plane characters (one code unit each).
   */
  function Js(s: string): (r: JsString)
    requires forall i | 0 <= i < |s| :: s[i] as int < 0x1_0000
    ensures |r| == |s|
  {
    seq(|s|, i requires 0 <= i < |s| => s[i] as int)
  }
}
