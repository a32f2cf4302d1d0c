/**
 * Python's `json.dumps(xs)` for a list of strings, with its default
 * settings (`ensure_ascii=True`, separator ", "). Tags and data sources are
 * stored in this serialized form, and the keyword search matches against
 * the serialized text.
 */
module Json {
  import opened Text

  function HexDigit(d: nat): (c: char)
    requires d < 16
    ensures c as int < 0x80
  {
    "0123456789abcdef"[d]
  }

  /** Four lower-case hex digits, as in `é`. */
  function Hex4(n: nat): (s: string)
    requires n < 0x10000
    ensures |s| == 4
  {
    [HexDigit(n / 0x1000), HexDigit(n / 0x100 % 16), HexDigit(n / 0x10 % 16), HexDigit(n % 16)]
  }

  /** Printable ASCII other than the quote and the backslash: written as is. */
  predicate Plain(c: char) {
    ' ' <= c <= '~' && c != '"' && c != '\\'
  }

  predicate Ascii(s: string) {
    forall i :: 0 <= i < |s| ==> s[i] as int < 0x80
  }

  /** How one character of a string appears inside the quotes. */
  function EscapeChar(c: char): (r: string)
    ensures Ascii(r)
    ensures Plain(c) <==> r == [c]
  {
    if c == '"' then "\\\""
    else if c == '\\' then "\\\\"
    else if c == '\n' then "\\n"
    else if c == '\r' then "\\r"
    else if c == '\t' then "\\t"
    else if c == '\U{8}' then "\\b"
    else if c == '\U{c}' then "\\f"
    else if ' ' <= c <= '~' then [c]
    else if c as int < 0x10000 then "\\u" + Hex4(c as int)
    else
      var n := c as int - 0x10000;
      "\\u" + Hex4(0xd800 + n / 0x400) + "\\u" + Hex4(0xdc00 + n % 0x400)
  }

  function Escape(s: string): (r: string)
    ensures Ascii(r)
  {
    if s == [] then "" else EscapeChar(s[0]) + Escape(s[1..])
  }

  function Quote(s: string): (r: string)
    ensures Ascii(r)
  {
    "\"" + Escape(s) + "\""
  }

  /** `json.dumps(xs)` for a list of strings. */
  function Dumps(xs: seq<string>): (r: string)
    ensures Ascii(r)
  {
    var quoted := seq(|xs|, i requires 0 <= i < |xs| => Quote(xs[i]));
    JoinAscii(quoted, ", ");
    "[" + Join(quoted, ", ") + "]"
  }

  lemma {:induction false} JoinAscii(parts: seq<string>, sep: string)
    requires Ascii(sep)
    requires forall i :: 0 <= i < |parts| ==> Ascii(parts[i])
    ensures Ascii(Join(parts, sep))
  {
    if |parts| > 1 {
      JoinAscii(parts[1..], sep);
    }
  }

  /** A string of plain characters is written unchanged. */
  lemma {:induction false} EscapePlain(s: string)
    requires forall i :: 0 <= i < |s| ==> Plain(s[i])
    ensures Escape(s) == s
  {
    if s != [] {
      EscapePlain(s[1..]);
    }
  }

  /**
   * A substring search on the stored text finds every element made of plain
   * characters: searching tags for "genome" finds a record tagged "genome".
   */
  lemma PlainElementFound(xs: seq<string>, k: nat)
    requires k < |xs|
    requires forall i :: 0 <= i < |xs[k]| ==> Plain(xs[k][i])
    ensures Contains(Dumps(xs), xs[k])
  {
    var quoted := seq(|xs|, i requires 0 <= i < |xs| => Quote(xs[i]));
    EscapePlain(xs[k]);
    JoinHasPart(quoted, ", ", k);
    var a, b :| Join(quoted, ", ") == a + quoted[k] + b;
    assert Dumps(xs) == "[" + Join(quoted, ", ") + "]";
    assert quoted[k] == "\"" + xs[k] + "\"";
    var pre, post := "[" + a + "\"", "\"" + b + "]";
    calc {
      Dumps(xs);
      "[" + (a + ("\"" + xs[k] + "\"") + b) + "]";
      { RegroupQuoted("[", a, xs[k], b); }
      pre + xs[k] + post;
    }
    ContainsInfix(pre, xs[k], post);
  }

  /**
   * Because non-ASCII characters are stored as `\uXXXX` escapes, a search
   * term holding one never matches the stored text: a record tagged "café"
   * is not found by searching tags for "café".
   */
  lemma NonAsciiNeverFound(xs: seq<string>, term: string, k: nat)
    requires k < |term| && term[k] as int >= 0x80
    ensures !Contains(Dumps(xs), term)
  {
    AsciiHasNoNonAscii(Dumps(xs), term, k);
  }

  /**
   * What a substring search on a stored list finds: every element made of
   * plain characters, and never a term that is not ASCII.
   */
  lemma ListSearch(xs: seq<string>, term: string)
    ensures Contains(Dumps(xs), term) ==> Ascii(term)
    ensures term in xs && (forall i :: 0 <= i < |term| ==> Plain(term[i])) ==> Contains(Dumps(xs), term)
  {
    if !Ascii(term) {
      var k :| 0 <= k < |term| && term[k] as int >= 0x80;
      NonAsciiNeverFound(xs, term, k);
    }
    if term in xs && forall i :: 0 <= i < |term| ==> Plain(term[i]) {
      var k :| 0 <= k < |xs| && xs[k] == term;
      PlainElementFound(xs, k);
    }
  }

  lemma {:induction false} AsciiHasNoNonAscii(s: string, term: string, k: nat)
    requires Ascii(s)
    requires k < |term| && term[k] as int >= 0x80
    ensures !Contains(s, term)
  {
    if s != [] {
      AsciiHasNoNonAscii(s[1..], term, k);
    }
  }

  /** Regrouping of the concatenation that `PlainElementFound` needs. */
  lemma RegroupQuoted(l: string, a: string, m: string, b: string)
    ensures l + (a + ("\"" + m + "\"") + b) + "]" == (l + a + "\"") + m + ("\"" + b + "]")
  {
  }
}
