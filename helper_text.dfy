/**
 * The pure string and list helpers of the user interface's `helper.js`:
 * `lastPart`, `isIn`/`without`, the HTML escapers, `lpad`, `nvl`,
 * `pluralize`, `isUUID`, `shorten`, `toUnderscore`, `toCamel` and
 * `getTypeFromResourceSignature`.
 *
 * JavaScript strings are sequences of UTF-16 units; here they are `string`.
 * Regular expressions with the global flag become the replacements of
 * module `Text`.
 */
module HelperText {
  import opened Wrappers
  import Text
  import Search

  /** A JavaScript value as far as these helpers look at it. Numbers are
      integers here; `NaN` is not modelled. */
  datatype JsValue = Undefined | Null | Bool(b: bool) | Num(n: int) | JsString(s: string)

  /** JavaScript truthiness. */
  predicate Truthy(v: JsValue)
  {
    match v
    case Undefined => false
    case Null => false
    case Bool(b) => b
    case Num(n) => n != 0
    case JsString(s) => s != ""
  }

  // ----- lastPart -----

  /** Whether `p` occurs in `s` at position `k`. */
  predicate OccursAt(s: string, p: string, k: int)
  {
    0 <= k && k + |p| <= |s| && s[k..k + |p|] == p
  }

  /** `s.lastIndexOf(p)`: the last position where `p` occurs, or -1. */
  function LastIndexOf(s: string, p: string): (r: int)
    requires p != []
    ensures r == -1 || OccursAt(s, p, r)
    ensures forall k :: r < k ==> !OccursAt(s, p, k)
    decreases |s|
  {
    if |s| < |p| then -1
    else if s[|s| - |p|..] == p then |s| - |p|
    else
      var init := s[..|s| - 1];
      var r := LastIndexOf(init, p);
      assert forall k :: r < k ==> !OccursAt(s, p, k) by {
        forall k | r < k
          ensures !OccursAt(s, p, k)
        {
          if 0 <= k && k + |p| <= |init| {
            assert init[k..k + |p|] == s[k..k + |p|];
            assert !OccursAt(init, p, k);
          } else if k == |s| - |p| {
            assert s[k..k + |p|] == s[|s| - |p|..];
          }
        }
      }
      r
  }

  /** `lastPart(id, separator)`: the text after the last separator (`_` when
      none is given), or the empty text for a missing id. The substring
      starts one character after where the separator starts. */
  function LastPart(id: Option<string>, separator: Option<string>): string
  {
    var sep := if separator.None? || separator.value == "" then "_" else separator.value;
    if id.None? || id.value == "" then ""
    else id.value[LastIndexOf(id.value, sep) + 1..]
  }

  /** A one-character text occurs exactly where that character is. */
  lemma OccursChar(s: string, c: char, k: int)
    ensures OccursAt(s, [c], k) <==> 0 <= k < |s| && s[k] == c
  {
    if 0 <= k < |s| {
      assert s[k..k + 1] == [s[k]];
    }
  }

  /** With a one-character separator the result is what follows its last
      occurrence, and the whole id when it does not occur. */
  lemma LastPartSpec(s: string, c: char)
    ensures c !in s ==> LastPart(Some(s), Some([c])) == s
    ensures c in s ==> var r := LastPart(Some(s), Some([c]));
      && |r| < |s| && s[|s| - |r| - 1] == c && s[|s| - |r|..] == r && c !in r
  {
    if s != [] {
      var i := LastIndexOf(s, [c]);
      if i >= 0 {
        OccursChar(s, c, i);
      }
      if c in s {
        var j :| 0 <= j < |s| && s[j] == c;
        OccursChar(s, c, j);
        var r := s[i + 1..];
        forall k | 0 <= k < |r|
          ensures r[k] != c
        {
          OccursChar(s, c, i + 1 + k);
        }
      }
    }
  }

  /** A missing or empty separator means `_`; a missing or empty id gives
      the empty text. */
  lemma LastPartDefaults(s: string, separator: Option<string>)
    ensures LastPart(Some(s), None) == LastPart(Some(s), Some("")) == LastPart(Some(s), Some("_"))
    ensures LastPart(None, separator) == LastPart(Some(""), separator) == ""
  {
  }

  /** A separator of several characters leaves all but its first character
      in front of the result. */
  lemma LastPartLongSeparator()
    ensures LastPart(Some("a--b"), Some("--")) == "-b"
  {
    var s := "a--b";
    assert s[2..] != "--" by { assert s[2..][1] == 'b'; }
    assert s[..3][1..] == "--";
    assert LastIndexOf(s, "--") == LastIndexOf(s[..3], "--") == 1;
    assert s[2..] == "-b";
  }

  // ----- isIn and without -----

  /** `isIn(s, array)`: a non-empty `s` occurs in a given array. */
  predicate IsIn(s: Option<string>, list: Option<seq<string>>)
  {
    s.Some? && s.value != "" && list.Some? && s.value in list.value
  }

  /** The elements of `xs` other than `s`, in order. */
  function Filter(xs: seq<string>, s: string): (r: seq<string>)
    decreases |xs|
  {
    if xs == [] then []
    else Filter(xs[..|xs| - 1], s) + (if xs[|xs| - 1] == s then [] else [xs[|xs| - 1]])
  }

  /** `without(s, array)`: the array itself when `s` is not in it, otherwise
      a new list of the other elements. */
  method Without(s: Option<string>, list: Option<seq<string>>) returns (r: Option<seq<string>>)
    ensures r == if IsIn(s, list) then Some(Filter(list.value, s.value)) else list
  {
    if !IsIn(s, list) {
      return list;
    }
    var xs := list.value;
    var res: seq<string> := [];
    for i := 0 to |xs|
      invariant res == Filter(xs[..i], s.value)
    {
      assert xs[..i + 1][..i] == xs[..i];
      if xs[i] != s.value {
        res := res + [xs[i]];
      }
    }
    assert xs[..|xs|] == xs;
    r := Some(res);
  }

  lemma {:induction false} FilterAppend(a: seq<string>, b: seq<string>, s: string)
    ensures Filter(a + b, s) == Filter(a, s) + Filter(b, s)
    decreases |b|
  {
    if b != [] {
      var init := b[..|b| - 1];
      FilterAppend(a, init, s);
      var last := b[|b| - 1];
      assert (a + b)[..|a + b| - 1] == a + init && (a + b)[|a + b| - 1] == last;
      var tail := if last == s then [] else [last];
      assert Filter(a + b, s) == Filter(a, s) + Filter(init, s) + tail;
      assert Filter(a, s) + Filter(init, s) + tail == Filter(a, s) + (Filter(init, s) + tail);
    } else {
      assert a + b == a;
    }
  }

  /** Without `s` removes every copy of `s`, keeps every other element as
      often as it occurs, keeps their order, and changes nothing when `s`
      does not occur. */
  lemma {:induction false} FilterSpec(xs: seq<string>, s: string, x: string)
    ensures s !in Filter(xs, s)
    ensures x != s ==> multiset(Filter(xs, s))[x] == multiset(xs)[x]
    ensures s !in xs ==> Filter(xs, s) == xs
    decreases |xs|
  {
    if xs != [] {
      var init := xs[..|xs| - 1];
      FilterSpec(init, s, x);
      assert xs == init + [xs[|xs| - 1]];
    }
  }

  // ----- the HTML escapers -----

  function AmpStage(s: string): string
  {
    Text.ReplaceChar(s, '&', "&amp;")
  }

  function TagStage(s: string): string
  {
    Text.ReplaceChar(Text.ReplaceChar(s, '<', "&lt;"), '>', "&gt;")
  }

  function QuoteStage(s: string): string
  {
    Text.ReplaceChar(Text.ReplaceChar(s, '"', "&quot;"), '\'', "&#39;")
  }

  /** The attribute escape of a string: `&` first, then `<`, `>`, `"`, `'`,
      then spaces when asked. */
  function EscapeAttrText(s: string, escapeWhitespace: bool): string
  {
    var e := QuoteStage(TagStage(AmpStage(s)));
    if escapeWhitespace then Text.ReplaceChar(e, ' ', "&nbsp;") else e
  }

  /** `escapeForHtmlAttributes(str, escapeWhitespace)`: non-strings are
      returned as they are. */
  function EscapeForHtmlAttributes(v: JsValue, escapeWhitespace: bool): JsValue
  {
    if v.JsString? then JsString(EscapeAttrText(v.s, escapeWhitespace)) else v
  }

  /** `escapeTags(str)`: `&`, `<` and `>` escaped; a missing or empty text is
      returned as it is. */
  function EscapeTags(str: Option<string>): Option<string>
  {
    if str.None? || str.value == "" then str else Some(TagStage(AmpStage(str.value)))
  }

  /** The entity each character is written as: attribute mode adds the
      quotes and, when asked, the space. */
  function EncodeChar(c: char, attr: bool, ws: bool): string
  {
    if c == '&' then "&amp;"
    else if c == '<' then "&lt;"
    else if c == '>' then "&gt;"
    else if attr && c == '"' then "&quot;"
    else if attr && c == '\'' then "&#39;"
    else if attr && ws && c == ' ' then "&nbsp;"
    else [c]
  }

  /** Each character encoded on its own, in one pass. */
  function EncodeAll(s: string, attr: bool, ws: bool): string
  {
    if s == [] then [] else EncodeChar(s[0], attr, ws) + EncodeAll(s[1..], attr, ws)
  }

  lemma ReplaceCharOne(c: char, x: char, r: string)
    ensures Text.ReplaceChar([c], x, r) == if c == x then r else [c]
  {
    assert [c][1..] == [];
  }

  /** What no stage after the `&` stage touches. */
  lemma Settled(t: string)
    requires '&' !in t || t == "&amp;" || t == "&lt;" || t == "&gt;" || t == "&quot;" || t == "&#39;"
    requires '<' !in t && '>' !in t && '"' !in t && '\'' !in t && ' ' !in t
    ensures TagStage(t) == t && QuoteStage(t) == t && Text.ReplaceChar(t, ' ', "&nbsp;") == t
  {
    Text.ReplaceCharAbsent(t, '<', "&lt;");
    Text.ReplaceCharAbsent(t, '>', "&gt;");
    Text.ReplaceCharAbsent(t, '"', "&quot;");
    Text.ReplaceCharAbsent(t, '\'', "&#39;");
    Text.ReplaceCharAbsent(t, ' ', "&nbsp;");
  }

  /** The cascade of replacements on one character gives its entity: no
      later stage touches what an earlier one wrote. */
  lemma EscapeAttrChar(c: char, ws: bool)
    ensures EscapeAttrText([c], ws) == EncodeChar(c, true, ws)
    ensures TagStage(AmpStage([c])) == EncodeChar(c, false, false)
  {
    ReplaceCharOne(c, '&', "&amp;");
    if c == '&' {
      Settled("&amp;");
    } else if c == '<' || c == '>' {
      EscapeTagChar(c);
    } else if c == '"' || c == '\'' {
      EscapeQuoteChar(c);
    } else if c == ' ' {
      EscapeSpaceChar();
    } else {
      Settled([c]);
    }
  }

  lemma EscapeTagChar(c: char)
    requires c == '<' || c == '>'
    ensures TagStage([c]) == EncodeChar(c, false, false)
    ensures QuoteStage(TagStage([c])) == TagStage([c])
    ensures Text.ReplaceChar(TagStage([c]), ' ', "&nbsp;") == TagStage([c])
  {
    if c == '<' {
      EscapeLt();
    } else {
      EscapeGt();
    }
  }

  lemma EscapeLt()
    ensures TagStage("<") == "&lt;"
    ensures QuoteStage("&lt;") == "&lt;" && Text.ReplaceChar("&lt;", ' ', "&nbsp;") == "&lt;"
  {
    ReplaceCharOne('<', '<', "&lt;");
    LtNoGt();
    Settled("&lt;");
  }

  lemma LtNoGt()
    ensures Text.ReplaceChar("&lt;", '>', "&gt;") == "&lt;"
  {
    Text.ReplaceCharAbsent("&lt;", '>', "&gt;");
  }

  lemma EscapeGt()
    ensures TagStage(">") == "&gt;"
    ensures QuoteStage("&gt;") == "&gt;" && Text.ReplaceChar("&gt;", ' ', "&nbsp;") == "&gt;"
  {
    ReplaceCharOne('>', '<', "&lt;");
    ReplaceCharOne('>', '>', "&gt;");
    Settled("&gt;");
  }

  lemma EscapeQuoteChar(c: char)
    requires c == '"' || c == '\''
    ensures TagStage([c]) == [c]
    ensures QuoteStage([c]) == EncodeChar(c, true, false)
    ensures Text.ReplaceChar(QuoteStage([c]), ' ', "&nbsp;") == QuoteStage([c])
  {
    ReplaceCharOne(c, '<', "&lt;");
    ReplaceCharOne(c, '>', "&gt;");
    if c == '"' {
      EscapeDoubleQuote();
    } else {
      EscapeSingleQuote();
    }
  }

  lemma EscapeDoubleQuote()
    ensures QuoteStage("\"") == "&quot;"
    ensures Text.ReplaceChar("&quot;", ' ', "&nbsp;") == "&quot;"
  {
    ReplaceCharOne('"', '"', "&quot;");
    QuotNoApos();
    QuotNoSpace();
  }

  lemma QuotNoApos()
    ensures Text.ReplaceChar("&quot;", '\'', "&#39;") == "&quot;"
  {
    Text.ReplaceCharAbsent("&quot;", '\'', "&#39;");
  }

  lemma QuotNoSpace()
    ensures Text.ReplaceChar("&quot;", ' ', "&nbsp;") == "&quot;"
  {
    Text.ReplaceCharAbsent("&quot;", ' ', "&nbsp;");
  }

  lemma EscapeSingleQuote()
    ensures QuoteStage("'") == "&#39;"
    ensures Text.ReplaceChar("&#39;", ' ', "&nbsp;") == "&#39;"
  {
    ReplaceCharOne('\'', '"', "&quot;");
    ReplaceCharOne('\'', '\'', "&#39;");
    Text.ReplaceCharAbsent("&#39;", ' ', "&nbsp;");
  }

  lemma EscapeSpaceChar()
    ensures TagStage(" ") == " " && QuoteStage(" ") == " "
    ensures Text.ReplaceChar(" ", ' ', "&nbsp;") == "&nbsp;"
  {
    ReplaceCharOne(' ', '<', "&lt;");
    ReplaceCharOne(' ', '>', "&gt;");
    ReplaceCharOne(' ', '"', "&quot;");
    ReplaceCharOne(' ', '\'', "&#39;");
    ReplaceCharOne(' ', ' ', "&nbsp;");
  }

  /** The cascades work character by character. */
  lemma EscapeAttrAppend(a: string, b: string, ws: bool)
    ensures EscapeAttrText(a + b, ws) == EscapeAttrText(a, ws) + EscapeAttrText(b, ws)
    ensures TagStage(AmpStage(a + b)) == TagStage(AmpStage(a)) + TagStage(AmpStage(b))
  {
    Text.ReplaceCharAppend(a, b, '&', "&amp;");
    var a1, b1 := AmpStage(a), AmpStage(b);
    Text.ReplaceCharAppend(a1, b1, '<', "&lt;");
    var a2, b2 := Text.ReplaceChar(a1, '<', "&lt;"), Text.ReplaceChar(b1, '<', "&lt;");
    Text.ReplaceCharAppend(a2, b2, '>', "&gt;");
    var a3, b3 := TagStage(a1), TagStage(b1);
    Text.ReplaceCharAppend(a3, b3, '"', "&quot;");
    var a4, b4 := Text.ReplaceChar(a3, '"', "&quot;"), Text.ReplaceChar(b3, '"', "&quot;");
    Text.ReplaceCharAppend(a4, b4, '\'', "&#39;");
    Text.ReplaceCharAppend(QuoteStage(a3), QuoteStage(b3), ' ', "&nbsp;");
  }

  /** The chained replacements equal the one-pass encoding. */
  lemma {:induction false} EscapeIsEncode(s: string, ws: bool)
    ensures EscapeAttrText(s, ws) == EncodeAll(s, true, ws)
    ensures TagStage(AmpStage(s)) == EncodeAll(s, false, false)
  {
    if s != [] {
      EscapeIsEncode(s[1..], ws);
      assert s == [s[0]] + s[1..];
      EscapeAttrAppend([s[0]], s[1..], ws);
      EscapeAttrChar(s[0], ws);
    }
  }

  /** The attribute escape leaves no raw `<`, `>`, `"` or `'`, and no space
      when spaces are escaped. */
  lemma EscapeAttrClean(s: string, ws: bool)
    ensures var r := EscapeAttrText(s, ws);
      && '<' !in r && '>' !in r && '"' !in r && '\'' !in r
      && (ws ==> ' ' !in r)
  {
    EscapeIsEncode(s, ws);
    EncodeAllClean(s, true, ws);
  }

  lemma {:induction false} EncodeAllClean(s: string, attr: bool, ws: bool)
    ensures var r := EncodeAll(s, attr, ws);
      && '<' !in r && '>' !in r
      && (attr ==> '"' !in r && '\'' !in r)
      && (attr && ws ==> ' ' !in r)
  {
    if s != [] {
      EncodeAllClean(s[1..], attr, ws);
      EncodeCharClean(s[0], attr, ws);
    }
  }

  lemma EncodeCharClean(c: char, attr: bool, ws: bool)
    ensures var e := EncodeChar(c, attr, ws);
      && '<' !in e && '>' !in e
      && (attr ==> '"' !in e && '\'' !in e)
      && (attr && ws ==> ' ' !in e)
  {
  }

  function StartsWith(s: string, p: string): bool
  {
    |p| <= |s| && s[..|p|] == p
  }

  /** A decoder that reads each entity once, left to right. */
  function DecodeEntities(s: string): string
    decreases |s|
  {
    if s == [] then []
    else if StartsWith(s, "&nbsp;") then " " + DecodeEntities(s[6..])
    else if StartsWith(s, "&amp;") then "&" + DecodeEntities(s[5..])
    else if StartsWith(s, "&lt;") then "<" + DecodeEntities(s[4..])
    else if StartsWith(s, "&gt;") then ">" + DecodeEntities(s[4..])
    else if StartsWith(s, "&quot;") then "\"" + DecodeEntities(s[6..])
    else if StartsWith(s, "&#39;") then "'" + DecodeEntities(s[5..])
    else [s[0]] + DecodeEntities(s[1..])
  }

  lemma DecodeStep(c: char, attr: bool, ws: bool, rest: string)
    ensures DecodeEntities(EncodeChar(c, attr, ws) + rest) == [c] + DecodeEntities(rest)
  {
    var e := EncodeChar(c, attr, ws);
    if e == [c] {
      DecodePlain(c, rest);
    } else {
      DecodeEntity(e, c, rest);
    }
  }

  lemma DecodePlain(c: char, rest: string)
    requires c != '&'
    ensures DecodeEntities([c] + rest) == [c] + DecodeEntities(rest)
  {
    var t := [c] + rest;
    assert t[0] == c && t[1..] == rest;
    NoEntityAt(t, "&nbsp;");
    NoEntityAt(t, "&amp;");
    NoEntityAt(t, "&lt;");
    NoEntityAt(t, "&gt;");
    NoEntityAt(t, "&quot;");
    NoEntityAt(t, "&#39;");
  }

  lemma NoEntityAt(t: string, p: string)
    requires t != [] && t[0] != '&' && p != [] && p[0] == '&'
    ensures !StartsWith(t, p)
  {
    if |p| <= |t| {
      assert t[..|p|][0] == t[0];
    }
  }

  /** Each entity is read back as its character. */
  lemma DecodeEntity(e: string, c: char, rest: string)
    requires (c == ' ' && e == "&nbsp;") || (c == '&' && e == "&amp;") || (c == '<' && e == "&lt;")
      || (c == '>' && e == "&gt;") || (c == '"' && e == "&quot;") || (c == '\'' && e == "&#39;")
    ensures DecodeEntities(e + rest) == [c] + DecodeEntities(rest)
  {
    if c == ' ' {
      DecodeNbsp(rest);
    } else if c == '&' {
      DecodeAmp(rest);
    } else if c == '<' {
      DecodeLt(rest);
    } else if c == '>' {
      DecodeGt(rest);
    } else if c == '"' {
      DecodeQuot(rest);
    } else {
      DecodeApos(rest);
    }
  }

  lemma DecodeNbsp(rest: string)
    ensures DecodeEntities("&nbsp;" + rest) == [' '] + DecodeEntities(rest)
  {
    var t := "&nbsp;" + rest;
    assert t[..6] == "&nbsp;" && t[6..] == rest;
    assert t[1] == 'n';
    assert StartsWith(t, "&nbsp;");
  }

  lemma DecodeAmp(rest: string)
    ensures DecodeEntities("&amp;" + rest) == ['&'] + DecodeEntities(rest)
  {
    var t := "&amp;" + rest;
    assert t[..5] == "&amp;" && t[5..] == rest;
    assert t[1] == 'a';
    assert !StartsWith(t, "&nbsp;") by { assert "&nbsp;"[1] != t[1]; }
    assert StartsWith(t, "&amp;");
  }

  lemma DecodeLt(rest: string)
    ensures DecodeEntities("&lt;" + rest) == ['<'] + DecodeEntities(rest)
  {
    var t := "&lt;" + rest;
    assert t[..4] == "&lt;" && t[4..] == rest;
    assert t[1] == 'l';
    assert !StartsWith(t, "&nbsp;") by { assert "&nbsp;"[1] != t[1]; }
    assert !StartsWith(t, "&amp;") by { assert "&amp;"[1] != t[1]; }
    assert StartsWith(t, "&lt;");
  }

  lemma DecodeGt(rest: string)
    ensures DecodeEntities("&gt;" + rest) == ['>'] + DecodeEntities(rest)
  {
    var t := "&gt;" + rest;
    assert t[..4] == "&gt;" && t[4..] == rest;
    assert t[1] == 'g';
    assert !StartsWith(t, "&nbsp;") by { assert "&nbsp;"[1] != t[1]; }
    assert !StartsWith(t, "&amp;") by { assert "&amp;"[1] != t[1]; }
    assert !StartsWith(t, "&lt;") by { assert "&lt;"[1] != t[1]; }
    assert StartsWith(t, "&gt;");
  }

  lemma DecodeQuot(rest: string)
    ensures DecodeEntities("&quot;" + rest) == ['"'] + DecodeEntities(rest)
  {
    var t := "&quot;" + rest;
    assert t[..6] == "&quot;" && t[6..] == rest;
    assert t[1] == 'q';
    assert !StartsWith(t, "&nbsp;") by { assert "&nbsp;"[1] != t[1]; }
    assert !StartsWith(t, "&amp;") by { assert "&amp;"[1] != t[1]; }
    assert !StartsWith(t, "&lt;") by { assert "&lt;"[1] != t[1]; }
    assert !StartsWith(t, "&gt;") by { assert "&gt;"[1] != t[1]; }
    assert StartsWith(t, "&quot;");
  }

  lemma DecodeApos(rest: string)
    ensures DecodeEntities("&#39;" + rest) == ['\''] + DecodeEntities(rest)
  {
    var t := "&#39;" + rest;
    assert t[..5] == "&#39;" && t[5..] == rest;
    assert t[1] == '#';
    assert !StartsWith(t, "&nbsp;") by { assert "&nbsp;"[1] != t[1]; }
    assert !StartsWith(t, "&amp;") by { assert "&amp;"[1] != t[1]; }
    assert !StartsWith(t, "&lt;") by { assert "&lt;"[1] != t[1]; }
    assert !StartsWith(t, "&gt;") by { assert "&gt;"[1] != t[1]; }
    assert !StartsWith(t, "&quot;") by { assert "&quot;"[1] != t[1]; }
    assert StartsWith(t, "&#39;");
  }

  /** The one-pass decoder undoes both escapers. */
  lemma {:induction false} DecodeEncode(s: string, attr: bool, ws: bool)
    ensures DecodeEntities(EncodeAll(s, attr, ws)) == s
  {
    if s != [] {
      DecodeEncode(s[1..], attr, ws);
      DecodeStep(s[0], attr, ws, EncodeAll(s[1..], attr, ws));
      assert s == [s[0]] + s[1..];
    }
  }

  /** `unescapeTags` with one decoding pass: it undoes `escapeTags` and
      `escapeForHtmlAttributes`. */
  function UnescapeTagsOnce(str: Option<string>): (r: Option<string>)
    ensures str.Some? ==> r.Some?
  {
    if str.None? || str.value == "" then str else Some(DecodeEntities(str.value))
  }

  lemma EscapeRoundTrip(s: string, ws: bool)
    ensures UnescapeTagsOnce(EscapeTags(Some(s))) == Some(s)
    ensures UnescapeTagsOnce(Some(EscapeAttrText(s, ws))) == Some(s)
  {
    EscapeIsEncode(s, ws);
    DecodeEncode(s, false, false);
    DecodeEncode(s, true, ws);
  }

  /** `unescapeTags(str)` as written: six replacements in a row, `&amp;`
      second, so an escaped entity is decoded twice. */
  function UnescapeTags(str: Option<string>): Option<string>
  {
    if str.None? || str.value == "" then str
    else
      var s := str.value;
      var s1 := Text.ReplaceAll(s, "&nbsp;", " ");
      var s2 := Text.ReplaceAll(s1, "&amp;", "&");
      var s3 := Text.ReplaceAll(s2, "&lt;", "<");
      var s4 := Text.ReplaceAll(s3, "&gt;", ">");
      var s5 := Text.ReplaceAll(s4, "&quot;", "\"");
      Some(Text.ReplaceAll(s5, "&#39;", "'"))
  }

  /** Escaping `&lt;` escapes only its `&`. */
  lemma EscapeEntityText()
    ensures EscapeTags(Some("&lt;")) == Some("&amp;lt;")
  {
    AmpOfEntity();
    TagsOfEscaped();
  }

  lemma AmpOfEntity()
    ensures AmpStage("&lt;") == "&amp;lt;"
  {
    assert "&lt;" == "&" + "lt;";
    Text.ReplaceCharAppend("&", "lt;", '&', "&amp;");
    ReplaceCharOne('&', '&', "&amp;");
    Text.ReplaceCharAbsent("lt;", '&', "&amp;");
  }

  lemma TagsOfEscaped()
    ensures TagStage("&amp;lt;") == "&amp;lt;"
  {
    TagFree("&amp;lt;");
  }

  lemma TagFree(t: string)
    requires '<' !in t && '>' !in t
    ensures TagStage(t) == t
  {
    Text.ReplaceCharAbsent(t, '<', "&lt;");
    Text.ReplaceCharAbsent(t, '>', "&gt;");
  }

  /** The text `&lt;` escaped and unescaped comes back as `<`. */
  lemma UnescapeTagsDecodesTwice()
    ensures EscapeTags(Some("&lt;")) == Some("&amp;lt;")
    ensures UnescapeTags(EscapeTags(Some("&lt;"))) == Some("<")
  {
    EscapeEntityText();
    NoSpaceEntity();
    AmpDecoded();
    LtDecoded();
  }

  lemma NoSpaceEntity()
    ensures Text.ReplaceAll("&amp;lt;", "&nbsp;", " ") == "&amp;lt;"
  {
    var a := "&amp;lt;";
    assert a[..6] != "&nbsp;" by { assert a[..6][1] == 'a'; }
    Text.ReplaceAllAbsent(a[1..], "&nbsp;", " ");
    assert [a[0]] + a[1..] == a;
  }

  lemma AmpDecoded()
    ensures Text.ReplaceAll("&amp;lt;", "&amp;", "&") == "&lt;"
  {
    var a := "&amp;lt;";
    assert a[..5] == "&amp;" && a[5..] == "lt;";
    Text.ReplaceAllAbsent("lt;", "&amp;", "&");
    assert "&" + "lt;" == "&lt;";
  }

  lemma LtDecoded()
    ensures Text.ReplaceAll("&lt;", "&lt;", "<") == "<"
    ensures Text.ReplaceAll("<", "&gt;", ">") == "<"
    ensures Text.ReplaceAll("<", "&quot;", "\"") == "<"
    ensures Text.ReplaceAll("<", "&#39;", "'") == "<"
  {
    var s := "&lt;";
    assert s[..4] == "&lt;" && s[4..] == [];
    assert "<" + [] == "<";
  }

  // ----- lpad -----

  /** The text `lpad` pads to: `pad` in front until the length is reached. */
  function Lpadded(s: string, pad: string, length: int): string
    requires pad != [] || |s| >= length
    decreases length - |s|
  {
    if |s| >= length then s else Lpadded(pad + s, pad, length)
  }

  /** `str.lpad(padString, length)`. With an empty pad and a short text the
      loop would not end; callers must not ask for that. */
  method Lpad(s: string, pad: string, length: int) returns (r: string)
    requires pad != [] || |s| >= length
    ensures r == Lpadded(s, pad, length)
  {
    r := s;
    while |r| < length
      invariant pad != [] || |r| >= length
      invariant Lpadded(r, pad, length) == Lpadded(s, pad, length)
      decreases length - |r|
    {
      r := pad + r;
    }
  }

  function Repeat(p: string, k: nat): (r: string)
    ensures |r| == k * |p|
  {
    if k == 0 then [] else p + Repeat(p, k - 1)
  }

  /** How many copies of the pad are put in front. */
  function PadCount(n: int, p: int, length: int): nat
    requires p > 0 || n >= length
    decreases length - n
  {
    if n >= length then 0 else 1 + PadCount(n + p, p, length)
  }

  /** The padded text is some copies of the pad, then the text; it reaches
      the length, a long enough text is unchanged, and one copy fewer would
      fall short. */
  lemma {:induction false} LpadSpec(s: string, pad: string, length: int)
    requires pad != [] || |s| >= length
    ensures var r, k := Lpadded(s, pad, length), PadCount(|s|, |pad|, length);
      && r == Repeat(pad, k) + s
      && |r| >= length
      && (|s| >= length ==> r == s)
      && (|s| < length ==> |r| < length + |pad|)
    decreases length - |s|
  {
    if |s| < length {
      LpadSpec(pad + s, pad, length);
      var k := PadCount(|pad + s|, |pad|, length);
      assert Repeat(pad, k + 1) + s == Repeat(pad, k) + (pad + s) by {
        RepeatSnoc(pad, k);
      }
    }
  }

  lemma {:induction false} RepeatSnoc(p: string, k: nat)
    ensures Repeat(p, k + 1) == Repeat(p, k) + p
  {
    if k > 0 {
      RepeatSnoc(p, k - 1);
    }
  }

  // ----- nvl -----

  /** `nvl(value, defaultValue)`. */
  function Nvl(value: JsValue, defaultValue: JsValue): JsValue
  {
    if value == Undefined then defaultValue
    else if value == Bool(false) then JsString("false")
    else if value == Num(0) then JsString("0")
    else if !Truthy(value) then defaultValue
    else value
  }

  /** `false` and `0` are shown as text, the other falsy values take the
      default, and truthy values are kept; with a truthy default the result
      is always truthy. */
  lemma NvlSpec(value: JsValue, defaultValue: JsValue)
    ensures Truthy(value) ==> Nvl(value, defaultValue) == value
    ensures value in {Undefined, Null, JsString("")} ==> Nvl(value, defaultValue) == defaultValue
    ensures Nvl(Bool(false), defaultValue) == JsString("false") && Nvl(Num(0), defaultValue) == JsString("0")
    ensures Truthy(defaultValue) ==> Truthy(Nvl(value, defaultValue))
  {
  }

  // ----- names and ids -----

  /** `pluralize(name)`. */
  function Pluralize(name: string): string
  {
    if name != [] && name[|name| - 1] == 'y' then name[..|name| - 1] + "ies"
    else if name != [] && name[|name| - 1] == 's' then name
    else name + "s"
  }

  /** The plural always ends in `s`; a trailing `y` becomes `ies`, a name
      already ending in `s` is unchanged, and any other name (the empty one
      included) gets an `s` appended. */
  lemma PluralizeSpec(name: string)
    ensures var r := Pluralize(name);
      && r != [] && r[|r| - 1] == 's'
      && (name != [] && name[|name| - 1] == 'y' ==> r == name[..|name| - 1] + "ies")
      && (name != [] && name[|name| - 1] == 's' ==> r == name)
      && (name == [] || (name[|name| - 1] != 'y' && name[|name| - 1] != 's') ==> r == name + "s")
  {
  }

  predicate IsHex(c: char)
  {
    '0' <= c <= '9' || 'a' <= c <= 'f' || 'A' <= c <= 'F'
  }

  predicate AllHex(s: string)
  {
    forall k :: 0 <= k < |s| ==> IsHex(s[k])
  }

  /** `isUUID(str)`: length 32 and the unanchored `[a-fA-F0-9]{32}` finds a
      match. */
  predicate IsUUID(s: string)
  {
    |s| == 32 && exists i :: 0 <= i <= |s| - 32 && HexRunAt(s, i)
  }

  /** The regular expression matches at position `i`. */
  predicate HexRunAt(s: string, i: int)
  {
    0 <= i && i + 32 <= |s| && AllHex(s[i..i + 32])
  }

  /** A UUID is exactly 32 hex digits. */
  lemma IsUUIDSpec(s: string)
    ensures IsUUID(s) <==> |s| == 32 && AllHex(s)
  {
    if |s| == 32 {
      assert s[0..32] == s;
      assert HexRunAt(s, 0) <==> AllHex(s);
      if IsUUID(s) {
        var i :| 0 <= i <= |s| - 32 && HexRunAt(s, i);
        assert i == 0;
      }
    }
  }

  /** `shorten(uuid)`: the first eight characters. */
  function Shorten(uuid: string): (r: string)
    ensures r <= uuid && |r| == if |uuid| < 8 then |uuid| else 8
  {
    if |uuid| < 8 then uuid else uuid[..8]
  }

  /** `getTypeFromResourceSignature(signature)`: the text before the first
      `/`. */
  function TypeFromResourceSignature(signature: string): string
  {
    if '/' !in signature then signature
    else signature[..Search.FirstIndexOf(signature, '/')]
  }

  /** The type is the longest prefix without `/`. */
  lemma TypeFromResourceSignatureSpec(signature: string)
    ensures var r := TypeFromResourceSignature(signature);
      && r <= signature && '/' !in r
      && ('/' in signature ==> signature[|r|] == '/')
      && ('/' !in signature ==> r == signature)
  {
  }

  predicate IsUpper(c: char)
  {
    'A' <= c <= 'Z'
  }

  predicate IsLower(c: char)
  {
    'a' <= c <= 'z'
  }

  function Lower(c: char): (r: char)
    ensures !IsUpper(r)
  {
    if IsUpper(c) then (c as int + 32) as char else c
  }

  function Upper(c: char): (r: char)
    ensures !IsLower(r) && (IsLower(c) ==> IsUpper(r))
  {
    if IsLower(c) then (c as int - 32) as char else c
  }

  /** `toUnderscore` from position `atStart` on: each capital letter lower
      cased, with `_` in front unless it is the first character. */
  function UnderscoreFrom(s: string, atStart: bool): string
  {
    if s == [] then []
    else UnderscoreHead(s[0], atStart) + UnderscoreFrom(s[1..], false)
  }

  function ToUnderscore(s: string): string
  {
    UnderscoreFrom(s, true)
  }

  function LowerAll(s: string): string
  {
    if s == [] then [] else [Lower(s[0])] + LowerAll(s[1..])
  }

  /** No capital letter is left, and dropping the underscores gives the
      lower-cased text with its own underscores dropped. */
  lemma {:induction false} ToUnderscoreSpec(s: string, atStart: bool)
    ensures var r := UnderscoreFrom(s, atStart);
      && (forall k :: 0 <= k < |r| ==> !IsUpper(r[k]))
      && Text.Strip(r, {'_'}) == LowerAll(Text.Strip(s, {'_'}))
  {
    if s != [] {
      ToUnderscoreSpec(s[1..], false);
      UnderscoreHeadSpec(s[0], atStart);
      var head := UnderscoreHead(s[0], atStart);
      var tail := UnderscoreFrom(s[1..], false);
      var r := UnderscoreFrom(s, atStart);
      assert r == head + tail;
      assert forall k :: 0 <= k < |r| ==> !IsUpper(r[k]) by {
        forall k | 0 <= k < |r|
          ensures !IsUpper(r[k])
        {
          if k >= |head| {
            assert r[k] == tail[k - |head|];
          }
        }
      }
      Text.StripAppend(head, tail, {'_'});
      assert s == [s[0]] + s[1..];
      Text.StripAppend([s[0]], s[1..], {'_'});
      LowerAllAppend(Text.Strip([s[0]], {'_'}), Text.Strip(s[1..], {'_'}));
    }
  }

  /** What each character is written as: `_` and the small letter for a
      capital one, with no `_` at the very start. */
  function UnderscoreHead(c: char, atStart: bool): string
  {
    if IsUpper(c) then (if atStart then "" else "_") + [Lower(c)] else [c]
  }

  lemma UnderscoreHeadSpec(c: char, atStart: bool)
    ensures var head := UnderscoreHead(c, atStart);
      && (forall k :: 0 <= k < |head| ==> !IsUpper(head[k]))
      && Text.Strip(head, {'_'}) == LowerAll(Text.Strip([c], {'_'}))
  {
    var head := UnderscoreHead(c, atStart);
    assert [c][1..] == [];
    if IsUpper(c) {
      assert [Lower(c)][1..] == [];
      if !atStart {
        assert head == ['_'] + [Lower(c)];
        Text.StripAppend(['_'], [Lower(c)], {'_'});
        assert ['_'][1..] == [];
      }
    }
  }

  lemma {:induction false} LowerAllAppend(a: string, b: string)
    ensures LowerAll(a + b) == LowerAll(a) + LowerAll(b)
  {
    if a != [] {
      LowerAllAppend(a[1..], b);
      assert (a + b)[0] == a[0] && (a + b)[1..] == a[1..] + b;
      assert LowerAll(a + b) == [Lower(a[0])] + (LowerAll(a[1..]) + LowerAll(b));
      assert [Lower(a[0])] + (LowerAll(a[1..]) + LowerAll(b)) == [Lower(a[0])] + LowerAll(a[1..]) + LowerAll(b);
    } else {
      assert a + b == b;
    }
  }

  /** `toCamel`: each `-` followed by a small letter becomes the capital
      letter, scanning left to right. */
  function ToCamel(s: string): (r: string)
    ensures s != [] ==> r != [] && (r[0] == s[0] || (|s| >= 2 && IsUpper(r[0]) && IsLower(s[1])))
    decreases |s|
  {
    if |s| < 2 then s
    else if s[0] == '-' && IsLower(s[1]) then [Upper(s[1])] + ToCamel(s[2..])
    else [s[0]] + ToCamel(s[1..])
  }

  /** Whether `s` has a `-` right before a small letter. */
  predicate HasDashLower(s: string)
  {
    exists k :: 0 <= k < |s| - 1 && s[k] == '-' && IsLower(s[k + 1])
  }

  /** No `-` before a small letter survives, text without one is unchanged,
      so applying it twice is applying it once. */
  lemma {:induction false} ToCamelSpec(s: string)
    ensures !HasDashLower(ToCamel(s))
    ensures !HasDashLower(s) ==> ToCamel(s) == s
    ensures ToCamel(ToCamel(s)) == ToCamel(s)
    decreases |s|
  {
    if |s| >= 2 {
      if s[0] == '-' && IsLower(s[1]) {
        ToCamelSpec(s[2..]);
        var r := ToCamel(s);
        assert r == [Upper(s[1])] + ToCamel(s[2..]);
        NoDashLowerCons(Upper(s[1]), ToCamel(s[2..]));
        assert HasDashLower(s) by { assert s[0] == '-' && IsLower(s[1]); }
      } else {
        ToCamelSpec(s[1..]);
        var t := ToCamel(s[1..]);
        assert t[0] == s[1] || IsUpper(t[0]);
        assert !(s[0] == '-' && IsLower(t[0]));
        NoDashLowerCons(s[0], t);
        DashLowerTail(s);
      }
      ToCamelFixed(ToCamel(s));
    }
  }

  /** A `-` before a small letter in the tail is one in the whole text. */
  lemma DashLowerTail(s: string)
    requires s != []
    ensures HasDashLower(s[1..]) ==> HasDashLower(s)
  {
    if HasDashLower(s[1..]) {
      var k :| 0 <= k < |s[1..]| - 1 && s[1..][k] == '-' && IsLower(s[1..][k + 1]);
      assert s[k + 1] == '-' && IsLower(s[k + 2]);
    }
  }

  lemma NoDashLowerCons(c: char, t: string)
    requires !HasDashLower(t)
    requires t != [] ==> !(c == '-' && IsLower(t[0]))
    ensures !HasDashLower([c] + t)
  {
    var s := [c] + t;
    forall k | 0 <= k < |s| - 1
      ensures !(s[k] == '-' && IsLower(s[k + 1]))
    {
      if k > 0 {
        assert s[k] == t[k - 1] && s[k + 1] == t[k];
      }
    }
  }

  /** Text without a `-` before a small letter is left as it is. */
  lemma {:induction false} ToCamelFixed(s: string)
    requires !HasDashLower(s)
    ensures ToCamel(s) == s
    decreases |s|
  {
    if |s| >= 2 {
      assert !(s[0] == '-' && IsLower(s[1]));
      DashLowerTail(s);
      ToCamelFixed(s[1..]);
      assert s == [s[0]] + s[1..];
    }
  }
}
