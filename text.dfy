/** Text handling of the store: the input sanitiser (trim, drop angle brackets, escape
    the markup-significant characters) and the lower-casing used for case-insensitive
    name comparison. */
module Text {

  /** The whitespace `String.prototype.trim` removes, restricted to ASCII. */
  predicate IsWhitespace(c: char) {
    c == ' ' || c == '\t' || c == '\n' || c == '\r' || c == '\U{000B}' || c == '\U{000C}'
  }

  function TrimStart(s: string): (r: string)
    ensures |r| <= |s| && r == s[|s| - |r|..]
    ensures forall i | 0 <= i < |s| - |r| :: IsWhitespace(s[i])
    ensures r == [] || !IsWhitespace(r[0])
  {
    if s != [] && IsWhitespace(s[0]) then TrimStart(s[1..]) else s
  }

  function TrimEnd(s: string): (r: string)
    ensures |r| <= |s| && r == s[..|r|]
    ensures forall i | |r| <= i < |s| :: IsWhitespace(s[i])
    ensures r == [] || !IsWhitespace(r[|r| - 1])
  {
    if s != [] && IsWhitespace(s[|s| - 1]) then TrimEnd(s[..|s| - 1]) else s
  }

  /** `input.trim()`: the leading whitespace dropped, then a prefix of the rest after which
      only whitespace follows; what is left neither starts nor ends with whitespace. */
  function Trim(s: string): (r: string)
    ensures r == [] || (!IsWhitespace(r[0]) && !IsWhitespace(r[|r| - 1]))
    ensures var front := TrimStart(s);
      && |r| <= |front| && r == front[..|r|]
      && (forall k | 0 <= k < |s| - |front| :: IsWhitespace(s[k]))
      && (forall k | |r| <= k < |front| :: IsWhitespace(front[k]))
  {
    TrimEnd(TrimStart(s))
  }

  /** The `length` of a JavaScript string: its UTF-16 code units, two for a character
      outside the Basic Multilingual Plane. */
  function Utf16Length(s: string): (n: nat)
    ensures |s| <= n <= 2 * |s|
    ensures (forall i | 0 <= i < |s| :: s[i] as int < 0x1_0000) ==> n == |s|
  {
    if s == [] then 0 else (if s[0] as int < 0x1_0000 then 1 else 2) + Utf16Length(s[1..])
  }

  /** The code units of a string are those of its parts, and a character takes one code
      unit inside the Basic Multilingual Plane and a surrogate pair (two) outside it.
      Together these fix the count of every string. */
  lemma {:induction false} Utf16LengthConcat(a: string, b: string)
    ensures Utf16Length(a + b) == Utf16Length(a) + Utf16Length(b)
  {
    if a == [] {
      assert a + b == b;
    } else {
      assert (a + b)[0] == a[0] && (a + b)[1..] == a[1..] + b;
      Utf16LengthConcat(a[1..], b);
    }
  }

  lemma Utf16LengthChar(c: char)
    ensures Utf16Length([c]) == if c as int < 0x1_0000 then 1 else 2
  {
    assert [c][1..] == [];
  }

  /** `.replace(/[<>]/g, '')` */
  function StripAngles(s: string): (r: string)
    ensures '<' !in r && '>' !in r
    ensures forall x | x != '<' && x != '>' :: x in r <==> x in s
    ensures |r| <= |s|
  {
    if s == [] then []
    else (if s[0] == '<' || s[0] == '>' then [] else [s[0]]) + StripAngles(s[1..])
  }

  /** Removing the brackets works character by character: it distributes over
      concatenation, and on one character it drops a bracket and keeps anything else.
      Together these fix the result, order and repetitions included. */
  lemma {:induction false} StripAnglesConcat(a: string, b: string)
    ensures StripAngles(a + b) == StripAngles(a) + StripAngles(b)
  {
    if a == [] {
      assert a + b == b;
    } else {
      assert a == [a[0]] + a[1..] && a + b == [a[0]] + (a[1..] + b);
      StripAnglesCons(a[0], a[1..] + b);
      StripAnglesCons(a[0], a[1..]);
      StripAnglesConcat(a[1..], b);
    }
  }

  lemma StripAnglesCons(x: char, s: string)
    ensures StripAngles([x] + s) == (if x == '<' || x == '>' then [] else [x]) + StripAngles(s)
  {
    assert ([x] + s)[0] == x && ([x] + s)[1..] == s;
  }

  lemma StripAnglesChar(c: char)
    ensures StripAngles([c]) == if c == '<' || c == '>' then [] else [c]
  {
    assert [c][1..] == [];
  }

  /** `.replace(/c/g, rep)` for a single character `c`. */
  function ReplaceAll(s: string, c: char, rep: string): string {
    if s == [] then [] else (if s[0] == c then rep else [s[0]]) + ReplaceAll(s[1..], c, rep)
  }

  /** A replacement that does not contain the character leaves none of it. */
  lemma {:induction false} ReplaceAllRemoves(s: string, c: char, rep: string)
    requires c !in rep
    ensures c !in ReplaceAll(s, c, rep)
  {
    if s != [] {
      ReplaceAllRemoves(s[1..], c, rep);
    }
  }

  /** Text without the character is left as it is. */
  lemma {:induction false} ReplaceAllAbsent(s: string, c: char, rep: string)
    requires c !in s
    ensures ReplaceAll(s, c, rep) == s
  {
    if s != [] {
      assert c !in s[1..];
      ReplaceAllAbsent(s[1..], c, rep);
      assert s == [s[0]] + s[1..];
    }
  }

  /** A character that is neither replaced nor introduced stays absent. */
  lemma {:induction false} ReplaceAllKeepsAbsent(s: string, c: char, rep: string, x: char)
    requires x != c && x !in rep && x !in s
    ensures x !in ReplaceAll(s, c, rep)
  {
    if s != [] {
      assert x !in s[1..];
      ReplaceAllKeepsAbsent(s[1..], c, rep, x);
    }
  }

  lemma ReplaceAllSingle(d: char, c: char, rep: string)
    ensures ReplaceAll([d], c, rep) == if d == c then rep else [d]
  {
    assert [d][1..] == [];
  }

  /** The four escaping passes, in the order the store applies them: `&` first, so the
      ampersands the later passes introduce are not escaped again. */
  function EscapeMarkup(s: string): (r: string)
    ensures '"' !in r && '\'' !in r && '/' !in r
  {
    var s1 := ReplaceAll(s, '&', "&amp;");
    var s2 := ReplaceAll(s1, '"', "&quot;");
    var s3 := ReplaceAll(s2, '\'', "&#x27;");
    ReplaceAllRemoves(s1, '"', "&quot;");
    ReplaceAllKeepsAbsent(s2, '\'', "&#x27;", '"');
    ReplaceAllRemoves(s2, '\'', "&#x27;");
    ReplaceAllKeepsAbsent(s3, '/', "&#x2F;", '"');
    ReplaceAllKeepsAbsent(s3, '/', "&#x2F;", '\'');
    ReplaceAllRemoves(s3, '/', "&#x2F;");
    ReplaceAll(s3, '/', "&#x2F;")
  }

  /** `DataStore.sanitizeInput`: sanitised text carries no raw markup character. */
  function SanitizeInput(input: string): (r: string)
    ensures '<' !in r && '>' !in r && '"' !in r && '\'' !in r && '/' !in r
  {
    var stripped := StripAngles(Trim(input));
    EscapeMarkupKeepsAbsent(stripped, '<');
    EscapeMarkupKeepsAbsent(stripped, '>');
    EscapeMarkup(stripped)
  }

  // ---------------------------------------------------------------------------
  // A reference definition: escaping one character at a time.

  function EscapeChar(c: char): string {
    if c == '&' then "&amp;"
    else if c == '"' then "&quot;"
    else if c == '\'' then "&#x27;"
    else if c == '/' then "&#x2F;"
    else [c]
  }

  function EscapeEach(s: string): string {
    if s == [] then [] else EscapeChar(s[0]) + EscapeEach(s[1..])
  }

  predicate HasPrefixAt(s: string, i: nat, p: string) {
    i + |p| <= |s| && s[i..i + |p|] == p
  }

  /** One of the four entities the sanitiser produces starts at position `i`. */
  predicate EntityAt(s: string, i: nat) {
    HasPrefixAt(s, i, "&amp;") || HasPrefixAt(s, i, "&quot;") ||
    HasPrefixAt(s, i, "&#x27;") || HasPrefixAt(s, i, "&#x2F;")
  }

  ghost predicate AmpersandsAreEntities(s: string) {
    forall i | 0 <= i < |s| && s[i] == '&' :: EntityAt(s, i)
  }

  /** Decoding of the four entities; the inverse of the escaping. */
  function Unescape(s: string): string
    decreases |s|
  {
    if s == [] then []
    else if HasPrefixAt(s, 0, "&amp;") then "&" + Unescape(s[5..])
    else if HasPrefixAt(s, 0, "&quot;") then "\"" + Unescape(s[6..])
    else if HasPrefixAt(s, 0, "&#x27;") then "'" + Unescape(s[6..])
    else if HasPrefixAt(s, 0, "&#x2F;") then "/" + Unescape(s[6..])
    else [s[0]] + Unescape(s[1..])
  }

  lemma {:induction false} ReplaceAllConcat(a: string, b: string, c: char, rep: string)
    ensures ReplaceAll(a + b, c, rep) == ReplaceAll(a, c, rep) + ReplaceAll(b, c, rep)
  {
    if a == [] {
      assert a + b == b;
    } else {
      assert a == [a[0]] + a[1..] && a + b == [a[0]] + (a[1..] + b);
      ReplaceAllCons(a[0], a[1..] + b, c, rep);
      ReplaceAllCons(a[0], a[1..], c, rep);
      ReplaceAllConcat(a[1..], b, c, rep);
    }
  }

  lemma ReplaceAllCons(x: char, s: string, c: char, rep: string)
    ensures ReplaceAll([x] + s, c, rep) == (if x == c then rep else [x]) + ReplaceAll(s, c, rep)
  {
    assert ([x] + s)[0] == x && ([x] + s)[1..] == s;
  }

  lemma EscapeMarkupConcat(a: string, b: string)
    ensures EscapeMarkup(a + b) == EscapeMarkup(a) + EscapeMarkup(b)
  {
    var a1, b1 := ReplaceAll(a, '&', "&amp;"), ReplaceAll(b, '&', "&amp;");
    ReplaceAllConcat(a, b, '&', "&amp;");
    var a2, b2 := ReplaceAll(a1, '"', "&quot;"), ReplaceAll(b1, '"', "&quot;");
    ReplaceAllConcat(a1, b1, '"', "&quot;");
    var a3, b3 := ReplaceAll(a2, '\'', "&#x27;"), ReplaceAll(b2, '\'', "&#x27;");
    ReplaceAllConcat(a2, b2, '\'', "&#x27;");
    ReplaceAllConcat(a3, b3, '/', "&#x2F;");
  }

  lemma EscapeMarkupChar(c: char)
    ensures EscapeMarkup([c]) == EscapeChar(c)
  {
    ReplaceAllSingle(c, '&', "&amp;");
    var s1 := ReplaceAll([c], '&', "&amp;");
    if c == '&' {
      assert '"' !in s1 && '\'' !in s1 && '/' !in s1;
      ReplaceAllAbsent(s1, '"', "&quot;");
      ReplaceAllAbsent(s1, '\'', "&#x27;");
      ReplaceAllAbsent(s1, '/', "&#x2F;");
    } else {
      ReplaceAllSingle(c, '"', "&quot;");
      var s2 := ReplaceAll(s1, '"', "&quot;");
      if c == '"' {
        assert '\'' !in s2 && '/' !in s2;
        ReplaceAllAbsent(s2, '\'', "&#x27;");
        ReplaceAllAbsent(s2, '/', "&#x2F;");
      } else {
        ReplaceAllSingle(c, '\'', "&#x27;");
        var s3 := ReplaceAll(s2, '\'', "&#x27;");
        if c == '\'' {
          assert '/' !in s3;
          ReplaceAllAbsent(s3, '/', "&#x2F;");
        } else {
          ReplaceAllSingle(c, '/', "&#x2F;");
        }
      }
    }
  }

  /** The sequence of four global replacements escapes each character independently. */
  lemma {:induction false} EscapeMarkupIsEscapeEach(s: string)
    ensures EscapeMarkup(s) == EscapeEach(s)
  {
    if s != [] {
      assert s == [s[0]] + s[1..];
      EscapeMarkupConcat([s[0]], s[1..]);
      EscapeMarkupChar(s[0]);
      EscapeMarkupIsEscapeEach(s[1..]);
    }
  }

  lemma HasPrefixShift(e: string, s: string, j: nat, p: string)
    requires HasPrefixAt(s, j, p)
    ensures HasPrefixAt(e + s, |e| + j, p)
  {
    assert (e + s)[|e| + j..|e| + j + |p|] == s[j..j + |p|];
  }

  lemma EntityShift(e: string, s: string, j: nat)
    requires EntityAt(s, j)
    ensures EntityAt(e + s, |e| + j)
  {
    if HasPrefixAt(s, j, "&amp;") { HasPrefixShift(e, s, j, "&amp;"); }
    else if HasPrefixAt(s, j, "&quot;") { HasPrefixShift(e, s, j, "&quot;"); }
    else if HasPrefixAt(s, j, "&#x27;") { HasPrefixShift(e, s, j, "&#x27;"); }
    else { HasPrefixShift(e, s, j, "&#x2F;"); }
  }

  /** An ampersand within an escaped character is the start of its entity. */
  lemma EscapeCharEntity(c: char, rest: string, i: nat)
    requires i < |EscapeChar(c)| && (EscapeChar(c) + rest)[i] == '&'
    ensures EntityAt(EscapeChar(c) + rest, i)
  {
    var e := EscapeChar(c);
    var x := e + rest;
    assert x[..|e|] == e;
    assert i == 0;
  }

  lemma {:induction false} EscapeEachEntities(s: string)
    ensures AmpersandsAreEntities(EscapeEach(s))
  {
    if s != [] {
      var e := EscapeChar(s[0]);
      var rest := EscapeEach(s[1..]);
      EscapeEachEntities(s[1..]);
      var x := e + rest;
      assert x == EscapeEach(s);
      forall i | 0 <= i < |x| && x[i] == '&'
        ensures EntityAt(x, i)
      {
        if i < |e| {
          EscapeCharEntity(s[0], rest, i);
        } else {
          assert rest[i - |e|] == '&';
          EntityShift(e, rest, i - |e|);
        }
      }
    }
  }

  /** Decoding an entity at the front gives back its character. */
  lemma UnescapeEntity(e: string, c: char, rest: string)
    requires (e, c) in {("&amp;", '&'), ("&quot;", '"'), ("&#x27;", '\''), ("&#x2F;", '/')}
    ensures Unescape(e + rest) == [c] + Unescape(rest)
  {
    var x := e + rest;
    assert x[..|e|] == e && x[|e|..] == rest;
    assert HasPrefixAt(x, 0, e);
    if e != "&amp;" {
      assert x[1] != 'a';
      if e != "&quot;" {
        assert x[1] == '#';
        if e != "&#x27;" {
          assert x[4] == 'F';
        }
      }
    }
  }

  /** A character that starts no entity decodes to itself. */
  lemma UnescapePlain(c: char, rest: string)
    requires c != '&'
    ensures Unescape([c] + rest) == [c] + Unescape(rest)
  {
    var x := [c] + rest;
    assert x[0] == c && x[1..] == rest;
  }

  lemma UnescapeEscapedChar(c: char, rest: string)
    ensures Unescape(EscapeChar(c) + rest) == [c] + Unescape(rest)
  {
    if c == '&' {
      UnescapeEntity("&amp;", c, rest);
    } else if c == '"' {
      UnescapeEntity("&quot;", c, rest);
    } else if c == '\'' {
      UnescapeEntity("&#x27;", c, rest);
    } else if c == '/' {
      UnescapeEntity("&#x2F;", c, rest);
    } else {
      UnescapePlain(c, rest);
    }
  }

  lemma {:induction false} UnescapeEscapeEach(s: string)
    ensures Unescape(EscapeEach(s)) == s
  {
    if s != [] {
      UnescapeEscapedChar(s[0], EscapeEach(s[1..]));
      UnescapeEscapeEach(s[1..]);
      assert s == [s[0]] + s[1..];
    }
  }

  /** A character the four passes neither find nor introduce stays absent. */
  lemma EscapeMarkupKeepsAbsent(s: string, x: char)
    requires x !in s && x != '"' && x != '\'' && x != '/'
    requires x !in "&amp;" && x !in "&quot;" && x !in "&#x27;" && x !in "&#x2F;"
    ensures x !in EscapeMarkup(s)
  {
    var s1 := ReplaceAll(s, '&', "&amp;");
    var s2 := ReplaceAll(s1, '"', "&quot;");
    var s3 := ReplaceAll(s2, '\'', "&#x27;");
    ReplaceAllKeepsAbsent(s, '&', "&amp;", x);
    ReplaceAllKeepsAbsent(s1, '"', "&quot;", x);
    ReplaceAllKeepsAbsent(s2, '\'', "&#x27;", x);
    ReplaceAllKeepsAbsent(s3, '/', "&#x2F;", x);
  }

  /** Every `&` left in sanitised text begins one of the four entities. */
  lemma SanitizedAmpersandsAreEntities(input: string)
    ensures AmpersandsAreEntities(SanitizeInput(input))
  {
    EscapeMarkupIsEscapeEach(StripAngles(Trim(input)));
    EscapeEachEntities(StripAngles(Trim(input)));
  }

  /** Decoding sanitised text gives back the trimmed input without angle brackets:
      escaping loses nothing but the brackets and the surrounding whitespace. */
  lemma UnescapeSanitized(input: string)
    ensures Unescape(SanitizeInput(input)) == StripAngles(Trim(input))
  {
    EscapeMarkupIsEscapeEach(StripAngles(Trim(input)));
    UnescapeEscapeEach(StripAngles(Trim(input)));
  }

  // ---------------------------------------------------------------------------
  // Case-insensitive comparison.

  /** `toLowerCase`, restricted to ASCII letters. */
  function LowerChar(c: char): char {
    if 'A' <= c <= 'Z' then (c as int + 32) as char else c
  }

  /** `a.toLowerCase() === b.toLowerCase()`. */
  predicate SameUpToCase(a: string, b: string) {
    ToLower(a) == ToLower(b)
  }

  function ToLower(s: string): (r: string)
    ensures |r| == |s|
    ensures forall i | 0 <= i < |s| :: r[i] == LowerChar(s[i])
  {
    if s == [] then [] else [LowerChar(s[0])] + ToLower(s[1..])
  }

  /** Lower-casing leaves no upper-case ASCII letter and lower-casing again changes nothing. */
  lemma ToLowerIdempotent(s: string)
    ensures forall i | 0 <= i < |ToLower(s)| :: !('A' <= ToLower(s)[i] <= 'Z')
    ensures ToLower(ToLower(s)) == ToLower(s)
  {
  }
}
