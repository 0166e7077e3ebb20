/** HTML escaping of user text before it is stored: `&`, `<`, `>`, `"`, `'` and `/` become entities. */
module Sanitize {

  /** The characters the script escapes. */
  predicate Special(c: char) {
    c == '&' || c == '<' || c == '>' || c == '"' || c == '\'' || c == '/'
  }

  /** The characters that must not reach the page unescaped (every special character but `&`). */
  predicate Markup(c: char) {
    c == '<' || c == '>' || c == '"' || c == '\'' || c == '/'
  }

  /** Every occurrence of `c` in `s` replaced by `rep`, as a global one-character regular expression
      replace does. */
  function ReplaceAll(s: string, c: char, rep: string): (r: string)
    ensures c !in s ==> r == s
  {
    if s == [] then []
    else (if s[0] == c then rep else [s[0]]) + ReplaceAll(s[1..], c, rep)
  }

  /** A replace keeps the characters of `s` other than `c` and brings in those of `rep`, and only those. */
  lemma {:induction false} ReplaceAllChars(s: string, c: char, rep: string)
    ensures forall x :: x in ReplaceAll(s, c, rep) ==> (x in s && x != c) || x in rep
    decreases |s|
  {
    if s != [] {
      ReplaceAllChars(s[1..], c, rep);
      var head := if s[0] == c then rep else [s[0]];
      assert ReplaceAll(s, c, rep) == head + ReplaceAll(s[1..], c, rep);
      forall x | x in ReplaceAll(s, c, rep)
        ensures (x in s && x != c) || x in rep
      {
        if x !in head {
          assert x in ReplaceAll(s[1..], c, rep);
        }
      }
    }
  }

  /** A replace by a non-empty text never shortens the text. */
  lemma {:induction false} ReplaceAllLength(s: string, c: char, rep: string)
    requires |rep| >= 1
    ensures |ReplaceAll(s, c, rep)| >= |s|
    decreases |s|
  {
    if s != [] {
      ReplaceAllLength(s[1..], c, rep);
    }
  }

  /** The script's chain of six replaces, `&` first so that later entities are not escaped again. */
  function SanitizeText(s: string): (r: string)
    ensures (forall i :: 0 <= i < |s| ==> !Special(s[i])) ==> r == s
    ensures |r| >= |s|
  {
    var s1 := ReplaceAll(s, '&', "&amp;");
    var s2 := ReplaceAll(s1, '<', "&lt;");
    var s3 := ReplaceAll(s2, '>', "&gt;");
    var s4 := ReplaceAll(s3, '"', "&quot;");
    var s5 := ReplaceAll(s4, '\'', "&#x27;");
    ReplaceAllLength(s, '&', "&amp;");
    ReplaceAllLength(s1, '<', "&lt;");
    ReplaceAllLength(s2, '>', "&gt;");
    ReplaceAllLength(s3, '"', "&quot;");
    ReplaceAllLength(s4, '\'', "&#x27;");
    ReplaceAllLength(s5, '/', "&#x2F;");
    ReplaceAll(s5, '/', "&#x2F;")
  }

  /** The entity for one character, or the character itself. */
  function EscapeChar(c: char): (r: string)
    ensures Special(c) ==> |r| > 1 && r[0] == '&'
    ensures !Special(c) ==> r == [c]
  {
    if c == '&' then "&amp;"
    else if c == '<' then "&lt;"
    else if c == '>' then "&gt;"
    else if c == '"' then "&quot;"
    else if c == '\'' then "&#x27;"
    else if c == '/' then "&#x2F;"
    else [c]
  }

  /** Character-by-character escaping: the reference the replace chain is proved equal to. */
  function Escape(s: string): string {
    if s == [] then [] else EscapeChar(s[0]) + Escape(s[1..])
  }

  /** The value `sanitizeInput` receives: a string, or anything else, which it returns unchanged. */
  datatype Input<T> = Str(s: string) | NonString(value: T)

  function SanitizeInput<T>(input: Input<T>): (r: Input<T>)
    ensures input.NonString? ==> r == input
    ensures input.Str? ==> r == Str(Escape(input.s))
  {
    match input
    case NonString(_) => input
    case Str(s) => SanitizeIsEscape(s); Str(SanitizeText(s))
  }

  // ---------------------------------------------------------------------------
  // The replace chain is character-by-character escaping

  lemma {:induction false} ReplaceAllAppend(a: string, b: string, c: char, rep: string)
    ensures ReplaceAll(a + b, c, rep) == ReplaceAll(a, c, rep) + ReplaceAll(b, c, rep)
    decreases |a|
  {
    if a == [] {
      assert a + b == b;
    } else {
      assert (a + b)[0] == a[0] && (a + b)[1..] == a[1..] + b;
      ReplaceAllAppend(a[1..], b, c, rep);
    }
  }

  lemma SanitizeAppend(a: string, b: string)
    ensures SanitizeText(a + b) == SanitizeText(a) + SanitizeText(b)
  {
    var a1, b1 := ReplaceAll(a, '&', "&amp;"), ReplaceAll(b, '&', "&amp;");
    ReplaceAllAppend(a, b, '&', "&amp;");
    var a2, b2 := ReplaceAll(a1, '<', "&lt;"), ReplaceAll(b1, '<', "&lt;");
    ReplaceAllAppend(a1, b1, '<', "&lt;");
    var a3, b3 := ReplaceAll(a2, '>', "&gt;"), ReplaceAll(b2, '>', "&gt;");
    ReplaceAllAppend(a2, b2, '>', "&gt;");
    var a4, b4 := ReplaceAll(a3, '"', "&quot;"), ReplaceAll(b3, '"', "&quot;");
    ReplaceAllAppend(a3, b3, '"', "&quot;");
    var a5, b5 := ReplaceAll(a4, '\'', "&#x27;"), ReplaceAll(b4, '\'', "&#x27;");
    ReplaceAllAppend(a4, b4, '\'', "&#x27;");
    ReplaceAllAppend(a5, b5, '/', "&#x2F;");
  }

  lemma ReplaceOne(c: char, d: char, rep: string)
    ensures ReplaceAll([c], d, rep) == if c == d then rep else [c]
  {
  }

  /** The last three replaces on one character. */
  lemma SanitizeCharLate(c: char, t: string)
    requires t == [c] && c != '&' && c != '<' && c != '>'
    ensures ReplaceAll(ReplaceAll(ReplaceAll(t, '"', "&quot;"), '\'', "&#x27;"), '/', "&#x2F;") == EscapeChar(c)
  {
    ReplaceOne(c, '"', "&quot;");
    if c == '"' {
      assert '\'' !in "&quot;" && '/' !in "&quot;";
      return;
    }
    ReplaceOne(c, '\'', "&#x27;");
    if c == '\'' {
      assert '/' !in "&#x27;";
      return;
    }
    ReplaceOne(c, '/', "&#x2F;");
  }

  /** One character: the replace that matches it inserts its entity, and no later replace matches
      a character of that entity. */
  lemma SanitizeChar(c: char)
    ensures SanitizeText([c]) == EscapeChar(c)
  {
    ReplaceOne(c, '&', "&amp;");
    if c == '&' {
      assert '<' !in "&amp;" && '>' !in "&amp;" && '"' !in "&amp;" && '\'' !in "&amp;" && '/' !in "&amp;";
      return;
    }
    ReplaceOne(c, '<', "&lt;");
    if c == '<' {
      assert '>' !in "&lt;" && '"' !in "&lt;" && '\'' !in "&lt;" && '/' !in "&lt;";
      return;
    }
    ReplaceOne(c, '>', "&gt;");
    if c == '>' {
      assert '"' !in "&gt;" && '\'' !in "&gt;" && '/' !in "&gt;";
      return;
    }
    SanitizeCharLate(c, ReplaceAll(ReplaceAll(ReplaceAll([c], '&', "&amp;"), '<', "&lt;"), '>', "&gt;"));
  }

  lemma {:induction false} SanitizeIsEscape(s: string)
    ensures SanitizeText(s) == Escape(s)
    decreases |s|
  {
    if s == [] {
      assert SanitizeText(s) == [];
    } else {
      assert s == [s[0]] + s[1..];
      SanitizeAppend([s[0]], s[1..]);
      SanitizeChar(s[0]);
      SanitizeIsEscape(s[1..]);
    }
  }

  // ---------------------------------------------------------------------------
  // What the escaped text contains

  lemma {:induction false} EscapeAppend(a: string, b: string)
    ensures Escape(a + b) == Escape(a) + Escape(b)
    decreases |a|
  {
    if a == [] {
      assert a + b == b;
    } else {
      assert (a + b)[0] == a[0] && (a + b)[1..] == a[1..] + b;
      EscapeAppend(a[1..], b);
    }
  }

  /** No markup character survives escaping. */
  lemma {:induction false} NoMarkup(s: string)
    ensures forall i :: 0 <= i < |Escape(s)| ==> !Markup(Escape(s)[i])
    decreases |s|
  {
    if s != [] {
      NoMarkup(s[1..]);
      var e, rest := EscapeChar(s[0]), Escape(s[1..]);
      assert forall i :: 0 <= i < |e| ==> !Markup(e[i]);
      assert Escape(s) == e + rest;
      forall i | 0 <= i < |e + rest| ensures !Markup((e + rest)[i]) {
        if i >= |e| { assert (e + rest)[i] == rest[i - |e|]; }
      }
    }
  }

  /** The six entities the script inserts. */
  const Entities: seq<string> := ["&amp;", "&lt;", "&gt;", "&quot;", "&#x27;", "&#x2F;"]

  /** Position `i` of `t` starts one of the six entities. */
  predicate EntityAt(t: string, i: nat)
    requires i < |t|
  {
    exists k :: 0 <= k < |Entities| && Entities[k] <= t[i..]
  }

  /** Every `&` of `t` starts an entity. */
  predicate AmpersandsAreEntities(t: string) {
    forall i :: 0 <= i < |t| && t[i] == '&' ==> EntityAt(t, i)
  }

  lemma EscapeCharEntities(c: char)
    ensures AmpersandsAreEntities(EscapeChar(c))
  {
    var e := EscapeChar(c);
    forall i | 0 <= i < |e| && e[i] == '&' ensures EntityAt(e, i) {
      assert i == 0;
      if c == '&' { assert Entities[0] <= e[0..]; }
      else if c == '<' { assert Entities[1] <= e[0..]; }
      else if c == '>' { assert Entities[2] <= e[0..]; }
      else if c == '"' { assert Entities[3] <= e[0..]; }
      else if c == '\'' { assert Entities[4] <= e[0..]; }
      else { assert Entities[5] <= e[0..]; }
    }
  }

  /** A text whose every `&` starts an entity keeps that property with more text after it or before it. */
  lemma EntitiesAppend(a: string, b: string)
    requires AmpersandsAreEntities(a) && AmpersandsAreEntities(b)
    ensures AmpersandsAreEntities(a + b)
  {
  }

  /** Every `&` in escaped text begins one of the six entities. */
  lemma {:induction false} EscapedAmpersands(s: string)
    ensures AmpersandsAreEntities(Escape(s))
    decreases |s|
  {
    if s != [] {
      EscapedAmpersands(s[1..]);
      EscapeCharEntities(s[0]);
      EntitiesAppend(EscapeChar(s[0]), Escape(s[1..]));
    }
  }

  /** Escaping leaves a text unchanged exactly when it holds no special character. */
  lemma {:induction false} EscapeUnchanged(s: string)
    ensures Escape(s) == s <==> forall i :: 0 <= i < |s| ==> !Special(s[i])
    ensures |Escape(s)| >= |s|
    decreases |s|
  {
    if s != [] {
      EscapeUnchanged(s[1..]);
      var e, rest := EscapeChar(s[0]), Escape(s[1..]);
      assert Escape(s) == e + rest;
      if Special(s[0]) {
        assert |Escape(s)| > |s|;
      } else {
        assert e == [s[0]];
        if forall i :: 0 <= i < |s| ==> !Special(s[i]) {
          assert forall i :: 0 <= i < |s[1..]| ==> !Special(s[1..][i]) by {
            forall i | 0 <= i < |s[1..]| ensures !Special(s[1..][i]) { assert s[1..][i] == s[i + 1]; }
          }
          assert s == [s[0]] + s[1..];
        } else {
          var i :| 0 <= i < |s| && Special(s[i]);
          assert s[1..][i - 1] == s[i];
          assert rest != s[1..];
          assert Escape(s)[1..] == rest;
        }
      }
    }
  }

  // ---------------------------------------------------------------------------
  // Unescaping reverses escaping

  /** Replaces each of the six entities by its character, left to right. */
  function Unescape(t: string): string
    decreases |t|
  {
    if t == [] then []
    else if "&amp;" <= t then "&" + Unescape(t[5..])
    else if "&lt;" <= t then "<" + Unescape(t[4..])
    else if "&gt;" <= t then ">" + Unescape(t[4..])
    else if "&quot;" <= t then "\"" + Unescape(t[6..])
    else if "&#x27;" <= t then "'" + Unescape(t[6..])
    else if "&#x2F;" <= t then "/" + Unescape(t[6..])
    else [t[0]] + Unescape(t[1..])
  }

  /** A text that does not start with `&` starts no entity. */
  lemma NoEntityAt(t: string)
    requires t != [] && t[0] != '&'
    ensures !("&amp;" <= t) && !("&lt;" <= t) && !("&gt;" <= t)
    ensures !("&quot;" <= t) && !("&#x27;" <= t) && !("&#x2F;" <= t)
  {
  }

  lemma UnescapeStep(c: char, rest: string)
    ensures Unescape(EscapeChar(c) + rest) == [c] + Unescape(rest)
  {
    var e := EscapeChar(c);
    var t := e + rest;
    assert t[..|e|] == e && t[|e|..] == rest;
    if !Special(c) {
      assert t[0] == c && t[1..] == rest;
      NoEntityAt(t);
    } else if c == '<' || c == '>' {
      assert t[1] == e[1] && !("&amp;" <= t);
      if c == '>' { assert t[1] == 'g' && !("&lt;" <= t); }
    } else if c == '"' {
      assert t[1] == 'q';
      assert !("&amp;" <= t) && !("&lt;" <= t) && !("&gt;" <= t);
    } else if c == '\'' || c == '/' {
      assert t[1] == '#';
      assert !("&amp;" <= t) && !("&lt;" <= t) && !("&gt;" <= t) && !("&quot;" <= t);
      if c == '/' { assert t[4] == 'F' && !("&#x27;" <= t); }
    }
  }

  /** Escaped text reads back as the original text. */
  lemma {:induction false} UnescapeEscape(s: string)
    ensures Unescape(Escape(s)) == s
    decreases |s|
  {
    if s != [] {
      UnescapeStep(s[0], Escape(s[1..]));
      UnescapeEscape(s[1..]);
      assert s == [s[0]] + s[1..];
    }
  }

  /** Different texts never sanitize to the same text. */
  lemma SanitizeInjective(s: string, t: string)
    requires SanitizeText(s) == SanitizeText(t)
    ensures s == t
  {
    SanitizeIsEscape(s);
    SanitizeIsEscape(t);
    UnescapeEscape(s);
    UnescapeEscape(t);
  }

  lemma ExampleScript()
    ensures Escape("<b>") == "&lt;b&gt;"
  {
  }
}
