/** The HTML escaper of src/utils/escapeSpecialCharacters.ts: five global
    replacements applied one after the other, `&` first. */
module Escaping {

  /** The five characters the escaper rewrites. */
  predicate IsSpecial(c: char) {
    c == '&' || c == '<' || c == '>' || c == '"' || c == '\''
  }

  /** The four characters that must never appear raw in escaped text. */
  predicate IsMarkup(c: char) {
    c == '<' || c == '>' || c == '"' || c == '\''
  }

  predicate HasSpecial(s: string) {
    exists i :: 0 <= i < |s| && IsSpecial(s[i])
  }

  /** Number of occurrences of `c` in `s`. */
  function Count(s: string, c: char): nat {
    if s == [] then 0 else (if s[0] == c then 1 else 0) + Count(s[1..], c)
  }

  /** `s.replace(/c/g, rep)`: every occurrence of `c`, left to right, replaced by `rep`. */
  function ReplaceAll(s: string, c: char, rep: string): (r: string)
    ensures c !in s ==> r == s
    ensures c !in rep ==> c !in r
  {
    if s == [] then [] else (if s[0] == c then rep else [s[0]]) + ReplaceAll(s[1..], c, rep)
  }

  lemma {:induction false} ReplaceAllConcat(a: string, b: string, c: char, rep: string)
    ensures ReplaceAll(a + b, c, rep) == ReplaceAll(a, c, rep) + ReplaceAll(b, c, rep)
  {
    if a == [] {
      assert a + b == b;
    } else {
      assert (a + b)[1..] == a[1..] + b;
      ReplaceAllConcat(a[1..], b, c, rep);
    }
  }

  /** A replacement introduces no character that neither the text nor the
      replacement holds. */
  lemma {:induction false} ReplaceAllIntroducesNothing(s: string, c: char, rep: string, x: char)
    requires x !in s && x !in rep
    ensures x !in ReplaceAll(s, c, rep)
  {
    if s != [] {
      ReplaceAllIntroducesNothing(s[1..], c, rep, x);
    }
  }

  lemma ReplaceAllSingle(ch: char, c: char, rep: string)
    ensures ReplaceAll([ch], c, rep) == if ch == c then rep else [ch]
  {
    assert [ch][1..] == [];
  }

  /** escapeSpecialCharacters(text), lines 3-7 in that order. Its meaning as
      one left-to-right pass is `EscapeIsSinglePass` below. */
  function EscapeSpecialCharacters(text: string): (r: string)
    ensures '<' !in r && '>' !in r && '"' !in r && '\'' !in r
    ensures !HasSpecial(text) ==> r == text
  {
    var t1 := ReplaceAll(text, '&', "&amp;");
    var t2 := ReplaceAll(t1, '<', "&lt;");
    var t3 := ReplaceAll(t2, '>', "&gt;");
    var t4 := ReplaceAll(t3, '"', "&quot;");
    var t5 := ReplaceAll(t4, '\'', "&#39;");
    EntityLetters();
    ReplaceAllIntroducesNothing(t2, '>', "&gt;", '<');
    ReplaceAllIntroducesNothing(t3, '"', "&quot;", '<');
    ReplaceAllIntroducesNothing(t3, '"', "&quot;", '>');
    ReplaceAllIntroducesNothing(t4, '\'', "&#39;", '<');
    ReplaceAllIntroducesNothing(t4, '\'', "&#39;", '>');
    ReplaceAllIntroducesNothing(t4, '\'', "&#39;", '"');
    assert !HasSpecial(text) ==> t5 == text by {
      if !HasSpecial(text) {
        assert '&' !in text && '<' !in text && '>' !in text && '"' !in text && '\'' !in text by {
          forall i | 0 <= i < |text| ensures !IsSpecial(text[i]) { }
        }
      }
    }
    t5
  }

  /** Which of the five characters occur in the entities. */
  lemma EntityLetters()
    ensures '<' !in "&lt;" && '<' !in "&gt;" && '<' !in "&quot;" && '<' !in "&#39;"
    ensures '>' !in "&gt;" && '>' !in "&quot;" && '>' !in "&#39;"
    ensures '"' !in "&quot;" && '"' !in "&#39;"
    ensures '\'' !in "&#39;"
  {
  }

  /** Reference definition: the entity one character becomes. */
  function EscapeChar(c: char): (r: string)
    ensures IsSpecial(c) <==> r != [c]
  {
    if c == '&' then "&amp;"
    else if c == '<' then "&lt;"
    else if c == '>' then "&gt;"
    else if c == '"' then "&quot;"
    else if c == '\'' then "&#39;"
    else [c]
  }

  /** Reference definition: a single left-to-right pass, character by character. */
  function EscapeEach(s: string): string {
    if s == [] then [] else EscapeChar(s[0]) + EscapeEach(s[1..])
  }

  lemma EscapeConcat(a: string, b: string)
    ensures EscapeSpecialCharacters(a + b) == EscapeSpecialCharacters(a) + EscapeSpecialCharacters(b)
  {
    var a1, b1 := ReplaceAll(a, '&', "&amp;"), ReplaceAll(b, '&', "&amp;");
    ReplaceAllConcat(a, b, '&', "&amp;");
    var a2, b2 := ReplaceAll(a1, '<', "&lt;"), ReplaceAll(b1, '<', "&lt;");
    ReplaceAllConcat(a1, b1, '<', "&lt;");
    var a3, b3 := ReplaceAll(a2, '>', "&gt;"), ReplaceAll(b2, '>', "&gt;");
    ReplaceAllConcat(a2, b2, '>', "&gt;");
    var a4, b4 := ReplaceAll(a3, '"', "&quot;"), ReplaceAll(b3, '"', "&quot;");
    ReplaceAllConcat(a3, b3, '"', "&quot;");
    ReplaceAllConcat(a4, b4, '\'', "&#39;");
  }

  lemma EscapeSingle(c: char)
    ensures EscapeSpecialCharacters([c]) == EscapeChar(c)
  {
    ReplaceAllSingle(c, '&', "&amp;");
    var t1 := ReplaceAll([c], '&', "&amp;");
    if c == '&' {
      assert t1 == "&amp;";
      assert '<' !in t1 && '>' !in t1 && '"' !in t1 && '\'' !in t1;
      var t2 := ReplaceAll(t1, '<', "&lt;");
      var t3 := ReplaceAll(t2, '>', "&gt;");
      var t4 := ReplaceAll(t3, '"', "&quot;");
      assert t2 == t1 && t3 == t1 && t4 == t1;
    } else {
      assert t1 == [c];
      ReplaceAllSingle(c, '<', "&lt;");
      var t2 := ReplaceAll(t1, '<', "&lt;");
      if c == '<' {
        assert t2 == "&lt;" && '>' !in t2 && '"' !in t2 && '\'' !in t2;
        var t3 := ReplaceAll(t2, '>', "&gt;");
        var t4 := ReplaceAll(t3, '"', "&quot;");
        assert t3 == t2 && t4 == t2;
      } else {
        assert t2 == [c];
        ReplaceAllSingle(c, '>', "&gt;");
        var t3 := ReplaceAll(t2, '>', "&gt;");
        if c == '>' {
          assert t3 == "&gt;" && '"' !in t3 && '\'' !in t3;
          var t4 := ReplaceAll(t3, '"', "&quot;");
          assert t4 == t3;
        } else {
          assert t3 == [c];
          ReplaceAllSingle(c, '"', "&quot;");
          var t4 := ReplaceAll(t3, '"', "&quot;");
          if c == '"' {
            assert t4 == "&quot;" && '\'' !in t4;
          } else {
            assert t4 == [c];
            ReplaceAllSingle(c, '\'', "&#39;");
          }
        }
      }
    }
  }

  /** Applying the five replacements in sequence is the same as escaping each
      character once: because `&` goes first, the `&` that later passes
      introduce is never re-encoded (`<` becomes `&lt;`, not `&amp;lt;`). */
  lemma {:induction false} EscapeIsSinglePass(s: string)
    ensures EscapeSpecialCharacters(s) == EscapeEach(s)
  {
    if s == [] {
    } else {
      assert s == [s[0]] + s[1..];
      EscapeConcat([s[0]], s[1..]);
      EscapeSingle(s[0]);
      EscapeIsSinglePass(s[1..]);
    }
  }

  /** The output contains none of `<`, `>`, `"`, `'`. */
  lemma EscapeHasNoMarkup(s: string)
    ensures forall i :: 0 <= i < |EscapeSpecialCharacters(s)| ==> !IsMarkup(EscapeSpecialCharacters(s)[i])
  {
    EscapeIsSinglePass(s);
    EachHasNoMarkup(s);
  }

  lemma {:induction false} EachHasNoMarkup(s: string)
    ensures forall i :: 0 <= i < |EscapeEach(s)| ==> !IsMarkup(EscapeEach(s)[i])
  {
    if s != [] {
      EachHasNoMarkup(s[1..]);
      var e, t := EscapeChar(s[0]), EscapeEach(s[1..]);
      forall i | 0 <= i < |e + t| ensures !IsMarkup((e + t)[i]) {
        if i >= |e| {
          assert (e + t)[i] == t[i - |e|];
        }
      }
    }
  }

  /** `u` starts with one of the five entities the escaper produces. */
  predicate StartsWithEntity(u: string) {
    "&amp;" <= u || "&lt;" <= u || "&gt;" <= u || "&quot;" <= u || "&#39;" <= u
  }

  /** Every `&` of the output is the first character of an entity. */
  lemma EscapeAmpersandsStartEntities(s: string)
    ensures forall i :: 0 <= i < |EscapeSpecialCharacters(s)| && EscapeSpecialCharacters(s)[i] == '&' ==>
      StartsWithEntity(EscapeSpecialCharacters(s)[i..])
  {
    EscapeIsSinglePass(s);
    EachAmpersandsStartEntities(s);
  }

  lemma {:induction false} EachAmpersandsStartEntities(s: string)
    ensures forall i :: 0 <= i < |EscapeEach(s)| && EscapeEach(s)[i] == '&' ==> StartsWithEntity(EscapeEach(s)[i..])
  {
    if s != [] {
      EachAmpersandsStartEntities(s[1..]);
      var e, t := EscapeChar(s[0]), EscapeEach(s[1..]);
      forall i | 0 <= i < |e + t| && (e + t)[i] == '&' ensures StartsWithEntity((e + t)[i..]) {
        if i < |e| {
          assert i == 0;
          assert e <= (e + t)[i..];
        } else {
          assert (e + t)[i..] == t[i - |e|..];
        }
      }
    }
  }

  /** Text without any of the five characters passes through unchanged, and
      only such text does: escaping changes every string that has one. */
  lemma EscapeFixedPoints(s: string)
    ensures EscapeSpecialCharacters(s) == s <==> !HasSpecial(s)
  {
    EscapeLength(s);
    if HasSpecial(s) {
      var i :| 0 <= i < |s| && IsSpecial(s[i]);
      CountPositive(s, i);
    } else {
      EscapeIsSinglePass(s);
      EachIdentity(s);
    }
  }

  lemma {:induction false} EachIdentity(s: string)
    requires !HasSpecial(s)
    ensures EscapeEach(s) == s
  {
    if s != [] {
      assert !IsSpecial(s[0]);
      assert !HasSpecial(s[1..]) by {
        forall i | 0 <= i < |s[1..]| ensures !IsSpecial(s[1..][i]) {
          assert s[1..][i] == s[i + 1];
        }
      }
      EachIdentity(s[1..]);
    }
  }

  /** `Count` is positive at least for the character found at index `i`,
      and some special character is counted when `s[i]` is special. */
  lemma {:induction false} CountPositive(s: string, i: nat)
    requires i < |s|
    ensures Count(s, s[i]) >= 1
  {
    if i > 0 {
      assert s[1..][i - 1] == s[i];
      CountPositive(s[1..], i - 1);
    }
  }

  /** Output length = input length + 4 per `&`, 3 per `<` or `>`, 5 per `"`, 4 per `'`. */
  lemma EscapeLength(s: string)
    ensures |EscapeSpecialCharacters(s)| ==
      |s| + 4 * Count(s, '&') + 3 * Count(s, '<') + 3 * Count(s, '>') + 5 * Count(s, '"') + 4 * Count(s, '\'')
  {
    EscapeIsSinglePass(s);
    EachLength(s);
  }

  lemma {:induction false} EachLength(s: string)
    ensures |EscapeEach(s)| ==
      |s| + 4 * Count(s, '&') + 3 * Count(s, '<') + 3 * Count(s, '>') + 5 * Count(s, '"') + 4 * Count(s, '\'')
  {
    if s != [] {
      EachLength(s[1..]);
    }
  }

  /** Reference decoder: turns each of the five entities back into its character. */
  function Unescape(t: string): string
    decreases |t|
  {
    if t == [] then []
    else if "&amp;" <= t then "&" + Unescape(t[5..])
    else if "&lt;" <= t then "<" + Unescape(t[4..])
    else if "&gt;" <= t then ">" + Unescape(t[4..])
    else if "&quot;" <= t then "\"" + Unescape(t[6..])
    else if "&#39;" <= t then "'" + Unescape(t[5..])
    else [t[0]] + Unescape(t[1..])
  }

  lemma UnescapeChar(c: char, rest: string)
    ensures Unescape(EscapeChar(c) + rest) == [c] + Unescape(rest)
  {
    var t := EscapeChar(c) + rest;
    if c == '&' {
      assert EscapeChar(c) == "&amp;";
      EntityPrefix("&amp;", rest);
    } else if c == '<' {
      assert EscapeChar(c) == "&lt;";
      EntityPrefix("&lt;", rest);
      assert t[1] == 'l';
    } else if c == '>' {
      assert EscapeChar(c) == "&gt;";
      EntityPrefix("&gt;", rest);
      assert t[1] == 'g';
    } else if c == '"' {
      assert EscapeChar(c) == "&quot;";
      EntityPrefix("&quot;", rest);
      assert t[1] == 'q';
    } else if c == '\'' {
      assert EscapeChar(c) == "&#39;";
      EntityPrefix("&#39;", rest);
      assert t[1] == '#';
    } else {
      assert EscapeChar(c) == [c];
      assert t[0] == c && t[1..] == rest;
    }
  }

  /** An entity is a prefix of itself followed by anything. */
  lemma EntityPrefix(e: string, rest: string)
    ensures e <= e + rest && (e + rest)[|e|..] == rest
  {
  }

  /** Decoding the entities recovers the original text. */
  lemma EscapeRoundTrip(s: string)
    ensures Unescape(EscapeSpecialCharacters(s)) == s
  {
    EscapeIsSinglePass(s);
    EachRoundTrip(s);
  }

  lemma {:induction false} EachRoundTrip(s: string)
    ensures Unescape(EscapeEach(s)) == s
  {
    if s != [] {
      UnescapeChar(s[0], EscapeEach(s[1..]));
      EachRoundTrip(s[1..]);
    }
  }

  /** Distinct inputs give distinct outputs. */
  lemma EscapeInjective(a: string, b: string)
    requires EscapeSpecialCharacters(a) == EscapeSpecialCharacters(b)
    ensures a == b
  {
    EscapeRoundTrip(a);
    EscapeRoundTrip(b);
  }

  lemma {:induction false} EachIntroducesAmpersand(s: string)
    requires HasSpecial(s)
    ensures '&' in EscapeEach(s)
  {
    if IsSpecial(s[0]) {
      assert EscapeEach(s)[0] == '&';
    } else {
      var i :| 0 <= i < |s| && IsSpecial(s[i]);
      assert s[1..][i - 1] == s[i];
      EachIntroducesAmpersand(s[1..]);
    }
  }

  /** Escaping is not idempotent: on any input with a special character a
      second pass re-encodes the `&` of the first (`&` -> `&amp;` -> `&amp;amp;`). */
  lemma EscapeNotIdempotent(s: string)
    requires HasSpecial(s)
    ensures EscapeSpecialCharacters(EscapeSpecialCharacters(s)) != EscapeSpecialCharacters(s)
  {
    var t := EscapeSpecialCharacters(s);
    EscapeIsSinglePass(s);
    EachIntroducesAmpersand(s);
    var i :| 0 <= i < |t| && t[i] == '&';
    assert HasSpecial(t) by { assert IsSpecial(t[i]); }
    EscapeFixedPoints(t);
  }

  lemma EscapeAmpersandPrefix(rest: string)
    requires !HasSpecial(rest)
    ensures EscapeSpecialCharacters("&" + rest) == "&amp;" + rest
  {
    EscapeSingle('&');
    EscapeFixedPoints(rest);
    EscapeConcat("&", rest);
  }

  /** The double encoding spelled out: `&` followed by plain text becomes `&amp;`
      followed by it, and a second pass turns that into `&amp;amp;`. */
  lemma EscapeAmpersandTwice(rest: string)
    requires !HasSpecial(rest)
    ensures EscapeSpecialCharacters("&" + rest) == "&amp;" + rest
    ensures EscapeSpecialCharacters("&amp;" + rest) == "&amp;amp;" + rest
  {
    EscapeAmpersandPrefix(rest);
    var tail := "amp;" + rest;
    PlainPrefix(rest);
    EscapeAmpersandPrefix(tail);
    assert "&" + tail == "&amp;" + rest by { LiteralSplits(rest); }
    assert "&amp;" + tail == "&amp;amp;" + rest by { LiteralSplits(rest); }
  }

  lemma PlainPrefix(rest: string)
    requires !HasSpecial(rest)
    ensures !HasSpecial("amp;" + rest)
  {
    var tail := "amp;" + rest;
    forall i | 0 <= i < |tail| ensures !IsSpecial(tail[i]) {
      if i >= 4 { assert tail[i] == rest[i - 4]; }
    }
  }

  lemma LiteralSplits(rest: string)
    ensures "&" + ("amp;" + rest) == "&amp;" + rest
    ensures "&amp;" + ("amp;" + rest) == "&amp;amp;" + rest
  {
    assert "&" + "amp;" == "&amp;";
    assert "&amp;" + "amp;" == "&amp;amp;";
  }
}
