/**
 * escapeHtml: the five `replaceAll` passes that make a task's title and
 * category safe to insert into the card markup.
 */
module Html {

  /** `s.replaceAll(c, rep)` for a one-character pattern `c`. */
  function ReplaceAll(s: string, c: char, rep: string): (r: string)
    ensures forall i :: 0 <= i < |r| ==> (r[i] in s && r[i] != c) || r[i] in rep
    ensures c !in s ==> r == s
  {
    if s == [] then []
    else (if s[0] == c then rep else [s[0]]) + ReplaceAll(s[1..], c, rep)
  }

  /** The five `replaceAll` passes of escapeHtml, in the source's order: `&` first, then `<`, `>`, `"` and `'`. */
  function EscapePasses(s: string): string
  {
    var s1 := ReplaceAll(s, '&', "&amp;");
    var s2 := ReplaceAll(s1, '<', "&lt;");
    var s3 := ReplaceAll(s2, '>', "&gt;");
    var s4 := ReplaceAll(s3, '"', "&quot;");
    ReplaceAll(s4, '\'', "&#039;")
  }

  predicate IsSpecial(c: char) {
    c == '&' || c == '<' || c == '>' || c == '"' || c == '\''
  }

  /** The entity each special character stands for; every other character stands for itself. */
  function EscapeChar(c: char): (r: string)
    ensures IsSpecial(c) <==> r != [c]
    ensures |r| >= 1 && r[0] == (if IsSpecial(c) then '&' else c)
  {
    match c
    case '&' => "&amp;"
    case '<' => "&lt;"
    case '>' => "&gt;"
    case '"' => "&quot;"
    case '\'' => "&#039;"
    case _ => [c]
  }

  /** The reference definition: every character replaced by its entity, independently. */
  function EscapeEach(s: string): string {
    if s == [] then [] else EscapeChar(s[0]) + EscapeEach(s[1..])
  }

  lemma {:induction false} ReplaceAllConcat(a: string, b: string, c: char, rep: string)
    ensures ReplaceAll(a + b, c, rep) == ReplaceAll(a, c, rep) + ReplaceAll(b, c, rep)
  {
    if a == [] {
      assert a + b == b;
    } else {
      var head := if a[0] == c then rep else [a[0]];
      assert (a + b)[0] == a[0];
      assert (a + b)[1..] == a[1..] + b;
      calc {
        ReplaceAll(a + b, c, rep);
        head + ReplaceAll(a[1..] + b, c, rep);
        { ReplaceAllConcat(a[1..], b, c, rep); }
        head + (ReplaceAll(a[1..], c, rep) + ReplaceAll(b, c, rep));
        (head + ReplaceAll(a[1..], c, rep)) + ReplaceAll(b, c, rep);
      }
    }
  }

  lemma {:induction false} EscapePassesConcat(a: string, b: string)
    ensures EscapePasses(a + b) == EscapePasses(a) + EscapePasses(b)
  {
    var a1, b1 := ReplaceAll(a, '&', "&amp;"), ReplaceAll(b, '&', "&amp;");
    ReplaceAllConcat(a, b, '&', "&amp;");
    var a2, b2 := ReplaceAll(a1, '<', "&lt;"), ReplaceAll(b1, '<', "&lt;");
    ReplaceAllConcat(a1, b1, '<', "&lt;");
    var a3, b3 := ReplaceAll(a2, '>', "&gt;"), ReplaceAll(b2, '>', "&gt;");
    ReplaceAllConcat(a2, b2, '>', "&gt;");
    var a4, b4 := ReplaceAll(a3, '"', "&quot;"), ReplaceAll(b3, '"', "&quot;");
    ReplaceAllConcat(a3, b3, '"', "&quot;");
    ReplaceAllConcat(a4, b4, '\'', "&#039;");
  }

  lemma ReplaceAllOne(x: char, c: char, rep: string)
    ensures ReplaceAll([x], c, rep) == if x == c then rep else [x]
  {
    assert [x][1..] == [];
  }

  /** The passes after the first leave a string alone when it holds none of their characters. */
  lemma LaterPassesKeep(e: string)
    requires '<' !in e && '>' !in e && '"' !in e && '\'' !in e
    ensures ReplaceAll(ReplaceAll(ReplaceAll(ReplaceAll(e, '<', "&lt;"), '>', "&gt;"), '"', "&quot;"), '\'', "&#039;") == e
  {
  }

  /** A character that is not special passes through all five passes. */
  lemma EscapePassesOnePlain(c: char)
    requires !IsSpecial(c)
    ensures EscapePasses([c]) == [c]
  {
    ReplaceAllOne(c, '&', "&amp;");
    ReplaceAllOne(c, '<', "&lt;");
    ReplaceAllOne(c, '>', "&gt;");
    ReplaceAllOne(c, '"', "&quot;");
    ReplaceAllOne(c, '\'', "&#039;");
  }

  /** A special character is rewritten by its own pass, and no later pass touches the entity. */
  lemma EscapePassesOneSpecial(c: char)
    requires IsSpecial(c)
    ensures EscapePasses([c]) == EscapeChar(c)
  {
    ReplaceAllOne(c, '&', "&amp;");
    if c == '&' {
      LaterPassesKeep("&amp;");
    } else {
      ReplaceAllOne(c, '<', "&lt;");
      if c == '<' {
        LaterPassesKeep("&lt;");
      } else {
        ReplaceAllOne(c, '>', "&gt;");
        if c == '>' {
          LaterPassesKeep("&gt;");
        } else {
          ReplaceAllOne(c, '"', "&quot;");
          if c == '"' {
            LaterPassesKeep("&quot;");
          } else {
            ReplaceAllOne(c, '\'', "&#039;");
          }
        }
      }
    }
  }

  lemma EscapePassesOneChar(c: char)
    ensures EscapePasses([c]) == EscapeChar(c)
  {
    if IsSpecial(c) {
      EscapePassesOneSpecial(c);
    } else {
      EscapePassesOnePlain(c);
    }
  }

  /**
   * Because `&` is replaced first and no replacement text contains a
   * character that a later pass rewrites, the five passes amount to
   * replacing each character by its entity independently.
   */
  lemma {:induction false} EscapePassesArePerCharacter(s: string)
    ensures EscapePasses(s) == EscapeEach(s)
  {
    if s != [] {
      assert s == [s[0]] + s[1..];
      EscapePassesConcat([s[0]], s[1..]);
      EscapePassesOneChar(s[0]);
      EscapePassesArePerCharacter(s[1..]);
    }
  }

  lemma {:induction false} EscapeEachHasNoMarkup(s: string)
    ensures forall i :: 0 <= i < |EscapeEach(s)| ==>
      EscapeEach(s)[i] !in {'<', '>', '"', '\''}
  {
    if s != [] {
      EscapeEachHasNoMarkup(s[1..]);
    }
  }

  lemma {:induction false} EscapeEachLength(s: string)
    ensures |EscapeEach(s)| >= |s|
    ensures |EscapeEach(s)| == |s| <==> forall i :: 0 <= i < |s| ==> !IsSpecial(s[i])
    ensures (forall i :: 0 <= i < |s| ==> !IsSpecial(s[i])) ==> EscapeEach(s) == s
  {
    if s != [] {
      EscapeEachLength(s[1..]);
      if IsSpecial(s[0]) {
        assert |EscapeChar(s[0])| >= 4;
      }
    }
  }

  /** Whether `s` begins with `p`. */
  predicate StartsWith(s: string, p: string) {
    |p| <= |s| && s[..|p|] == p
  }

  /** Decodes the five entities that escapeHtml produces; every other character stands for itself. */
  function Unescape(s: string): string
    decreases |s|
  {
    if s == [] then []
    else if StartsWith(s, "&amp;") then "&" + Unescape(s[5..])
    else if StartsWith(s, "&lt;") then "<" + Unescape(s[4..])
    else if StartsWith(s, "&gt;") then ">" + Unescape(s[4..])
    else if StartsWith(s, "&quot;") then "\"" + Unescape(s[6..])
    else if StartsWith(s, "&#039;") then "'" + Unescape(s[6..])
    else [s[0]] + Unescape(s[1..])
  }

  lemma UnescapeStep(c: char, rest: string)
    ensures Unescape(EscapeChar(c) + rest) == [c] + Unescape(rest)
  {
    var e := EscapeChar(c) + rest;
    match c
    case '&' =>
      assert e[..5] == "&amp;" && e[5..] == rest;
    case '<' =>
      assert e[..4] == "&lt;" && e[4..] == rest;
      assert !StartsWith(e, "&amp;") by { assert e[1] == 'l'; }
    case '>' =>
      assert e[..4] == "&gt;" && e[4..] == rest;
      assert !StartsWith(e, "&amp;") by { assert e[1] == 'g'; }
      assert !StartsWith(e, "&lt;") by { assert e[1] == 'g'; }
    case '"' =>
      assert e[..6] == "&quot;" && e[6..] == rest;
      assert e[1] == 'q';
      assert !StartsWith(e, "&amp;") && !StartsWith(e, "&lt;") && !StartsWith(e, "&gt;");
    case '\'' =>
      assert e[..6] == "&#039;" && e[6..] == rest;
      assert e[1] == '#';
      assert !StartsWith(e, "&amp;") && !StartsWith(e, "&lt;") && !StartsWith(e, "&gt;");
      assert !StartsWith(e, "&quot;");
    case _ =>
      assert e[0] == c && e[1..] == rest;
      assert !StartsWith(e, "&amp;") && !StartsWith(e, "&lt;") && !StartsWith(e, "&gt;");
      assert !StartsWith(e, "&quot;") && !StartsWith(e, "&#039;");
  }

  lemma {:induction false} UnescapeEscapeEach(s: string)
    ensures Unescape(EscapeEach(s)) == s
  {
    if s != [] {
      UnescapeStep(s[0], EscapeEach(s[1..]));
      UnescapeEscapeEach(s[1..]);
    }
  }

  /**
   * escapeHtml: the five passes amount to replacing each character by its
   * entity, so the result holds no `<`, `>`, `"` or `'`, equals the input
   * exactly when the input holds none of the five special characters, and
   * decoding the five entities gives back the input.
   */
  function EscapeHtml(s: string): (r: string)
    ensures r == EscapeEach(s)
    ensures forall i :: 0 <= i < |r| ==> r[i] !in {'<', '>', '"', '\''}
    ensures r == s <==> forall i :: 0 <= i < |s| ==> !IsSpecial(s[i])
    ensures Unescape(r) == s
  {
    EscapePassesArePerCharacter(s);
    EscapeEachHasNoMarkup(s);
    EscapeEachLength(s);
    UnescapeEscapeEach(s);
    EscapePasses(s)
  }
}
