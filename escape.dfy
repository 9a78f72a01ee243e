/** HTML escaping of interpolated scalar values (TemplateResult.escapeHTML).
    The source replaces every match of the character class [&<>"'] in one
    global pass; here that pass is a per-character entity mapping whose
    results are concatenated in order. */
module HtmlEscape {
  import opened Strings

  /** The five characters the escape map knows. */
  predicate IsSpecial(c: char) {
    c == '&' || c == '<' || c == '>' || c == '"' || c == '\''
  }

  /** Characters that may open or close markup or an attribute value.
      Escaping removes every one of them; '&' survives as the start of an entity. */
  predicate IsMarkup(c: char) {
    c == '<' || c == '>' || c == '"' || c == '\''
  }

  predicate NoMarkup(s: string) {
    forall i :: 0 <= i < |s| ==> !IsMarkup(s[i])
  }

  predicate NoSpecial(s: string) {
    forall i :: 0 <= i < |s| ==> !IsSpecial(s[i])
  }

  /** The replacement the escape map gives one character. */
  function EntityFor(c: char): (e: string)
    ensures IsSpecial(c) ==> |e| > 1 && e[0] == '&' && e[|e| - 1] == ';'
    ensures !IsSpecial(c) ==> e == [c]
    ensures NoMarkup(e)
  {
    match c
    case '&' => "&amp;"
    case '<' => "&lt;"
    case '>' => "&gt;"
    case '"' => "&quot;"
    case '\'' => "&#39;"
    case _ => [c]
  }

  /** A single left-to-right pass: each character is replaced by its entity once,
      and what was inserted is never looked at again. */
  function Escape(s: string): (r: string)
    ensures |r| >= |s|
    ensures NoMarkup(r)
  {
    if s == [] then [] else EntityFor(s[0]) + Escape(s[1..])
  }

  /** Escape is the per-character entity mapping, flattened in order. */
  lemma {:induction false} EscapeIsJoinOfEntities(s: string)
    ensures Escape(s) == Join(seq(|s|, i requires 0 <= i < |s| => EntityFor(s[i])))
  {
    var parts := seq(|s|, i requires 0 <= i < |s| => EntityFor(s[i]));
    if s != [] {
      EscapeIsJoinOfEntities(s[1..]);
      assert parts[1..] == seq(|s[1..]|, i requires 0 <= i < |s[1..]| => EntityFor(s[1..][i]));
    }
  }

  /** Escaping distributes over concatenation. */
  lemma {:induction false} EscapeAppend(a: string, b: string)
    ensures Escape(a + b) == Escape(a) + Escape(b)
  {
    if a == [] {
      assert a + b == b;
    } else {
      assert (a + b)[0] == a[0];
      assert (a + b)[1..] == a[1..] + b;
      EscapeAppend(a[1..], b);
    }
  }

  /** Escape leaves a string alone exactly when it holds none of the five characters. */
  lemma {:induction false} EscapeUnchangedIff(s: string)
    ensures Escape(s) == s <==> NoSpecial(s)
  {
    if s != [] {
      EscapeUnchangedIff(s[1..]);
      if IsSpecial(s[0]) {
        assert |Escape(s)| > |s|;
      } else {
        assert Escape(s) == [s[0]] + Escape(s[1..]);
        if Escape(s) == s {
          assert Escape(s[1..]) == Escape(s)[1..] == s[1..];
        }
        if NoSpecial(s[1..]) {
          assert forall i :: 1 <= i < |s| ==> s[i] == s[1..][i - 1];
        }
        if NoSpecial(s) {
          assert forall i :: 0 <= i < |s| - 1 ==> s[1..][i] == s[i + 1];
        }
      }
    }
  }

  /** The decoder of the five entities: the inverse of Escape. */
  function Unescape(s: string): (r: string)
    ensures |r| <= |s|
  {
    if s == [] then []
    else if "&amp;" <= s then "&" + Unescape(s[5..])
    else if "&lt;" <= s then "<" + Unescape(s[4..])
    else if "&gt;" <= s then ">" + Unescape(s[4..])
    else if "&quot;" <= s then "\"" + Unescape(s[6..])
    else if "&#39;" <= s then "'" + Unescape(s[5..])
    else [s[0]] + Unescape(s[1..])
  }

  /** Decoding the entity for one character yields that character and resumes
      right after the entity. The entities differ in their second character, so
      only the one that was written can match. */
  lemma UnescapeEntity(c: char, rest: string)
    ensures Unescape(EntityFor(c) + rest) == [c] + Unescape(rest)
  {
    var e := EntityFor(c);
    var s := e + rest;
    assert s[..|e|] == e && s[|e|..] == rest;
    match c
    case '&' =>
    case '<' =>
      assert s[1] == 'l';
    case '>' =>
      assert s[1] == 'g';
    case '"' =>
      assert s[1] == 'q';
    case '\'' =>
      assert s[1] == '#';
    case _ =>
      assert s[0] == c && s[1..] == rest;
  }

  /** Escaping loses nothing: decoding the entities gives the input back, so an
      inserted "&amp;" is never escaped a second time. */
  lemma {:induction false} UnescapeEscape(s: string)
    ensures Unescape(Escape(s)) == s
  {
    if s != [] {
      UnescapeEntity(s[0], Escape(s[1..]));
      UnescapeEscape(s[1..]);
    }
  }

  /** Two different strings never escape to the same output. */
  lemma EscapeInjective(a: string, b: string)
    ensures Escape(a) == Escape(b) ==> a == b
  {
    UnescapeEscape(a);
    UnescapeEscape(b);
  }
}
