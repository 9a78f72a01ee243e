/** TemplateResult: the static strings of a tagged template paired with its
    interpolated values, and the serializer that turns one into HTML text. */
module Templates {
  import opened Strings
  import opened HtmlEscape
  import opened Decimal

  /** An interpolated value, classified the way stringifyValue inspects it at run time:
      a nested TemplateResult, an array, null or undefined, or a scalar that goes
      through String() and escaping. */
  datatype Value =
    | Null
    | Undefined
    | Str(text: string)
    | Int(number: int)
    | Bool(flag: bool)
    | Nested(template: Template)
    | Arr(elements: seq<Value>)

  /** The strings and values are both read-only after construction. The datatype
      constructor is the TemplateResult constructor (and the `html` tag): it stores
      both sequences as given and checks nothing. */
  datatype Template = Template(strings: seq<string>, values: seq<Value>)

  /** The shape a tagged template literal always produces: one more static string
      than values. Serialization does not depend on it. */
  predicate WellShaped(t: Template) {
    |t.strings| == |t.values| + 1
  }

  /** String(v) for the scalar kinds: a string is itself, and the text of a
      number or a boolean holds none of the characters the escape map touches. */
  function ScalarText(v: Value): (r: string)
    requires v.Str? || v.Int? || v.Bool?
    ensures v.Str? ==> r == v.text
    ensures v.Int? || v.Bool? ==> NoSpecial(r)
  {
    match v
    case Str(s) => s
    case Int(n) =>
      var s := IntToDecimal(n);
      assert forall i :: 0 <= i < |s| ==> s[i] == '-' || IsDigit(s[i]) by {
        if n < 0 {
          assert forall i :: 1 <= i < |s| ==> s[i] == s[1..][i - 1];
        }
      }
      s
    case Bool(b) => if b then "true" else "false"
  }

  /** stringifyValue. A scalar can never open a tag or an attribute value,
      whatever it holds. */
  function Stringify(v: Value): (r: string)
    ensures v.Str? || v.Int? || v.Bool? ==> NoMarkup(r)
    decreases v
  {
    match v
    case Nested(t) => Serialize(t)
    case Arr(es) => StringifyAll(es)
    case Null => ""
    case Undefined => ""
    case Str(_) => Escape(ScalarText(v))
    case Int(_) => Escape(ScalarText(v))
    case Bool(_) => Escape(ScalarText(v))
  }

  /** `elements.map(stringifyValue).join('')`. */
  function StringifyAll(es: seq<Value>): string
    decreases es
  {
    if es == [] then "" else Stringify(es[0]) + StringifyAll(es[1..])
  }

  /** What toHTML returns. */
  function Serialize(t: Template): string
    decreases t
  {
    SerializePrefix(t, |t.strings|)
  }

  /** What toHTML has accumulated after its first n iterations: each iteration i
      appends strings[i] and then, only when i < |values|, the value at i. */
  function SerializePrefix(t: Template, n: nat): string
    requires n <= |t.strings|
    decreases t, n
  {
    if n == 0 then ""
    else SerializePrefix(t, n - 1) + t.strings[n - 1] + Slot(t, n - 1)
  }

  /** The text iteration i appends after strings[i]: the value at i, when there is one. */
  function Slot(t: Template, i: nat): string
    decreases t, i
  {
    if i < |t.values| then Stringify(t.values[i]) else ""
  }

  /** toHTML: a for loop over the static strings appending to a result string. */
  method ToHtml(t: Template) returns (result: string)
    ensures result == Serialize(t)
  {
    result := "";
    for i := 0 to |t.strings|
      invariant result == SerializePrefix(t, i)
    {
      result := result + t.strings[i];
      if i < |t.values| {
        result := result + Stringify(t.values[i]);
      }
    }
  }

  // ---------------------------------------------------------------------------
  // The interleaving toHTML produces

  /** The template with its first static string and first value consumed. */
  function Rest(t: Template): (r: Template)
    requires |t.strings| > 0
    ensures |r.strings| == |t.strings| - 1
  {
    Template(t.strings[1..], if t.values == [] then [] else t.values[1..])
  }

  lemma {:induction false} SerializePrefixFront(t: Template, n: nat)
    requires 1 <= n <= |t.strings|
    ensures SerializePrefix(t, n) == t.strings[0] + Slot(t, 0) + SerializePrefix(Rest(t), n - 1)
  {
    if n > 1 {
      SerializePrefixFront(t, n - 1);
      assert Rest(t).strings[n - 2] == t.strings[n - 1];
    }
  }

  /** Serialization emits strings[0], then the first value (when there is one),
      then the serialization of what remains. */
  lemma SerializeFront(t: Template)
    requires |t.strings| > 0
    ensures Serialize(t) == t.strings[0] + Slot(t, 0) + Serialize(Rest(t))
  {
    SerializePrefixFront(t, |t.strings|);
  }

  /** An independent reading of a tagged template of the usual shape:
      strings[0], value 0, strings[1], value 1, ..., strings[n]. */
  function Interleaved(ss: seq<string>, vs: seq<Value>): string
    requires |ss| == |vs| + 1
  {
    ss[0] + if vs == [] then "" else Stringify(vs[0]) + Interleaved(ss[1..], vs[1..])
  }

  /** For a template of tagged-template shape, toHTML emits strings[0] and then,
      for each i, the stringified value i followed by strings[i + 1]. */
  lemma {:induction false} SerializeWellShaped(t: Template)
    requires WellShaped(t)
    ensures Serialize(t) == Interleaved(t.strings, t.values)
    decreases |t.strings|
  {
    SerializeFront(t);
    if t.values != [] {
      SerializeWellShaped(Rest(t));
    }
  }

  /** With no values, the output is the static strings concatenated verbatim:
      static text is never escaped. */
  lemma {:induction false} SerializeNoValues(ss: seq<string>)
    ensures Serialize(Template(ss, [])) == Join(ss)
  {
    if ss != [] {
      SerializeFront(Template(ss, []));
      SerializeNoValues(ss[1..]);
    }
  }

  lemma {:induction false} SerializePrefixSlotsAgree(t: Template, u: Template, n: nat)
    requires t.strings == u.strings && n <= |t.strings|
    requires forall i :: 0 <= i < n ==> Slot(t, i) == Slot(u, i)
    ensures SerializePrefix(t, n) == SerializePrefix(u, n)
  {
    if n > 0 {
      SerializePrefixSlotsAgree(t, u, n - 1);
    }
  }

  /** Values beyond the last static string are never emitted. */
  lemma SerializeDropsSurplus(ss: seq<string>, vs: seq<Value>)
    requires |vs| > |ss|
    ensures Serialize(Template(ss, vs)) == Serialize(Template(ss, vs[..|ss|]))
  {
    var t, u := Template(ss, vs), Template(ss, vs[..|ss|]);
    forall i | 0 <= i < |ss| ensures Slot(t, i) == Slot(u, i) {
      assert u.values[i] == vs[i];
    }
    SerializePrefixSlotsAgree(t, u, |ss|);
  }

  /** Static text concatenates: two templates without values, taken one after the
      other, render as their renderings one after the other. */
  lemma SerializeStaticsAppend(a: seq<string>, b: seq<string>)
    ensures Serialize(Template(a + b, [])) == Serialize(Template(a, [])) + Serialize(Template(b, []))
  {
    SerializeNoValues(a + b);
    SerializeNoValues(a);
    SerializeNoValues(b);
    JoinAppend(a, b);
  }

  /** A missing value is not read at all: it contributes what an explicit
      undefined would, the empty string. */
  lemma SerializeMissingIsUndefined(ss: seq<string>, vs: seq<Value>)
    requires |vs| < |ss|
    ensures Serialize(Template(ss, vs)) == Serialize(Template(ss, vs + [Undefined]))
  {
    var t, u := Template(ss, vs), Template(ss, vs + [Undefined]);
    forall i | 0 <= i < |ss| ensures Slot(t, i) == Slot(u, i) {
      if i < |vs| {
        assert u.values[i] == vs[i];
      }
    }
    SerializePrefixSlotsAgree(t, u, |ss|);
  }

  /** `html`a${v}b``: the value's text sits between the two static strings. */
  lemma SerializeOneValue(a: string, v: Value, b: string)
    ensures Serialize(Template([a, b], [v])) == a + Stringify(v) + b
  {
    SerializeWellShaped(Template([a, b], [v]));
  }

  // ---------------------------------------------------------------------------
  // How each kind of value is stringified

  /** Null and undefined values contribute nothing. */
  lemma NullishContributeNothing(a: string, b: string)
    ensures Serialize(Template([a, b], [Null])) == a + b
    ensures Serialize(Template([a, b], [Undefined])) == a + b
  {
    SerializeOneValue(a, Null, b);
    SerializeOneValue(a, Undefined, b);
  }

  /** A nested template contributes its own serialization verbatim, markup included;
      the same text passed as a string value would be escaped instead. */
  lemma NestedIsNotEscaped(a: string, inner: Template, b: string)
    ensures Serialize(Template([a, b], [Nested(inner)])) == a + Serialize(inner) + b
    ensures Serialize(Template([a, b], [Str(Serialize(inner))])) == a + Escape(Serialize(inner)) + b
  {
    SerializeOneValue(a, Nested(inner), b);
    SerializeOneValue(a, Str(Serialize(inner)), b);
  }

  /** An array contributes the in-order concatenation of its elements' texts,
      with no separator. */
  lemma {:induction false} StringifyAllIsJoin(es: seq<Value>)
    ensures StringifyAll(es) == Join(seq(|es|, i requires 0 <= i < |es| => Stringify(es[i])))
  {
    var parts := seq(|es|, i requires 0 <= i < |es| => Stringify(es[i]));
    if es != [] {
      StringifyAllIsJoin(es[1..]);
      assert parts[1..] == seq(|es[1..]|, i requires 0 <= i < |es[1..]| => Stringify(es[1..][i]));
    }
  }

  lemma {:induction false} StringifyAllAppend(a: seq<Value>, b: seq<Value>)
    ensures StringifyAll(a + b) == StringifyAll(a) + StringifyAll(b)
  {
    if a == [] {
      assert a + b == b;
    } else {
      assert (a + b)[0] == a[0];
      assert (a + b)[1..] == a[1..] + b;
      StringifyAllAppend(a[1..], b);
    }
  }

  /** Arrays flatten recursively: an array of two arrays renders like their concatenation. */
  lemma ArraysFlatten(a: seq<Value>, b: seq<Value>)
    ensures Stringify(Arr([Arr(a), Arr(b)])) == Stringify(Arr(a + b))
  {
    StringifyAllAppend(a, b);
    var pair := [Arr(a), Arr(b)];
    assert pair[0] == Arr(a) && pair[1..] == [Arr(b)];
    assert [Arr(b)][0] == Arr(b) && [Arr(b)][1..] == [];
    assert StringifyAll([Arr(b)]) == StringifyAll(b);
    assert StringifyAll(pair) == StringifyAll(a) + StringifyAll(b);
  }

  /** Numbers and booleans contain no character the escape map touches, so they
      come out as String() writes them: 42 as "42", true as "true". */
  lemma ScalarsUnescaped(v: Value)
    requires v.Int? || v.Bool?
    ensures Stringify(v) == ScalarText(v)
  {
    EscapeUnchangedIff(ScalarText(v));
  }

  /** A string value is escaped character by character, and loses nothing. */
  lemma StringsEscaped(s: string)
    ensures Stringify(Str(s)) == Join(seq(|s|, i requires 0 <= i < |s| => EntityFor(s[i])))
    ensures Unescape(Stringify(Str(s))) == s
  {
    EscapeIsJoinOfEntities(s);
    UnescapeEscape(s);
  }

  // ---------------------------------------------------------------------------
  // Escaping keeps interpolated data out of the markup

  /** Every static string, at any depth of nesting, is free of markup characters. */
  predicate StaticsMarkupFree(t: Template)
    decreases t
  {
    (forall i :: 0 <= i < |t.strings| ==> NoMarkup(t.strings[i])) &&
    (forall i :: 0 <= i < |t.values| ==> ValueStaticsMarkupFree(t.values[i]))
  }

  predicate ValueStaticsMarkupFree(v: Value)
    decreases v
  {
    match v
    case Nested(t) => StaticsMarkupFree(t)
    case Arr(es) => forall i :: 0 <= i < |es| ==> ValueStaticsMarkupFree(es[i])
    case _ => true
  }

  lemma NoMarkupAppend(a: string, b: string)
    requires NoMarkup(a) && NoMarkup(b)
    ensures NoMarkup(a + b)
  {
  }


  /** When no static string, at any depth of nesting, holds '<', '>', '"' or '\'',
      neither does the output, whatever the scalar values hold. */
  lemma {:induction false} SerializeMarkupOnlyFromStatics(t: Template)
    requires StaticsMarkupFree(t)
    ensures NoMarkup(Serialize(t))
    decreases t, 1
  {
    PrefixMarkupOnlyFromStatics(t, |t.strings|);
  }

  lemma {:induction false} PrefixMarkupOnlyFromStatics(t: Template, n: nat)
    requires StaticsMarkupFree(t) && n <= |t.strings|
    ensures NoMarkup(SerializePrefix(t, n))
    decreases t, 0, n
  {
    if n > 0 {
      PrefixMarkupOnlyFromStatics(t, n - 1);
      if n - 1 < |t.values| {
        StringifyMarkupOnlyFromStatics(t.values[n - 1]);
      }
      NoMarkupAppend(SerializePrefix(t, n - 1), t.strings[n - 1]);
      NoMarkupAppend(SerializePrefix(t, n - 1) + t.strings[n - 1], Slot(t, n - 1));
    }
  }

  lemma {:induction false} StringifyMarkupOnlyFromStatics(v: Value)
    requires ValueStaticsMarkupFree(v)
    ensures NoMarkup(Stringify(v))
    decreases v
  {
    match v
    case Nested(t) => SerializeMarkupOnlyFromStatics(t);
    case Arr(es) => StringifyAllMarkupOnlyFromStatics(es);
    case _ =>
  }

  lemma {:induction false} StringifyAllMarkupOnlyFromStatics(es: seq<Value>)
    requires forall i :: 0 <= i < |es| ==> ValueStaticsMarkupFree(es[i])
    ensures NoMarkup(StringifyAll(es))
    decreases es
  {
    if es != [] {
      StringifyMarkupOnlyFromStatics(es[0]);
      StringifyAllMarkupOnlyFromStatics(es[1..]);
      NoMarkupAppend(Stringify(es[0]), StringifyAll(es[1..]));
    }
  }

  /** `html`a${v}b``: when v holds no markup in its own static strings, the text
      between a and b in the output is free of markup, whatever a and b hold. */
  lemma ValueSlotMarkupFree(a: string, v: Value, b: string)
    requires ValueStaticsMarkupFree(v)
    ensures var out := Serialize(Template([a, b], [v]));
      |a| + |b| <= |out| && out[..|a|] == a && out[|out| - |b|..] == b
      && NoMarkup(out[|a|..|out| - |b|])
  {
    SerializeOneValue(a, v, b);
    StringifyMarkupOnlyFromStatics(v);
    var out := Serialize(Template([a, b], [v]));
    assert out[|a|..|out| - |b|] == Stringify(v);
  }
}
