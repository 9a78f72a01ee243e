/** The exact outputs the library's tests expect, derived from the model.
    Escaping of the tests' special-character string, stated on its own. */
module EscapedExamples {
  import opened HtmlEscape

  /** Every special character is replaced exactly once; the inserted "&amp;" is not re-escaped. */
  lemma SpecialCharacters()
    ensures Escape("&<>\"'test") == "&amp;&lt;&gt;&quot;&#39;test"
  {
    // Escape consumes one character per step; name each remaining suffix.
    var s := "&<>\"'test";
    assert s[1..] == "<>\"'test";
    assert s[1..][1..] == ">\"'test";
    assert s[1..][1..][1..] == "\"'test";
    assert s[1..][1..][1..][1..] == "'test";
    assert s[1..][1..][1..][1..][1..] == "test";
    assert Escape("test") == "test";
  }
}

module RenderedExamples {
  import EscapedExamples
  import opened Strings
  import opened HtmlEscape
  import opened Decimal
  import opened Templates
  import opened Rendering

  /** `html`<div>${'&<>"\'test'}</div>``, for any surrounding static strings. */
  lemma SpecialCharactersInTemplate(a: string, b: string)
    ensures Serialize(Template([a, b], [Str("&<>\"'test")])) == a + "&amp;&lt;&gt;&quot;&#39;test" + b
  {
    StringValue(a, "&<>\"'test", b);
    EscapedExamples.SpecialCharacters();
  }

  lemma StringValue(a: string, s: string, b: string)
    ensures Serialize(Template([a, b], [Str(s)])) == a + Escape(s) + b
  {
    SerializeOneValue(a, Str(s), b);
  }

  /** `html`<div>Hello World</div>``: static text only, copied verbatim. */
  lemma StaticOnly(text: string)
    ensures Serialize(Template([text], [])) == text
  {
    SerializeNoValues([text]);
  }

  /** `html`<div>Hello ${name}</div>`` with name 'Alice', which holds no special character. */
  lemma PlainStringValue()
    ensures Serialize(Template(["<div>Hello ", "</div>"], [Str("Alice")])) == "<div>Hello Alice</div>"
  {
    SerializeOneValue("<div>Hello ", Str("Alice"), "</div>");
    EscapeUnchangedIff("Alice");
  }

  /** `html`<h1>${title}</h1><p>${body}</p>``: each value lands between its two static strings. */
  lemma TwoValues(a: string, v: Value, b: string, w: Value, c: string)
    ensures Serialize(Template([a, b, c], [v, w])) == a + Stringify(v) + b + Stringify(w) + c
  {
    var t := Template([a, b, c], [v, w]);
    SerializeFront(t);
    assert Rest(t) == Template([b, c], [w]);
    SerializeOneValue(b, w, c);
  }

  /** A nested template is inserted as is. */
  lemma NestedTemplate()
    ensures Serialize(Template(["<div>", "</div>"], [Nested(Template(["<span>Inner</span>"], []))]))
            == "<div><span>Inner</span></div>"
  {
    var inner := Template(["<span>Inner</span>"], []);
    SerializeOneValue("<div>", Nested(inner), "</div>");
    StaticOnly("<span>Inner</span>");
  }

  lemma StringifyThree(x: Value, y: Value, z: Value)
    ensures StringifyAll([x, y, z]) == Stringify(x) + Stringify(y) + Stringify(z)
  {
    assert [x, y, z][1..] == [y, z] && [y, z][1..] == [z] && [z][1..] == [];
    assert StringifyAll([z]) == Stringify(z);
    assert StringifyAll([y, z]) == Stringify(y) + Stringify(z);
  }

  /** An array of three static templates (`<li>Item 1</li>` and so on) renders as
      their texts in order, between the surrounding static strings. */
  lemma ArrayOfTemplates(x: string, y: string, z: string)
    ensures Serialize(Template(["<ul>", "</ul>"],
                               [Arr([Nested(Template([x], [])), Nested(Template([y], [])), Nested(Template([z], []))])]))
            == "<ul>" + x + y + z + "</ul>"
  {
    var a, b, c := Template([x], []), Template([y], []), Template([z], []);
    SerializeOneValue("<ul>", Arr([Nested(a), Nested(b), Nested(c)]), "</ul>");
    StringifyThree(Nested(a), Nested(b), Nested(c));
    SerializeNoValues(a.strings);
    SerializeNoValues(b.strings);
    SerializeNoValues(c.strings);
  }

  /** null and undefined render as nothing. */
  lemma NullAndUndefined()
    ensures Serialize(Template(["<div>", "</div>"], [Null])) == "<div></div>"
    ensures Serialize(Template(["<div>", "</div>"], [Undefined])) == "<div></div>"
  {
    NullishContributeNothing("<div>", "</div>");
  }

  /** 42, true and false render as String() writes them. */
  lemma NumbersAndBooleans()
    ensures Stringify(Int(42)) == "42"
    ensures Stringify(Bool(true)) == "true"
    ensures Stringify(Bool(false)) == "false"
  {
    ScalarsUnescaped(Int(42));
    ScalarsUnescaped(Bool(true));
    ScalarsUnescaped(Bool(false));
    assert NatToDecimal(4) == "4";
  }

  /** A mock body starts empty, and each render replaces what the previous one wrote. */
  method MockBodyRenders() returns (initial: Option<string>, first: Option<string>, second: Option<string>)
    ensures initial == Some("")
    ensures first == Some("<div>First</div>")
    ensures second == Some("<div>Second</div>")
  {
    var body := CreateMockBody();
    initial := body.innerHTML;
    body.Render(Template(["<div>First</div>"], []));
    StaticOnly("<div>First</div>");
    first := body.innerHTML;
    body.Render(Template(["<div>Second</div>"], []));
    StaticOnly("<div>Second</div>");
    second := body.innerHTML;
  }
}
