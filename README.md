# ssrhtml in Dafny

A model of a small server-side HTML templating library. A tagged template
literal produces a `TemplateResult`: the static strings of the literal and the
interpolated values. `toHTML` serializes it. It interleaves the static strings,
copied verbatim, with the text of each value:

- a nested template is serialized recursively and inserted as is;
- an array becomes the concatenation of its elements' texts, in order, with no separator;
- `null` and `undefined` become nothing;
- any other value goes through `String()` and then HTML escaping.

Escaping maps `&`, `<`, `>`, `"` and `'` to `&amp;`, `&lt;`, `&gt;`, `&quot;`
and `&#39;` in one pass. A render target is an object whose `innerHTML`
receives the serialized text. `makeRenderable` installs a `render` method on an
object, and `createMockBody` makes such an object with an empty `innerHTML`.

Modules:

- `Strings` (strings.dfy): `Join`, concatenation of a list of strings with no separator.
- `HtmlEscape` (escape.dfy): `escapeHTML` as a per-character entity map, flattened.
  Its partner is the decoder `Unescape`, with the round trip proved.
- `Decimal` (decimal.dfy): `String()` of an integer. Its partner is `DecimalValue`, with the round trip proved.
- `Templates` (template.dfy): the datatypes `Value` and `Template`. The `Template`
  constructor is the `TemplateResult` constructor (src/template-result.ts:16-19) and the
  `html` tag, which store the strings and values as given. The module also holds
  `stringifyValue` (`Stringify`) and `toHTML`. `toHTML` is an imperative method `ToHtml` with the source's `for` loop.
  It is proved against the pure specification `Serialize`.
- `Rendering` (render.dfy): the render target as a class with an `innerHTML` field,
  and `renderToString`, `render`, `makeRenderable` and `createMockBody`.
- `EscapedExamples`, `RenderedExamples` (test_vectors.dfy): the outputs the library's tests expect.

The model follows the code on two points:

- `toHTML` does not rely on there being one value fewer than static strings.
  Iteration `i` appends `strings[i]`, then value `i` when `i < values.length`.
  Values beyond the last static string are dropped.
  With as many values as strings, the last value comes after the last string.
- A nested template is recognised by `instanceof`; here that is the `Nested` constructor.

## Model

| member | source | states |
|---|---|---|
| Strings.Join | src/template-result.ts:49 | no contract of its own: the reference reading of `join('')`, related to the code by `HtmlEscape.EscapeIsJoinOfEntities`, `Templates.StringifyAllIsJoin` and `Templates.SerializeNoValues` |
| Strings.JoinAppend | src/template-result.ts:49 | joining a concatenated list is concatenating the joins of its two parts |
| HtmlEscape.EntityFor | src/template-result.ts:62-68 | each of the five special characters maps to an entity that starts with `&` and ends with `;`; every other character maps to itself; no entity contains `<`, `>`, `"` or `'` |
| HtmlEscape.Escape | src/template-result.ts:61-71 | the escaped text is at least as long as the input and contains none of `<`, `>`, `"`, `'` |
| HtmlEscape.EscapeIsJoinOfEntities | src/template-result.ts:70 | escaping is the per-character entity map, concatenated in input order |
| HtmlEscape.EscapeAppend | src/template-result.ts:70 | escaping distributes over concatenation: `Escape(a + b) == Escape(a) + Escape(b)` |
| HtmlEscape.EscapeUnchangedIff | src/template-result.ts:62-70 | escaping leaves a string unchanged if and only if it holds none of the five special characters |
| HtmlEscape.UnescapeEscape | src/template-result.ts:70 | decoding the five entities recovers the input exactly, so an inserted `&amp;` is never escaped again |
| HtmlEscape.EscapeInjective | src/template-result.ts:70 | two different strings never escape to the same text |
| HtmlEscape.UnescapeEntity | src/template-result.ts:62-68 | decoding the entity written for one character gives back that character and resumes right after the entity |
| Decimal.NatToDecimal | src/template-result.ts:54 | `String()` of a non-negative integer is a non-empty string of decimal digits with no leading zero |
| Decimal.IntToDecimal | src/template-result.ts:54 | the text starts with `-` exactly when the integer is negative, and the rest is decimal digits; this is what `String()` writes for integers of magnitude at most 2^53 (see "## Left out") |
| Decimal.DecimalRoundTrip | src/template-result.ts:54 | reading the digits back gives the number |
| Decimal.IntRoundTrip | src/template-result.ts:54 | reading the text back, sign included, gives the integer |
| Templates.ScalarText | src/template-result.ts:54 | `String()` of a string is the string itself; the text of a number or boolean holds none of the five characters escaping replaces |
| Templates.Stringify | src/template-result.ts:43-56 | `stringifyValue`: the text of a string, number or boolean value never contains `<`, `>`, `"` or `'`, whatever it holds; the other kinds are stated by the rows below |
| Templates.StringifyAll | src/template-result.ts:47-49 | no contract of its own: `map(stringifyValue).join('')`, stated by `Templates.StringifyAllIsJoin` and `Templates.StringifyAllAppend` |
| Templates.Serialize | src/template-result.ts:25-38 | no contract of its own: what `toHTML` returns, related to the loop by `Templates.ToHtml` and described by `Templates.SerializeFront`, `Templates.SerializeWellShaped` and the rows below |
| Templates.SerializePrefix | src/template-result.ts:28-35 | no contract of its own: what the `toHTML` loop holds after `n` iterations, the invariant of `Templates.ToHtml` |
| Templates.ToHtml | src/template-result.ts:25-38 | the loop returns `Serialize(t)`; its invariant is that after `i` iterations the result holds the first `i` static strings, each followed by its value when `i < values.length` |
| Templates.SerializeFront | src/template-result.ts:28-35 | output is `strings[0]`, then value 0 if there is one, then the serialization of the remaining strings and values |
| Templates.SerializeWellShaped | src/template-result.ts:28-35 | for a template with one fewer value than strings, output is `strings[0]`, then each value `i` followed by `strings[i+1]`, in order |
| Templates.SerializeNoValues | src/template-result.ts:28-29 | with no values, output is exactly the concatenation of the static strings, unescaped |
| Templates.SerializeStaticsAppend | src/template-result.ts:28-29 | two templates without values, taken one after the other, render as their two renderings one after the other |
| Templates.SerializeDropsSurplus | src/template-result.ts:28-31 | values with index at or beyond the number of static strings are never emitted |
| Templates.SerializeMissingIsUndefined | src/template-result.ts:31-34 | a missing value contributes the same as an explicit `undefined`: nothing |
| Templates.SerializeOneValue | src/template-result.ts:28-35 | a template `a${v}b` serializes to `a`, then the text of `v`, then `b` |
| Templates.NullishContributeNothing | src/template-result.ts:50-51 | `null` and `undefined` values contribute the empty string |
| Templates.NestedIsNotEscaped | src/template-result.ts:44-46 | a nested template contributes exactly its own serialization, unescaped; the same text as a string value is escaped |
| Templates.StringifyAllIsJoin | src/template-result.ts:47-49 | an array contributes its elements' texts joined in order with no separator |
| Templates.StringifyAllAppend | src/template-result.ts:47-49 | the text of a concatenated array is the concatenation of the texts of its parts |
| Templates.ArraysFlatten | src/template-result.ts:47-49 | an array of two arrays renders like the concatenation of the two arrays |
| Templates.ScalarsUnescaped | src/template-result.ts:52-54 | numbers and booleans render exactly as `String()` writes them |
| Templates.StringsEscaped | src/template-result.ts:52-54 | a string value renders as its per-character escaping, and decoding it gives the string back |
| Templates.SerializeMarkupOnlyFromStatics | src/template-result.ts:43-56 | if no static string, at any nesting depth, contains `<`, `>`, `"` or `'`, then neither does the output, whatever the scalar values hold |
| Templates.PrefixMarkupOnlyFromStatics | src/template-result.ts:28-35 | the same holds for everything the loop has accumulated after any number of iterations |
| Templates.StringifyMarkupOnlyFromStatics | src/template-result.ts:43-56 | the same holds for the text of a single value |
| Templates.StringifyAllMarkupOnlyFromStatics | src/template-result.ts:47-49 | the same holds for the text of an array |
| Templates.ValueSlotMarkupFree | src/template-result.ts:28-35 | in `a${v}b`, the output starts with `a` and ends with `b`, and when `v`'s own static strings hold no markup, the text between them holds no `<`, `>`, `"` or `'`, whatever `a` and `b` hold |
| Rendering.RenderTarget.constructor | src/render.ts:6-9 | an object of the `RenderTarget` shape, built as an object literal such as `{ innerHTML: '' }` (src/render.ts:42): it has the given `innerHTML` and no `render` method yet |
| Rendering.RenderTarget.Render | src/render.ts:31-33 | the installed `render` method sets this object's `innerHTML` to the template's serialization |
| Rendering.RenderToString | src/render.ts:14-16 | `renderToString(t)` is the template's `toHTML()` output |
| Rendering.RenderInto | src/render.ts:21-23 | `render` sets `innerHTML` to the serialization and may write no other field |
| Rendering.MakeRenderable | src/render.ts:28-36 | returns the very object it was given, now with a `render` method; only that flag is written |
| Rendering.CreateMockBody | src/render.ts:41-43 | a new object whose `innerHTML` is `''` and which has a `render` method |
| Rendering.RenderTwice | src/render.ts:21-23 | after two renders into one target, `innerHTML` holds only the second template's serialization |
| Rendering.RenderLeavesOthers | src/render.ts:21-23 | rendering into one target writes only its `innerHTML`: its own `render` method and another target's `innerHTML` and `render` are as they were |
| EscapedExamples.SpecialCharacters | src/test.ts:123-127 | `&<>"'test` escapes to `&amp;&lt;&gt;&quot;&#39;test` |
| RenderedExamples.SpecialCharactersInTemplate | src/test.ts:123-127 | the same string as a value between any two static strings (the test uses `<div>` and `</div>`) renders as `&amp;&lt;&gt;&quot;&#39;test` between them |
| RenderedExamples.StringValue | src/template-result.ts:52-54 | a string value between two static strings renders as its escaping between them |
| RenderedExamples.StaticOnly | src/test.ts:11-15 | a template without values renders as its text |
| RenderedExamples.PlainStringValue | src/test.ts:17-22 | `<div>Hello ${name}</div>` with name `'Alice'` renders as `<div>Hello Alice</div>` |
| RenderedExamples.TwoValues | src/test.ts:24-30 | a template with two values renders each between its static strings |
| RenderedExamples.NestedTemplate | src/test.ts:39-44 | `<div>${inner}</div>` with inner `<span>Inner</span>` renders as `<div><span>Inner</span></div>` |
| RenderedExamples.ArrayOfTemplates | src/test.ts:46-55 | `<ul>${items}</ul>` over three static templates renders their texts in order inside `<ul>` and `</ul>` |
| RenderedExamples.NullAndUndefined | src/test.ts:57-62 | `<div>${null}</div>` and `<div>${undefined}</div>` render as `<div></div>` |
| RenderedExamples.NumbersAndBooleans | src/test.ts:64-68 | 42, true and false render as `42`, `true` and `false` |
| RenderedExamples.MockBodyRenders | src/test.ts:70-91 | a mock body starts with `innerHTML` `''`; after rendering `<div>First</div>` it holds that text, and after rendering `<div>Second</div>` only the second |

## Left out

- `src/html.ts` is a one-line wrapper around the `TemplateResult` constructor. The `Template` datatype constructor plays both roles.
- The length shape of a tagged template (one more string than values) comes from the language's template-literal semantics. It is the predicate `WellShaped`, and `toHTML` does not depend on it.
- `src/dom-template.ts` and `src/index.ts` only re-export names; `src/example.ts` only prints.
- `createRenderer` is called in `src/test.ts:136-160` but defined nowhere in the library, so it is not modelled.
- `instanceof` and `Array.isArray` become datatype constructors. Object identity, templates shared between several values, and cyclic value graphs are not modelled.
- `String()` is modelled for strings, integers and booleans only. Non-integral numbers, `NaN`, `Infinity`, objects and symbols are not modelled.
- `IntToDecimal`: `Int(n)` stands for a JavaScript number whose value is the integer n. The text matches `String()` for |n| ≤ 2^53. Above that, a JavaScript number is a double, so `Int(n)` for most such n stands for no JavaScript number. `String()` prints the shortest digits that read back to the same double, padded with zeros, and from 10^21 it uses exponent notation. The model writes the exact digits of every integer, so `Decimal.IntRoundTrip` matches `String()` only up to 2^53.
- The regular-expression engine behind `str.replace` is not modelled; only the per-character mapping it performs is.
- Strings are sequences of characters. UTF-16 code units and surrogate pairs are not distinguished.
- `makeRenderable` attaches a function at run time and binds `this` when it is called. Here the installed method is a class method, available once the `hasRender` flag is set.
- `innerHTML` is optional on an arbitrary object, so it is an `Option<string>`.
- `RenderedExamples.ArrayOfTemplates` is stated for any three item texts rather than for the literal `<li>Item N</li>` strings.
- The test that escapes `<script>alert("XSS")</script>` (`src/test.ts:32-37`) is not stated as a literal example. `RenderedExamples.StringValue` shows that the output is `"<div>" + Escape(s) + "</div>"`, and `Escape`'s ensures and `Templates.Stringify`'s ensures show that the escaped text holds no `<`, `>`, `"` or `'`. The exact entity text for that string is not proved.
