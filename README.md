# Layer-wrapping ordered stylesheet (uniwind, web)

uniwind's web build replaces react-native-web's `createOrderedCSSStyleSheet` with a
decorator. The decorator moves react-native-web's generated rules into the cascade
layer `rnw`, so that Tailwind-style utility rules win the cascade over them. A rule
counts as generated when its trimmed text starts with `.css-`. Such a rule is
rewritten to `@layer rnw{<trimmed rule>}`. This is the `@layer` block rule of CSS
Cascading and Inheritance Level 5, section 6.4 (Cascade Layers). The rewrite happens
in two places:

- `insert(cssText, groupValue)` sends `wrapInLayer(cssText)` and the unchanged group
  value to the base sheet.
- `getTextContent()` splits the base sheet's text on `'\n'`, rewrites each line the
  same way, and joins the lines again.

Text that is not generated passes through verbatim, including its whitespace. A
generated rule loses its surrounding whitespace, because its trimmed form is what
goes inside the block.

The project has three modules:

- `JsString` (`js_string.dfy`): the JavaScript built-ins the code uses, over
  `seq<char>`. These are `trim`, `startsWith`, `split` with a one-character separator
  (JavaScript semantics: always at least one piece) and `join`. Each has lemmas that
  characterise it: what trim drops and keeps, that trim is unique and idempotent, and
  that split and join are inverse to each other.
- `LayerWrap` (`layer_wrap.dfy`): `WrapInLayer`, the per-line rewrite `RewriteText`
  of `getTextContent`, and their properties. These include the single-wrap guarantee,
  idempotence, that the line structure is kept, the exact content of every line, and
  the scenarios as concrete lemmas.
- `OrderedSheet` (`ordered_sheet.dfy`): the base sheet as a class, and the wrapper
  object as a class `RuleWrapper`. The wrapper holds its one base sheet in a field,
  and its `Insert` updates that sheet in place (a `modifies` clause).

The base sheet is react-native-web's own module, which is not part of this model.
It is modelled by its interface (source lines 9-12), as a class with two parts:

- the log of `(cssText, groupValue)` insertions it has received;
- an injected total function `Render` that gives its text content for that log.

So the wrapper's contracts say nothing about how react-native-web groups, orders or
deduplicates rules. `getTextContent` is specified against `Render(insertions)`,
whatever that is.

`wrapInLayer` trims both ends of the text before the prefix test. For the test this
is the same as trimming the leading whitespace only, but the rule that goes inside
the block has lost its trailing whitespace too.

## Model

| member | source | states |
|---|---|---|
| `JsString.TrimStartSpec` | packages/uniwind/src/components/web/createOrderedCSSStyleSheet.ts:19 | leading-whitespace removal keeps a suffix, drops only whitespace, and stops at the first non-whitespace character |
| `JsString.TrimEndSpec` | packages/uniwind/src/components/web/createOrderedCSSStyleSheet.ts:19 | trailing-whitespace removal keeps a prefix, drops only whitespace, and stops at the last non-whitespace character |
| `JsString.TrimSpec` | packages/uniwind/src/components/web/createOrderedCSSStyleSheet.ts:19 | `trim(s)` has no whitespace at either end, and `s` is `trim(s)` padded by whitespace on both sides |
| `JsString.TrimPadded` | packages/uniwind/src/components/web/createOrderedCSSStyleSheet.ts:44 | uniqueness: trimming any whitespace padding of a string with no edge whitespace gives back exactly that string |
| `JsString.TrimIdempotent` | packages/uniwind/src/components/web/createOrderedCSSStyleSheet.ts:19 | `trim(trim(s)) == trim(s)` |
| `JsString.TrimChars` | packages/uniwind/src/components/web/createOrderedCSSStyleSheet.ts:19 | every character of `trim(s)` occurs in `s` |
| `JsString.SplitSpec` | packages/uniwind/src/components/web/createOrderedCSSStyleSheet.ts:42 | `split(sep)` returns one piece more than there are separators (so at least one), and no piece contains the separator |
| `JsString.SplitFromSpec` | packages/uniwind/src/components/web/createOrderedCSSStyleSheet.ts:42 | the same count and separator-freedom for a split that has already read part of the current piece |
| `JsString.JoinSplit` | packages/uniwind/src/components/web/createOrderedCSSStyleSheet.ts:41-52 | joining the pieces of `s.split(sep)` with `sep` gives `s` back |
| `JsString.JoinSplitFrom` | packages/uniwind/src/components/web/createOrderedCSSStyleSheet.ts:41-52 | joining the pieces of a partly read split gives the read part followed by the rest of the text |
| `JsString.SplitJoin` | packages/uniwind/src/components/web/createOrderedCSSStyleSheet.ts:41-52 | splitting the join of a non-empty list of separator-free pieces gives back that list |
| `JsString.SplitCons` | packages/uniwind/src/components/web/createOrderedCSSStyleSheet.ts:42 | a separator-free prefix followed by a separator splits off as the first piece |
| `JsString.SplitNoSeparator` | packages/uniwind/src/components/web/createOrderedCSSStyleSheet.ts:42 | a text without the separator splits into itself alone |
| `LayerWrap.WrapInLayerPadded` | packages/uniwind/src/components/web/createOrderedCSSStyleSheet.ts:18-27 | for a rule padded by whitespace, the output is the bare rule inside `@layer rnw{...}` when the rule starts with `.css-`, and the padded text unchanged otherwise |
| `LayerWrap.WrapInLayerUnmarked` | packages/uniwind/src/components/web/createOrderedCSSStyleSheet.ts:19-26 | single-wrap guarantee: the output never has a trimmed form that starts with `.css-` |
| `LayerWrap.LayerBlockUnmarked` | packages/uniwind/src/components/web/createOrderedCSSStyleSheet.ts:23 | a `@layer rnw{...}` block is already trimmed and does not start with `.css-` |
| `LayerWrap.WrapInLayerIdempotent` | packages/uniwind/src/components/web/createOrderedCSSStyleSheet.ts:18-27 | `wrapInLayer(wrapInLayer(s)) == wrapInLayer(s)` |
| `LayerWrap.WrapInLayerFixedPoints` | packages/uniwind/src/components/web/createOrderedCSSStyleSheet.ts:18-27 | `wrapInLayer(s) == s` if and only if the trimmed `s` does not start with `.css-` |
| `LayerWrap.WrapInLayerChars` | packages/uniwind/src/components/web/createOrderedCSSStyleSheet.ts:22-23 | the output contains only characters of the input or of the layer delimiters |
| `LayerWrap.WrapInLayerSingleLine` | packages/uniwind/src/components/web/createOrderedCSSStyleSheet.ts:43-50 | a line without `'\n'` is rewritten to text without `'\n'` |
| `LayerWrap.RewriteTextLines` | packages/uniwind/src/components/web/createOrderedCSSStyleSheet.ts:41-52 | splitting the rewritten text on `'\n'` gives the base text's lines, in order and of the same number, each passed through `wrapInLayer` |
| `LayerWrap.RewriteTextLineAt` | packages/uniwind/src/components/web/createOrderedCSSStyleSheet.ts:43-50 | output line i is `@layer rnw{` + trimmed base line i + `}` when that trimmed line starts with `.css-`, and base line i verbatim otherwise |
| `LayerWrap.RewriteTextIdempotent` | packages/uniwind/src/components/web/createOrderedCSSStyleSheet.ts:41-52 | rewriting the rewritten text changes nothing |
| `LayerWrap.RewriteTextUnchanged` | packages/uniwind/src/components/web/createOrderedCSSStyleSheet.ts:41-52 | the text is returned unchanged if and only if none of its lines, trimmed, starts with `.css-` |
| `LayerWrap.RewriteTextKeepsLine` | packages/uniwind/src/components/web/createOrderedCSSStyleSheet.ts:41-52 | a base line whose trimmed form does not start with `.css-` is among the output lines |
| `LayerWrap.WrapInLayerGeneratedRule` | packages/uniwind/src/components/web/createOrderedCSSStyleSheet.ts:18-27 | `.css-abc123{color:red;}` becomes `@layer rnw{` + that rule + `}`, unchanged inside the block |
| `LayerWrap.WrapInLayerIndentedRule` | packages/uniwind/src/components/web/createOrderedCSSStyleSheet.ts:18-27 | `  .css-xyz{margin:0}` becomes `@layer rnw{.css-xyz{margin:0}}`, without its indentation |
| `LayerWrap.WrapInLayerOtherRule` | packages/uniwind/src/components/web/createOrderedCSSStyleSheet.ts:26 | `div{display:flex}` is passed through unchanged |
| `LayerWrap.RewriteTextMixedLines` | packages/uniwind/src/components/web/createOrderedCSSStyleSheet.ts:41-52 | `.css-a{x:1}\nbody{y:2}\n` is retrieved as `@layer rnw{.css-a{x:1}}\nbody{y:2}\n` |
| `LayerWrap.RewriteTextEmpty` | packages/uniwind/src/components/web/createOrderedCSSStyleSheet.ts:41-52 | an empty base text is retrieved as the empty string |
| `OrderedSheet.BaseSheet.GetTextContent` | packages/uniwind/src/components/web/createOrderedCSSStyleSheet.ts:10 | the base sheet reports the text it renders for the insertions it has received |
| `OrderedSheet.BaseSheet.Insert` | packages/uniwind/src/components/web/createOrderedCSSStyleSheet.ts:11 | the base sheet records exactly one more insertion, with the given text and group value |
| `OrderedSheet.RuleWrapper.constructor` | packages/uniwind/src/components/web/createOrderedCSSStyleSheet.ts:33-34 | the wrapper creates and holds one fresh base sheet, which has received no insertions yet |
| `OrderedSheet.RuleWrapper.GetTextContent` | packages/uniwind/src/components/web/createOrderedCSSStyleSheet.ts:37-53 | the result is the base sheet's text rewritten line by line, and its lines are the base lines passed through `wrapInLayer` |
| `OrderedSheet.RuleWrapper.Insert` | packages/uniwind/src/components/web/createOrderedCSSStyleSheet.ts:55-60 | the base sheet gets exactly one insertion, `(wrapInLayer(cssText), groupValue)`, with the group value unchanged; nothing else changes, and no generated rule reaches the base sheet outside the layer |
| `OrderedSheet.InsertThenRetrieve` | packages/uniwind/src/components/web/createOrderedCSSStyleSheet.ts:37-60 | if the base sheet shows an inserted rule as a line, retrieval returns it wrapped at most once, and a rule that is not generated comes back exactly as inserted |

## Left out

- The react-native-web ordered stylesheet (source lines 1-2 and 34) is a foreign module. It is modelled by its two-operation interface only. How it renders its insertions into text is the injected function `Render`, so nothing is proved about its grouping, ordering or deduplication.
- Reading the rules that already exist in the DOM sheet when the base sheet is created is not modelled. The base sheet starts with no insertions.
- The DOM `CSSStyleSheet` type (source lines 4-7) is left out. It is a browser object that the wrapper only passes to the factory, so the constructor takes no sheet handle.
- CSS parsing, validation and cascade semantics are left out. The code only tests a text prefix.
- `IsWhitespace` lists the ECMAScript WhiteSpace and LineTerminator code points as a fixed set. It does not track the Unicode version that defines the space separators.
- The group value is an unbounded `int`. The source's JavaScript `number` (a double) is not modelled, because the wrapper only forwards it.
- The module exports (source lines 64-66) are left out.
