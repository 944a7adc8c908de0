/** The text rewrite of the ordered-stylesheet wrapper: rules generated by
    react-native-web (their trimmed text starts with `.css-`) are enclosed in a
    `@layer rnw{...}` block rule (CSS Cascading and Inheritance Level 5, section 6.4,
    Cascade Layers), so that they lose the cascade to utility-class rules. */
module LayerWrap {
  import opened JsString

  /** The class-name prefix of rules generated by react-native-web. */
  const Marker: string := ".css-"
  const LayerOpen: string := "@layer rnw{"
  const LayerClose: string := "}"
  const Newline: char := '\n'

  /** A rule the wrapper moves into the `rnw` layer: its trimmed text starts with the marker. */
  predicate IsMarked(cssText: string) {
    StartsWith(Trim(cssText), Marker)
  }

  /** `wrapInLayer`: a marked rule becomes its trimmed text inside `@layer rnw{...}`;
      any other text is returned as it is, whitespace included. */
  function WrapInLayer(cssText: string): string {
    var trimmed := Trim(cssText);
    if StartsWith(trimmed, Marker) then LayerOpen + trimmed + LayerClose else cssText
  }

  /** The result of `wrapInLayer` is never itself a marked rule (single-wrap guarantee). */
  lemma WrapInLayerUnmarked(cssText: string)
    ensures !IsMarked(WrapInLayer(cssText))
  {
    if IsMarked(cssText) {
      LayerBlockUnmarked(Trim(cssText));
    }
  }

  /** `wrapInLayer` adds no character other than those of the layer delimiters. */
  lemma WrapInLayerChars(cssText: string)
    ensures forall c :: c in WrapInLayer(cssText) ==> c in cssText || c in LayerOpen || c in LayerClose
  {
    TrimChars(cssText);
  }

  /** A layer block is its own trimmed form and does not start with the marker. */
  lemma LayerBlockUnmarked(rule: string)
    ensures Trim(LayerOpen + rule + LayerClose) == LayerOpen + rule + LayerClose
    ensures !IsMarked(LayerOpen + rule + LayerClose)
  {
    var w := LayerOpen + rule + LayerClose;
    assert w[0] == '@' && w[|w| - 1] == '}';
    TrimPadded([], w, []);
    assert [] + w + [] == w;
    assert w[..|Marker|][0] == w[0];
  }

  /** The two branches of `wrapInLayer`, stated on a rule padded by whitespace: a marked
      rule loses its padding inside the layer block; any other text keeps its padding. */
  lemma WrapInLayerPadded(pre: string, rule: string, post: string)
    requires AllWhitespace(pre) && AllWhitespace(post) && NoEdgeWhitespace(rule)
    ensures StartsWith(rule, Marker) ==> WrapInLayer(pre + rule + post) == LayerOpen + rule + LayerClose
    ensures !StartsWith(rule, Marker) ==> WrapInLayer(pre + rule + post) == pre + rule + post
  {
    TrimPadded(pre, rule, post);
  }

  /** A rule is never wrapped twice. */
  lemma WrapInLayerIdempotent(cssText: string)
    ensures WrapInLayer(WrapInLayer(cssText)) == WrapInLayer(cssText)
  {
    WrapInLayerUnmarked(cssText);
  }

  /** `wrapInLayer` changes exactly the marked rules. */
  lemma WrapInLayerFixedPoints(cssText: string)
    ensures WrapInLayer(cssText) == cssText <==> !IsMarked(cssText)
  {
    WrapInLayerUnmarked(cssText);
  }

  /** Text without a line break is wrapped into text without a line break. */
  lemma WrapInLayerSingleLine(line: string)
    requires Newline !in line
    ensures Newline !in WrapInLayer(line)
  {
    WrapInLayerChars(line);
    assert Newline !in LayerOpen + LayerClose;
  }

  /** The per-line `map` of `getTextContent`. Its callback repeats the body of
      `wrapInLayer` inline (trim, marker test, wrap, else the line verbatim), so the
      model maps `WrapInLayer` itself. */
  function WrapLines(lines: seq<string>): seq<string> {
    seq(|lines|, i requires 0 <= i < |lines| => WrapInLayer(lines[i]))
  }

  /** `getTextContent`'s rewrite of the base sheet's text: split on line breaks, wrap
      each line, join with line breaks. */
  function RewriteText(text: string): string {
    Join(WrapLines(Split(text, Newline)), Newline)
  }

  /** Splitting the rewritten text gives the base text's lines, each passed through
      `wrapInLayer`: the rewrite keeps the number of lines and their order, because a
      wrapped line holds no line break. */
  lemma {:induction false} RewriteTextLines(text: string)
    ensures Split(RewriteText(text), Newline) == WrapLines(Split(text, Newline))
  {
    var wrapped := WrapLines(Split(text, Newline));
    SplitSpec(text, Newline);
    forall i | 0 <= i < |wrapped| ensures Newline !in wrapped[i] {
      WrapInLayerSingleLine(Split(text, Newline)[i]);
    }
    SplitJoin(wrapped, Newline);
  }

  /** Line i of the rewritten text is the trimmed base line i inside the layer block
      when that line is a marked rule, and base line i verbatim otherwise. */
  lemma RewriteTextLineAt(text: string, i: nat)
    requires i < |Split(text, Newline)|
    ensures var line := Split(text, Newline)[i];
      i < |Split(RewriteText(text), Newline)|
      && Split(RewriteText(text), Newline)[i]
         == if IsMarked(line) then LayerOpen + Trim(line) + LayerClose else line
  {
    RewriteTextLines(text);
  }

  /** The rewrite is idempotent on whole texts. */
  lemma {:induction false} RewriteTextIdempotent(text: string)
    ensures RewriteText(RewriteText(text)) == RewriteText(text)
  {
    var out := RewriteText(text);
    var lines := Split(out, Newline);
    RewriteTextLines(text);
    assert WrapLines(lines) == lines by {
      forall i | 0 <= i < |lines| ensures WrapLines(lines)[i] == lines[i] {
        WrapInLayerIdempotent(Split(text, Newline)[i]);
      }
    }
    JoinSplit(out, Newline);
  }

  /** The rewrite returns its input exactly when no line of it is a marked rule. */
  lemma {:induction false} RewriteTextUnchanged(text: string)
    ensures var lines := Split(text, Newline);
      RewriteText(text) == text <==> forall i :: 0 <= i < |lines| ==> !IsMarked(lines[i])
  {
    var lines := Split(text, Newline);
    RewriteTextLines(text);
    if forall i :: 0 <= i < |lines| ==> !IsMarked(lines[i]) {
      assert WrapLines(lines) == lines by {
        forall i | 0 <= i < |lines| ensures WrapLines(lines)[i] == lines[i] {
          WrapInLayerFixedPoints(lines[i]);
        }
      }
      JoinSplit(text, Newline);
    } else {
      var i :| 0 <= i < |lines| && IsMarked(lines[i]);
      WrapInLayerFixedPoints(lines[i]);
      assert Split(RewriteText(text), Newline)[i] != lines[i];
    }
  }

  /** A line of the base text that is not a marked rule, in particular one that was
      inserted through `wrapInLayer`, appears unchanged among the rewritten lines. */
  lemma {:induction false} RewriteTextKeepsLine(text: string, line: string)
    requires line in Split(text, Newline)
    requires !IsMarked(line)
    ensures line in Split(RewriteText(text), Newline)
  {
    var lines := Split(text, Newline);
    RewriteTextLines(text);
    var i :| 0 <= i < |lines| && lines[i] == line;
    assert WrapLines(lines)[i] == line;
  }

  /** Insertion scenario: a generated rule is wrapped as it is. */
  lemma WrapInLayerGeneratedRule(rule: string)
    requires rule == ".css-abc123{color:red;}"
    ensures WrapInLayer(rule) == LayerOpen + rule + LayerClose
  {
    assert rule == [] + rule + [];
    assert rule[..|Marker|] == Marker;
    WrapInLayerPadded([], rule, []);
  }

  /** Insertion scenario: the indentation of a generated rule is dropped, because its
      trimmed text replaces it inside the block. */
  lemma WrapInLayerIndentedRule(rule: string)
    requires rule == "  .css-xyz{margin:0}"
    ensures WrapInLayer(rule) == "@layer rnw{.css-xyz{margin:0}}"
  {
    var core := ".css-xyz{margin:0}";
    assert rule == "  " + core + [];
    WrapInLayerPadded("  ", core, []);
  }

  /** Insertion scenario: a rule that is not generated is passed through unchanged. */
  lemma WrapInLayerOtherRule(rule: string)
    requires rule == "div{display:flex}"
    ensures WrapInLayer(rule) == rule
  {
    assert rule == [] + rule + [];
    WrapInLayerPadded([], rule, []);
  }

  /** Retrieval scenario: the generated rule on the first line is wrapped, the other
      rule and the empty last line are kept. */
  lemma RewriteTextMixedLines(text: string)
    requires text == ".css-a{x:1}\nbody{y:2}\n"
    ensures RewriteText(text) == "@layer rnw{.css-a{x:1}}\nbody{y:2}\n"
  {
    var lines := [".css-a{x:1}", "body{y:2}", ""];
    assert Join(lines, Newline) == text;
    SplitJoin(lines, Newline);
    assert WrapInLayer(lines[0]) == "@layer rnw{.css-a{x:1}}";
    assert WrapInLayer(lines[1]) == lines[1];
    assert WrapInLayer(lines[2]) == lines[2];
    assert WrapLines(lines) == ["@layer rnw{.css-a{x:1}}", "body{y:2}", ""];
  }

  /** Retrieval scenario: an empty base text is returned unchanged. */
  lemma RewriteTextEmpty()
    ensures RewriteText("") == ""
  {
  }
}
