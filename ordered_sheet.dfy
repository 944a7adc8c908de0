/** The object returned by `createOrderedCSSStyleSheet`: a decorator around
    react-native-web's ordered stylesheet that rewrites rule text on the way in
    (`insert`) and on the way out (`getTextContent`). */
module OrderedSheet {
  import opened JsString
  import opened LayerWrap

  /** A rule insertion as the base sheet receives it: the rule text and its group value. */
  datatype Insertion = Insertion(cssText: string, groupValue: int)

  /** The base ordered stylesheet, an outside module that the wrapper reaches only
      through `getTextContent` and `insert`. Its state is the sequence of insertions
      it has received; how it turns them into text (grouping, ordering, dropping
      duplicates) is its own business, given here as the total function `Render`. */
  class BaseSheet {
    const Render: seq<Insertion> -> string
    var insertions: seq<Insertion>

    constructor (render: seq<Insertion> -> string)
      ensures Render == render && insertions == []
    {
      Render := render;
      insertions := [];
    }

    /** The text the base sheet reports for its current insertions. */
    function TextContent(): string
      reads this
    {
      Render(insertions)
    }

    method GetTextContent() returns (text: string)
      ensures text == Render(insertions)
    {
      text := Render(insertions);
    }

    method Insert(cssText: string, groupValue: int)
      modifies this
      ensures insertions == old(insertions) + [Insertion(cssText, groupValue)]
    {
      insertions := insertions + [Insertion(cssText, groupValue)];
    }
  }

  /** The wrapper. It holds exactly one base sheet for its lifetime and no other state. */
  class RuleWrapper {
    const original: BaseSheet

    /** Every rule that reached the base sheet is one that `wrapInLayer` leaves alone:
        generated rules arrive there only inside the `rnw` layer. */
    predicate Layered()
      reads original
    {
      forall k :: 0 <= k < |original.insertions| ==> !IsMarked(original.insertions[k].cssText)
    }

    /** `createOrderedCSSStyleSheet(sheet)`: builds the one base sheet it wraps. */
    constructor (render: seq<Insertion> -> string)
      ensures fresh(original)
      ensures original.Render == render && original.insertions == []
      ensures Layered()
    {
      original := new BaseSheet(render);
    }

    /** `getTextContent`: the base sheet's text with every generated line wrapped. */
    method GetTextContent() returns (text: string)
      ensures text == RewriteText(original.TextContent())
      ensures Split(text, Newline) == WrapLines(Split(original.TextContent(), Newline))
    {
      var textContent := original.GetTextContent();
      text := RewriteText(textContent);
      RewriteTextLines(textContent);
    }

    /** `insert`: one insertion reaches the base sheet, carrying the wrapped rule text and
        the group value unchanged; nothing else in the base sheet changes. */
    method Insert(cssText: string, groupValue: int)
      requires Layered()
      modifies original
      ensures original.insertions
              == old(original.insertions) + [Insertion(WrapInLayer(cssText), groupValue)]
      ensures Layered()
    {
      var wrappedCssText := WrapInLayer(cssText);
      WrapInLayerUnmarked(cssText);
      original.Insert(wrappedCssText, groupValue);
    }
  }

  /** Round trip through the wrapper: when the base sheet reports the rule that `insert`
      handed it as one line of its text, `getTextContent` returns that rule among its
      lines, wrapped at most once; a rule that is not generated comes back exactly as
      it was inserted. */
  lemma InsertThenRetrieve(render: seq<Insertion> -> string, before: seq<Insertion>,
                           cssText: string, groupValue: int)
    requires WrapInLayer(cssText)
             in Split(render(before + [Insertion(WrapInLayer(cssText), groupValue)]), Newline)
    ensures var text := render(before + [Insertion(WrapInLayer(cssText), groupValue)]);
      WrapInLayer(cssText) in Split(RewriteText(text), Newline)
    ensures var text := render(before + [Insertion(WrapInLayer(cssText), groupValue)]);
      !IsMarked(cssText) ==> cssText in Split(RewriteText(text), Newline)
  {
    var text := render(before + [Insertion(WrapInLayer(cssText), groupValue)]);
    WrapInLayerUnmarked(cssText);
    WrapInLayerFixedPoints(cssText);
    RewriteTextKeepsLine(text, WrapInLayer(cssText));
  }
}
