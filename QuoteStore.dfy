/**
 * The quote `Database`: an append-only list of quotes in which no two
 * quotes render to the same text.
 */
module QuoteStore {
  import opened Wrappers
  import opened Quotes

  /** Why `add_quote` refused a quote: its rendering raised, or it is a `DuplicateError`. */
  datatype AddError = RenderFailed(cause: RenderError) | Duplicate

  /**
   * Every quote passed the constructor's length check and renders, and no
   * two render to the same text.
   */
  ghost predicate DistinctRenderings(quotes: seq<Quote>)
  {
    && (forall i :: 0 <= i < |quotes| ==> |quotes[i].text| <= MaxQuoteLength)
    && (forall i :: 0 <= i < |quotes| ==> CreateVariant(quotes[i]).Ok?)
    && (forall i, j :: 0 <= i < j < |quotes| ==>
          CreateVariant(quotes[i]).value.text != CreateVariant(quotes[j]).value.text)
  }

  class Database {
    var quotes: seq<Quote>

    ghost predicate Valid()
      reads this
    {
      DistinctRenderings(quotes)
    }

    constructor ()
      ensures Valid() && quotes == []
    {
      quotes := [];
    }

    /** `get_quotes`: the rendering of every stored quote, in insertion order. */
    function GetQuotes(): (r: seq<string>)
      reads this
      requires Valid()
      ensures |r| == |quotes|
      ensures forall i :: 0 <= i < |r| ==> CreateVariant(quotes[i]).Ok? && r[i] == CreateVariant(quotes[i]).value.text
      ensures forall i, j :: 0 <= i < j < |r| ==> r[i] != r[j]
      ensures forall i :: 0 <= i < |r| ==> |r[i]| <= MaxQuoteLength
    {
      var qs := quotes;
      seq(|qs|, i requires 0 <= i < |qs| && CreateVariant(qs[i]).Ok? => CreateVariant(qs[i]).value.text)
    }

    /**
     * `add_quote`: renders the new quote first, so a rendering failure adds
     * nothing; refuses a quote whose rendering is already listed; otherwise
     * appends it. Only a constructed quote, whose text is at most 50
     * characters, can be passed.
     */
    method AddQuote(q: Quote) returns (res: Result<(), AddError>)
      requires Valid() && |q.text| <= MaxQuoteLength
      modifies this
      ensures Valid()
      ensures CreateVariant(q).Err? ==> res == Err(RenderFailed(CreateVariant(q).error))
      ensures CreateVariant(q).Ok? && CreateVariant(q).value.text in old(GetQuotes()) ==> res == Err(Duplicate)
      ensures CreateVariant(q).Ok? && CreateVariant(q).value.text !in old(GetQuotes()) ==> res == Ok(())
      ensures res.Ok? ==> quotes == old(quotes) + [q] && GetQuotes() == old(GetQuotes()) + [CreateVariant(q).value.text]
      ensures res.Err? ==> quotes == old(quotes)
    {
      var rendered := CreateVariant(q);
      if rendered.Err? {
        return Err(RenderFailed(rendered.error));
      }
      var listed := GetQuotes();
      if rendered.value.text in listed {
        return Err(Duplicate);
      }
      quotes := quotes + [q];
      return Ok(());
    }
  }
}
