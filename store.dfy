/** The page's quote list as the program keeps it: one mutable list, changed
    in place by adding a quote, importing a file and syncing with the server,
    together with the copy last written to local storage. */
module Store {
  import opened Wrappers
  import opened Quotes

  class QuoteStore {
    /** The in-memory list of quotes, in insertion order. */
    var quotes: seq<Quote>
    /** The list last written under local storage's "quotes" key; None while
        nothing has been written. Only `saveQuotes` writes it, and it writes
        the whole list. */
    var saved: Option<seq<Quote>>

    /** Start-up: the stored list when there is one, else the three seed
        quotes. An empty stored list is kept, since an empty array is not a
        missing value. */
    constructor (stored: Option<seq<Quote>>)
      ensures saved == stored
      ensures quotes == if stored.Some? then stored.value else SeedQuotes
    {
      saved := stored;
      quotes := if stored.Some? then stored.value else SeedQuotes;
    }

    /** `saveQuotes()`. */
    method Save()
      modifies this
      ensures quotes == old(quotes)
      ensures saved == Some(quotes)
    {
      saved := Some(quotes);
    }

    /** `addQuote()` with the two input fields as read from the form: a
        rejected input leaves the list and the stored copy alone; an accepted
        one appends exactly one trimmed record at the end and is saved. */
    method AddQuote(newQuoteText: string, newQuoteCategory: string) returns (added: bool)
      modifies this
      ensures added <==> NewQuote(newQuoteText, newQuoteCategory).Some?
      ensures added ==> quotes == old(quotes) + [NewQuote(newQuoteText, newQuoteCategory).value]
      ensures !added ==> quotes == old(quotes) && saved == old(saved)
      ensures added ==> saved == Some(quotes)
    {
      var q := NewQuote(newQuoteText, newQuoteCategory);
      if q.None? {
        return false;
      }
      quotes := quotes + [q.value];
      Save();
      added := true;
    }

    /** The `onload` handler of `importFromJsonFile`, given the parsed file
        (None when parsing throws): the parsed records are appended in order
        and saved; on a parse failure nothing changes. */
    method ImportFromJsonFile(parsed: Option<seq<Quote>>) returns (imported: bool)
      modifies this
      ensures imported <==> parsed.Some?
      ensures imported ==> quotes == old(quotes) + parsed.value && saved == Some(quotes)
      ensures !imported ==> quotes == old(quotes) && saved == old(saved)
    {
      if parsed.None? {
        return false;
      }
      quotes := quotes + parsed.value;
      Save();
      imported := true;
    }

    /** `syncQuotes()` once the server list has arrived: each server record
        is appended unless an equal record is present, and the list is saved
        only when it grew. */
    method SyncQuotes(serverQuotes: seq<Quote>) returns (updated: bool)
      modifies this
      ensures quotes == Merge(old(quotes), serverQuotes)
      ensures updated <==> |quotes| > |old(quotes)|
      ensures saved == if updated then Some(quotes) else old(saved)
    {
      updated := false;
      var i := 0;
      while i < |serverQuotes|
        invariant 0 <= i <= |serverQuotes|
        invariant quotes == Merge(old(quotes), serverQuotes[..i])
        invariant updated <==> |quotes| > |old(quotes)|
        invariant saved == old(saved)
      {
        var sq := serverQuotes[i];
        assert serverQuotes[..i + 1][..i] == serverQuotes[..i];
        if !HasEqual(quotes, sq) {
          quotes := quotes + [sq];
          updated := true;
        }
        i := i + 1;
      }
      assert serverQuotes[..i] == serverQuotes;
      if updated {
        Save();
      }
    }
  }

  /** `quotes.some(q => q.text === sq.text && q.category === sq.category)`:
      field-wise equality is record equality. */
  function HasEqual(qs: seq<Quote>, sq: Quote): (b: bool)
    ensures b <==> sq in qs
  {
    exists i | 0 <= i < |qs| :: qs[i].text == sq.text && qs[i].category == sq.category
  }

  /** Two sync passes against an unchanged server list: the second one adds
      nothing and does not save. */
  method SyncTwice(store: QuoteStore, serverQuotes: seq<Quote>) returns (first: bool, second: bool)
    modifies store
    ensures store.quotes == Merge(old(store.quotes), serverQuotes)
    ensures first <==> exists k :: 0 <= k < |serverQuotes| && serverQuotes[k] !in old(store.quotes)
    ensures !second
    ensures store.saved == if first then Some(store.quotes) else old(store.saved)
  {
    first := store.SyncQuotes(serverQuotes);
    MergeGrowsIff(old(store.quotes), serverQuotes);
    second := store.SyncQuotes(serverQuotes);
    MergeIdempotent(old(store.quotes), serverQuotes);
  }
}
