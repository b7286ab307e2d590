/** The quote records of the page and the pure computations over the quote
    list: validating a new quote, the category options, filtering by
    category, choosing the quote to show, and the list a server sync leaves. */
module Quotes {
  import opened Wrappers
  import opened Sequences
  import opened JsString

  /** One `{ text, category }` record. */
  datatype Quote = Quote(text: string, category: string)

  /** The list the page starts from when nothing is stored. */
  const SeedQuotes: seq<Quote> := [
    Quote("The best way to predict the future is to create it.", "Motivation"),
    Quote("Life is 10% what happens to us and 90% how we react to it.", "Life"),
    Quote("Happiness depends upon ourselves.", "Happiness")
  ]

  /** The filter value that stands for "no filter". */
  const AllCategories: string := "all"

  // ---------------------------------------------------------------------
  // Adding a quote

  /** The record `addQuote` builds from the two input fields, or None when
      it rejects them: both are trimmed, and an empty result on either side
      is refused. */
  function NewQuote(rawText: string, rawCategory: string): (r: Option<Quote>)
    ensures r.Some? <==> !AllWhitespace(rawText) && !AllWhitespace(rawCategory)
    ensures r.Some? ==> r.value == Quote(Trim(rawText), Trim(rawCategory))
  {
    var text := Trim(rawText);
    var category := Trim(rawCategory);
    if text == "" || category == "" then None else Some(Quote(text, category))
  }

  /** An accepted record has non-empty fields without surrounding whitespace. */
  lemma NewQuoteIsClean(rawText: string, rawCategory: string)
    requires NewQuote(rawText, rawCategory).Some?
    ensures var q := NewQuote(rawText, rawCategory).value;
      && q.text != "" && q.category != ""
      && Trim(q.text) == q.text && Trim(q.category) == q.category
  {
    TrimIdempotent(rawText);
    TrimIdempotent(rawCategory);
  }

  // ---------------------------------------------------------------------
  // Category options

  /** `quotes.map(q => q.category)`. */
  function CategoryColumn(qs: seq<Quote>): (cs: seq<string>)
    ensures |cs| == |qs|
    ensures forall i :: 0 <= i < |qs| ==> cs[i] == qs[i].category
  {
    seq(|qs|, i requires 0 <= i < |qs| => qs[i].category)
  }

  /** `["all", ...new Set(quotes.map(q => q.category))]`: "all" first, then
      the categories of the list, each once. */
  function Categories(qs: seq<Quote>): (cats: seq<string>)
    ensures |cats| >= 1 && cats[0] == AllCategories
    ensures cats[1..] == Distinct(CategoryColumn(qs))
  {
    var d := Distinct(CategoryColumn(qs));
    assert ([AllCategories] + d)[1..] == d;
    [AllCategories] + d
  }

  /** The options after "all" name each category of the list exactly once,
      and nothing else. */
  lemma CategoriesContents(qs: seq<Quote>)
    ensures var tail := Categories(qs)[1..];
      && NoDuplicates(tail)
      && (forall i :: 0 <= i < |qs| ==> qs[i].category in tail)
      && (forall k :: 0 <= k < |tail| ==> exists i :: 0 <= i < |qs| && qs[i].category == tail[k])
  {
    var cs := CategoryColumn(qs);
    var tail := Categories(qs)[1..];
    forall i | 0 <= i < |qs| ensures qs[i].category in tail {
      assert cs[i] in tail;
    }
    forall k | 0 <= k < |tail| ensures exists i :: 0 <= i < |qs| && qs[i].category == tail[k] {
      assert tail[k] in cs;
      var i :| 0 <= i < |cs| && cs[i] == tail[k];
      assert qs[i].category == tail[k];
    }
  }

  /** The categories after "all" come in the order of their first records. */
  lemma CategoriesFirstSeenOrder(qs: seq<Quote>, a: nat, b: nat)
    requires a < b < |Categories(qs)[1..]|
    ensures var tail := Categories(qs)[1..];
      && tail[a] in CategoryColumn(qs) && tail[b] in CategoryColumn(qs)
      && FirstIndex(CategoryColumn(qs), tail[a]) < FirstIndex(CategoryColumn(qs), tail[b])
  {
    DistinctFirstSeenOrder(CategoryColumn(qs), a, b);
  }

  /** "all" is prepended outside the Set, so the options repeat "all"
      exactly when some record has the category "all". */
  lemma CategoriesNoDuplicatesIff(qs: seq<Quote>)
    ensures NoDuplicates(Categories(qs)) <==> forall i :: 0 <= i < |qs| ==> qs[i].category != AllCategories
  {
    var cats := Categories(qs);
    CategoriesContents(qs);
    if forall i :: 0 <= i < |qs| ==> qs[i].category != AllCategories {
      forall a, b | 0 <= a < b < |cats| ensures cats[a] != cats[b] {
        if a == 0 {
          var i :| 0 <= i < |qs| && qs[i].category == cats[b];
        } else {
          assert cats[a] == cats[1..][a - 1] && cats[b] == cats[1..][b - 1];
        }
      }
    } else {
      var i :| 0 <= i < |qs| && qs[i].category == AllCategories;
      assert AllCategories in cats[1..];
      var b :| 0 <= b < |cats[1..]| && cats[1..][b] == AllCategories;
      assert cats[0] == cats[b + 1];
    }
  }

  // ---------------------------------------------------------------------
  // Filtering

  /** `quotes.filter(q => q.category === category)`. */
  function MatchingCategory(qs: seq<Quote>, category: string): (r: seq<Quote>)
    ensures |r| <= |qs|
    ensures forall q :: q in r <==> q in qs && q.category == category
  {
    if qs == [] then []
    else
      var p := qs[..|qs| - 1];
      var q := qs[|qs| - 1];
      assert qs == p + [q];
      var r := MatchingCategory(p, category);
      if q.category == category then r + [q] else r
  }

  /** The positions of the records whose category is `category`, ascending. */
  function MatchingIndices(qs: seq<Quote>, category: string): (idx: seq<nat>)
    ensures forall k :: 0 <= k < |idx| ==> idx[k] < |qs|
    ensures forall k, l :: 0 <= k < l < |idx| ==> idx[k] < idx[l]
    ensures forall i :: 0 <= i < |qs| ==> (i in idx <==> qs[i].category == category)
  {
    if qs == [] then []
    else
      var p := qs[..|qs| - 1];
      var idx := MatchingIndices(p, category);
      assert forall i :: 0 <= i < |p| ==> p[i] == qs[i];
      if qs[|qs| - 1].category == category then idx + [|qs| - 1] else idx
  }

  /** The filter keeps exactly the matching records, in their original order. */
  lemma {:induction false} MatchingCategoryIsMatchingIndices(qs: seq<Quote>, category: string)
    ensures var r, idx := MatchingCategory(qs, category), MatchingIndices(qs, category);
      |r| == |idx| && forall k :: 0 <= k < |r| ==> r[k] == qs[idx[k]]
  {
    if qs != [] {
      var p := qs[..|qs| - 1];
      var q := qs[|qs| - 1];
      MatchingCategoryIsMatchingIndices(p, category);
      var r', idx' := MatchingCategory(p, category), MatchingIndices(p, category);
      var r, idx := MatchingCategory(qs, category), MatchingIndices(qs, category);
      if q.category == category {
        assert r == r' + [q] && idx == idx' + [|qs| - 1];
      } else {
        assert r == r' && idx == idx';
      }
      forall k | 0 <= k < |r| ensures r[k] == qs[idx[k]] {
        if k < |r'| {
          assert r[k] == r'[k] == p[idx'[k]] && idx[k] == idx'[k];
        }
      }
    }
  }

  /** The records the display draws from: the whole list for "all",
      otherwise the records of the chosen category. */
  function Filtered(qs: seq<Quote>, category: string): (r: seq<Quote>)
    ensures category == AllCategories ==> r == qs
    ensures category != AllCategories ==> forall q :: q in r <==> q in qs && q.category == category
  {
    if category == AllCategories then qs else MatchingCategory(qs, category)
  }

  // ---------------------------------------------------------------------
  // Choosing the quote to show

  /** What the display shows. */
  datatype Display = NoQuotesAvailable | Shown(quote: Quote)

  /** `displayRandomQuote(filtered)`, with the random draw given as `index`
      (the draw always lands in `[0, |filtered|)`): nothing to show on an
      empty list, otherwise the record at the drawn position. */
  function DisplayRandomQuote(filtered: seq<Quote>, index: nat): (d: Display)
    requires filtered != [] ==> index < |filtered|
    ensures d == NoQuotesAvailable <==> filtered == []
    ensures d.Shown? ==> index < |filtered| && d.quote == filtered[index]
  {
    if |filtered| == 0 then NoQuotesAvailable else Shown(filtered[index])
  }

  /** No record is out of the draw's reach. */
  lemma EveryQuoteCanBeShown(filtered: seq<Quote>, q: Quote)
    requires q in filtered
    ensures exists index :: 0 <= index < |filtered| && DisplayRandomQuote(filtered, index) == Shown(q)
  {
    var index :| 0 <= index < |filtered| && filtered[index] == q;
    assert DisplayRandomQuote(filtered, index) == Shown(q);
  }

  /** `filterQuotes()` for the selected `category`: a shown record is from the
      list and, under a real category, of that category; nothing is shown
      exactly when no record passes the filter. */
  function FilterQuotes(qs: seq<Quote>, category: string, index: nat): (d: Display)
    requires Filtered(qs, category) != [] ==> index < |Filtered(qs, category)|
    ensures d.Shown? ==> d.quote in qs
    ensures d.Shown? && category != AllCategories ==> d.quote.category == category
    ensures d == NoQuotesAvailable <==> forall q :: q in qs ==> category != AllCategories && q.category != category
  {
    var filtered := Filtered(qs, category);
    assert qs != [] ==> qs[0] in qs;
    assert filtered != [] ==> filtered[0] in filtered;
    DisplayRandomQuote(filtered, index)
  }

  // ---------------------------------------------------------------------
  // Server sync

  /** The list `syncQuotes` leaves behind: every server record, in order, is
      appended unless a record with the same text and category is already in
      the list, counting the records appended earlier in the same pass. */
  function Merge(local: seq<Quote>, server: seq<Quote>): (r: seq<Quote>)
    ensures |local| <= |r| && r[..|local|] == local
    ensures forall k :: 0 <= k < |server| ==> server[k] in r
    ensures forall k :: |local| <= k < |r| ==> r[k] in server
  {
    if server == [] then local
    else
      var p := server[..|server| - 1];
      var sq := server[|server| - 1];
      assert server == p + [sq];
      var m := Merge(local, p);
      if sq in m then m else m + [sq]
  }

  /** The server records that are not in `local`, in server order. */
  function NotIn(server: seq<Quote>, local: seq<Quote>): (r: seq<Quote>)
    ensures forall q :: q in r <==> q in server && q !in local
  {
    if server == [] then []
    else
      var p := server[..|server| - 1];
      var sq := server[|server| - 1];
      assert server == p + [sq];
      if sq in local then NotIn(p, local) else NotIn(p, local) + [sq]
  }

  /** Reference form of the merge: the local list followed by the new server
      records, each once, in the order the server first lists them. */
  lemma {:induction false} MergeIsLocalPlusNew(local: seq<Quote>, server: seq<Quote>)
    ensures Merge(local, server) == local + Distinct(NotIn(server, local))
  {
    if server != [] {
      var p := server[..|server| - 1];
      var sq := server[|server| - 1];
      MergeIsLocalPlusNew(local, p);
      var d := Distinct(NotIn(p, local));
      var n := NotIn(p, local);
      if sq in local {
        assert NotIn(server, local) == n;
      } else {
        assert NotIn(server, local) == n + [sq];
        assert (n + [sq])[..|n + [sq]| - 1] == n;
        if sq in d {
          assert sq in local + d;
        } else {
          assert sq !in local + d;
        }
      }
    }
  }

  /** The records a merge appends are pairwise different and new to the list. */
  lemma MergeAppendsOnlyNew(local: seq<Quote>, server: seq<Quote>)
    ensures var r := Merge(local, server);
      && NoDuplicates(r[|local|..])
      && forall k :: |local| <= k < |r| ==> r[k] !in local
  {
    MergeIsLocalPlusNew(local, server);
    var r := Merge(local, server);
    var d := Distinct(NotIn(server, local));
    assert r[|local|..] == d;
    forall k | |local| <= k < |r| ensures r[k] !in local {
      assert r[k] == d[k - |local|];
    }
  }

  /** A server list whose records are all present already adds nothing. */
  lemma {:induction false} MergeAllPresent(local: seq<Quote>, server: seq<Quote>)
    requires forall k :: 0 <= k < |server| ==> server[k] in local
    ensures Merge(local, server) == local
  {
    if server != [] {
      var p := server[..|server| - 1];
      assert forall k :: 0 <= k < |p| ==> p[k] == server[k];
      MergeAllPresent(local, p);
      assert server[|server| - 1] in local;
    }
  }

  /** Merging the same server list a second time changes nothing. */
  lemma MergeIdempotent(local: seq<Quote>, server: seq<Quote>)
    ensures Merge(Merge(local, server), server) == Merge(local, server)
  {
    MergeAllPresent(Merge(local, server), server);
  }

  /** The list grows exactly when some server record was not in it. */
  lemma MergeGrowsIff(local: seq<Quote>, server: seq<Quote>)
    ensures |Merge(local, server)| > |local| <==> exists k :: 0 <= k < |server| && server[k] !in local
  {
    if forall k :: 0 <= k < |server| ==> server[k] in local {
      MergeAllPresent(local, server);
    } else {
      var k :| 0 <= k < |server| && server[k] !in local;
      var r := Merge(local, server);
      assert server[k] in r;
      assert r[..|local|] == local;
    }
  }

  /** A record already in the list and a new one: only the new one is added. */
  lemma SyncScenario()
    ensures Merge([Quote("Be kind", "Ethics")],
                  [Quote("Be kind", "Ethics"), Quote("Dream big", "Motivation")])
         == [Quote("Be kind", "Ethics"), Quote("Dream big", "Motivation")]
  {
    var local := [Quote("Be kind", "Ethics")];
    var server := [Quote("Be kind", "Ethics"), Quote("Dream big", "Motivation")];
    assert server[..1] == [Quote("Be kind", "Ethics")];
    assert Merge(local, server[..1]) == local;
  }

  /** The options for three records over two categories. */
  lemma CategoriesScenario()
    ensures Categories([Quote("a", "X"), Quote("b", "Y"), Quote("c", "X")]) == ["all", "X", "Y"]
  {
    var cs := CategoryColumn([Quote("a", "X"), Quote("b", "Y"), Quote("c", "X")]);
    assert cs == ["X", "Y", "X"];
    assert cs[..2] == ["X", "Y"] && cs[..2][..1] == ["X"] && cs[..2][..1][..0] == [];
  }
}
