/** `searchBooks`: the paginated shelf search, with the server's answers to page 1, 2, 3, …
    given as a sequence. */
module Search {
  import opened Records

  /** The answer to one page request: the `ok` flag, the body text, and the parsed `books`. */
  datatype Page = Page(ok: bool, body: string, books: seq<Book>)

  /** A page after which the loop requests nothing more: a failure or an empty page. */
  predicate Stops(p: Page)
  {
    !p.ok || p.books == []
  }

  /** The server eventually answers with a failure or an empty page. */
  predicate Ends(pages: seq<Page>)
  {
    exists k :: 0 <= k < |pages| && Stops(pages[k])
  }

  /** The index of the first page that stops the loop. */
  function FirstStop(pages: seq<Page>): (k: nat)
    requires Ends(pages)
    ensures k < |pages| && Stops(pages[k])
    ensures forall j :: 0 <= j < k ==> !Stops(pages[j])
  {
    if Stops(pages[0]) then 0
    else
      assert Ends(pages[1..]) by {
        var k :| 0 <= k < |pages| && Stops(pages[k]);
        assert pages[1..][k - 1] == pages[k];
      }
      1 + FirstStop(pages[1..])
  }

  /** All books of the given pages, page after page. */
  function Concat(pages: seq<Page>): seq<Book>
  {
    if pages == [] then [] else pages[0].books + Concat(pages[1..])
  }

  /** The total number of books on the given pages. */
  function Total(pages: seq<Page>): nat
  {
    if pages == [] then 0 else |pages[0].books| + Total(pages[1..])
  }

  /** What `searchBooks` resolves to: the books of every page before the first empty page,
      or `undefined` (None) when a failure comes first. */
  function SearchResult(pages: seq<Page>): Option<seq<Book>>
    requires Ends(pages)
  {
    var k := FirstStop(pages);
    if pages[k].ok then Some(Concat(pages[..k])) else None
  }

  /** The requests for pages 1 to `count`, in that order. */
  function Requests(keyword: string, count: nat): seq<Effect>
  {
    seq(count, (j: nat) => Fetch(keyword, j + 1))
  }

  /** What `searchBooks` does on the way: one request per page up to the first stopping
      page, then an alert with the body if that page failed. */
  function SearchEffects(keyword: string, pages: seq<Page>): seq<Effect>
    requires Ends(pages)
  {
    var k := FirstStop(pages);
    Requests(keyword, k + 1) + if pages[k].ok then [] else [Alert(pages[k].body)]
  }

  lemma {:induction false} ConcatSnoc(pages: seq<Page>, p: Page)
    ensures Concat(pages + [p]) == Concat(pages) + p.books
  {
    if pages == [] {
      assert [p][1..] == [];
    } else {
      ConcatSnoc(pages[1..], p);
      assert (pages + [p])[1..] == pages[1..] + [p];
    }
  }

  method SearchBooks(keyword: string, pages: seq<Page>) returns (books: Option<seq<Book>>, effects: seq<Effect>)
    requires Ends(pages)
    ensures books == SearchResult(pages)
    ensures effects == SearchEffects(keyword, pages)
  {
    ghost var k := FirstStop(pages);
    var page := 1;
    var found: seq<Book> := [];
    effects := [];
    while true
      invariant 1 <= page <= k + 1
      invariant found == Concat(pages[..page - 1])
      invariant effects == Requests(keyword, page - 1)
      decreases k + 1 - page
    {
      effects := effects + [Fetch(keyword, page)];
      var res := pages[page - 1];
      if !res.ok {
        effects := effects + [Alert(res.body)];
        books := None;
        return;
      }
      if |res.books| == 0 {
        break;
      }
      ConcatSnoc(pages[..page - 1], res);
      assert pages[..page] == pages[..page - 1] + [res];
      found := found + res.books;
      page := page + 1;
    }
    books := Some(found);
  }

  /** The result has as many books as the pages before the stopping page hold together,
      and each of those pages held at least one. */
  lemma {:induction false} SearchLength(pages: seq<Page>)
    requires Ends(pages)
    ensures SearchResult(pages).Some? ==> |SearchResult(pages).value| == Total(pages[..FirstStop(pages)])
    ensures forall j :: 0 <= j < FirstStop(pages) ==> pages[j].ok && |pages[j].books| > 0
  {
    ConcatLength(pages[..FirstStop(pages)]);
  }

  lemma {:induction false} ConcatLength(pages: seq<Page>)
    ensures |Concat(pages)| == Total(pages)
  {
    if pages != [] {
      ConcatLength(pages[1..]);
    }
  }

  /** Any page that stops the loop, preceded only by full successful pages, is the first
      stopping page. */
  lemma FirstStopIs(pages: seq<Page>, k: nat)
    requires k < |pages| && Stops(pages[k])
    requires forall j :: 0 <= j < k ==> !Stops(pages[j])
    ensures Ends(pages) && FirstStop(pages) == k
  {
  }

  /** What the server would answer after the stopping page changes nothing: those pages
      are never requested. */
  lemma LaterPagesIgnored(keyword: string, pages: seq<Page>, later: seq<Page>)
    requires Ends(pages)
    ensures var k := FirstStop(pages);
      var seen := pages[..k + 1] + later;
      Ends(seen) && FirstStop(seen) == k &&
      SearchResult(seen) == SearchResult(pages) &&
      SearchEffects(keyword, seen) == SearchEffects(keyword, pages)
  {
    var k := FirstStop(pages);
    var seen := pages[..k + 1] + later;
    assert seen[..k] == pages[..k];
    assert forall j :: 0 <= j <= k ==> seen[j] == pages[j];
    FirstStopIs(seen, k);
  }

  /** The search fails as a whole exactly when some page fails before any page comes back
      empty; it never yields a partial list. */
  lemma SearchAllOrNothing(pages: seq<Page>)
    requires Ends(pages)
    ensures SearchResult(pages).None? <==>
      exists j :: 0 <= j < |pages| && !pages[j].ok &&
        forall i :: 0 <= i < j ==> pages[i].ok && pages[i].books != []
  {
    var k := FirstStop(pages);
    if exists j :: 0 <= j < |pages| && !pages[j].ok &&
        forall i :: 0 <= i < j ==> pages[i].ok && pages[i].books != [] {
      var j :| 0 <= j < |pages| && !pages[j].ok &&
        forall i :: 0 <= i < j ==> pages[i].ok && pages[i].books != [];
      FirstStopIs(pages, j);
    }
  }
}
