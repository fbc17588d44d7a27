/** The bulk-apply box: a text input whose Enter key searches the shelf by keyword and adds
    one fixed tag to every book found, one write per book that lacks it. */
module BulkApply {
  import opened Records
  import opened Wire
  import opened Search

  /** The tag the box adds ("for transfer or sale"). */
  const AddTag: string := "譲渡・売却"

  /** `event.keyCode` of the Enter key. */
  const EnterKey: int := 13

  /** A book with `tag` pushed onto its tags. */
  function WithTag(book: Book, tag: string): Book
  {
    book.(tags := book.tags + [tag])
  }

  /** The books that lack `tag`, in list order. */
  function Lacking(books: seq<Book>, tag: string): (r: seq<Book>)
    ensures forall b :: b in r <==> b in books && tag !in b.tags
    ensures |r| <= |books|
  {
    if books == [] then []
    else
      var last := books[|books| - 1];
      assert books == books[..|books| - 1] + [last];
      Lacking(books[..|books| - 1], tag) + if tag in last.tags then [] else [last]
  }

  /** What handling item `i` of `books` does: show the counter `i+1 / n` first, then write
      the book with `tag` appended unless it already has the tag. */
  function ItemEffects(books: seq<Book>, tag: string, i: nat): seq<Effect>
    requires i < |books|
  {
    [Show(ProgressText(i + 1, |books|))] +
    if tag in books[i].tags then [] else [Post(RequestBody(WithTag(books[i], tag)))]
  }

  /** What handling the first `i` items does, item after item. */
  function ApplyEffects(books: seq<Book>, tag: string, i: nat): seq<Effect>
    requires i <= |books|
  {
    if i == 0 then [] else ApplyEffects(books, tag, i - 1) + ItemEffects(books, tag, i - 1)
  }

  /** The write requests among `effects`, in order. */
  function Posts(effects: seq<Effect>): seq<TagRequest>
  {
    if effects == [] then []
    else
      var last := effects[|effects| - 1];
      Posts(effects[..|effects| - 1]) + if last.Post? then [last.request] else []
  }

  /** The progress texts among `effects`, in order. */
  function Shows(effects: seq<Effect>): seq<string>
  {
    if effects == [] then []
    else
      var last := effects[|effects| - 1];
      Shows(effects[..|effects| - 1]) + if last.Show? then [last.text] else []
  }

  lemma {:induction false} PostsShowsAppend(a: seq<Effect>, b: seq<Effect>)
    ensures Posts(a + b) == Posts(a) + Posts(b)
    ensures Shows(a + b) == Shows(a) + Shows(b)
    decreases |b|
  {
    if b == [] {
      assert a + b == a;
    } else {
      var b' := b[..|b| - 1];
      assert (a + b)[..|a + b| - 1] == a + b';
      assert (a + b)[|a + b| - 1] == b[|b| - 1];
      PostsShowsAppend(a, b');
    }
  }

  lemma OneEffect(e: Effect)
    ensures Posts([e]) == if e.Post? then [e.request] else []
    ensures Shows([e]) == if e.Show? then [e.text] else []
  {
    assert [e][..0] == [];
  }

  /** One write per book of `books`, in order, each with `tag` appended. */
  function TaggedBodies(books: seq<Book>, tag: string): (r: seq<TagRequest>)
    ensures |r| == |books|
    ensures forall j :: 0 <= j < |books| ==> r[j] == RequestBody(WithTag(books[j], tag))
  {
    if books == [] then []
    else TaggedBodies(books[..|books| - 1], tag) + [RequestBody(WithTag(books[|books| - 1], tag))]
  }

  /** The writes of the first `i` items are exactly one per book among them that lacks the
      tag, in list order, each carrying that book's tags with the tag appended. */
  lemma ApplyStep(books: seq<Book>, tag: string, i: nat)
    requires 0 < i <= |books|
    ensures Posts(ApplyEffects(books, tag, i)) ==
      Posts(ApplyEffects(books, tag, i - 1)) +
      if tag in books[i - 1].tags then [] else [RequestBody(WithTag(books[i - 1], tag))]
  {
    var b := books[i - 1];
    var show := [Show(ProgressText(i, |books|))];
    var post := if tag in b.tags then [] else [Post(RequestBody(WithTag(b, tag)))];
    var prev := ApplyEffects(books, tag, i - 1);
    PostsShowsAppend(prev, show + post);
    PostsShowsAppend(show, post);
    assert Posts(show) == [] by {
      assert show[..0] == [];
    }
    if post != [] {
      assert post[..0] == [];
    }
  }

  lemma LackingStep(books: seq<Book>, tag: string, i: nat)
    requires 0 < i <= |books|
    ensures TaggedBodies(Lacking(books[..i], tag), tag) ==
      TaggedBodies(Lacking(books[..i - 1], tag), tag) +
      if tag in books[i - 1].tags then [] else [RequestBody(WithTag(books[i - 1], tag))]
  {
    var b := books[i - 1];
    var l := Lacking(books[..i - 1], tag);
    assert books[..i][..i - 1] == books[..i - 1] && books[..i][i - 1] == b;
    if tag !in b.tags {
      assert (l + [b])[..|l|] == l;
    }
  }

  /** The writes of the first `i` items are exactly one per book among them that lacks the
      tag, in list order, each carrying that book's tags with the tag appended. */
  lemma {:induction false} ApplyWrites(books: seq<Book>, tag: string, i: nat)
    requires i <= |books|
    ensures Posts(ApplyEffects(books, tag, i)) == TaggedBodies(Lacking(books[..i], tag), tag)
  {
    if i == 0 {
      assert books[..i] == [];
    } else {
      ApplyWrites(books, tag, i - 1);
      ApplyStep(books, tag, i);
      LackingStep(books, tag, i);
    }
  }

  /** Handling item `i-1` adds exactly its progress text to the texts shown so far. */
  lemma ShowsStep(books: seq<Book>, tag: string, i: nat)
    requires 0 < i <= |books|
    ensures Shows(ApplyEffects(books, tag, i)) ==
      Shows(ApplyEffects(books, tag, i - 1)) + [ProgressText(i, |books|)]
  {
    var b := books[i - 1];
    var show := [Show(ProgressText(i, |books|))];
    var post := if tag in b.tags then [] else [Post(RequestBody(WithTag(b, tag)))];
    PostsShowsAppend(ApplyEffects(books, tag, i - 1), show + post);
    PostsShowsAppend(show, post);
    OneEffect(show[0]);
    if post != [] {
      OneEffect(post[0]);
    }
  }

  /** Before item `i` is handled the counter reads `i+1 / n`, for every item in order. */
  lemma {:induction false} ApplyShows(books: seq<Book>, tag: string, i: nat)
    requires i <= |books|
    ensures |Shows(ApplyEffects(books, tag, i))| == i
    ensures forall j :: 0 <= j < i ==> Shows(ApplyEffects(books, tag, i))[j] == ProgressText(j + 1, |books|)
  {
    if i > 0 {
      ApplyShows(books, tag, i - 1);
      ShowsStep(books, tag, i);
      var prev := Shows(ApplyEffects(books, tag, i - 1));
      var cur := Shows(ApplyEffects(books, tag, i));
      assert cur == prev + [ProgressText(i, |books|)];
      forall j | 0 <= j < i
        ensures cur[j] == ProgressText(j + 1, |books|)
      {
        if j < i - 1 {
          assert cur[j] == prev[j];
        }
      }
    }
  }

  /** Over the whole list: the write count is the number of books lacking the tag, a book
      that already has it is never written, and each write decodes to the book's old tags
      followed by the tag once. */
  lemma BulkWrites(books: seq<Book>, tag: string)
    requires WireSafe([tag])
    ensures var writes := Posts(ApplyEffects(books, tag, |books|));
      |writes| == |Lacking(books, tag)| &&
      (forall j :: 0 <= j < |writes| ==>
        writes[j].id == Lacking(books, tag)[j].id &&
        (WireSafe(Lacking(books, tag)[j].tags) ==>
          Split(writes[j].tags) == Lacking(books, tag)[j].tags + [tag])) &&
      (forall b :: b in books && tag in b.tags ==> b !in Lacking(books, tag))
  {
    ApplyWrites(books, tag, |books|);
    assert books[..|books|] == books;
    var lacking := Lacking(books, tag);
    assert Posts(ApplyEffects(books, tag, |books|)) == TaggedBodies(lacking, tag);
    forall j | 0 <= j < |lacking| && WireSafe(lacking[j].tags)
      ensures Split(RequestBody(WithTag(lacking[j], tag)).tags) == lacking[j].tags + [tag]
    {
      WriteDecodes(lacking[j], tag);
    }
  }

  /** One book's write decodes to its old tags followed by the bulk tag. */
  lemma WriteDecodes(b: Book, tag: string)
    requires WireSafe([tag]) && WireSafe(b.tags)
    ensures Split(RequestBody(WithTag(b, tag)).tags) == b.tags + [tag]
  {
    assert forall t :: t in b.tags + [tag] ==> t in b.tags || t == tag;
    assert tag in [tag];
    RequestRoundTrip(WithTag(b, tag));
  }

  /** The bulk tag is non-empty and has no space, so the space-joined encoding carries it. */
  lemma AddTagSafe()
    ensures WireSafe([AddTag])
  {
    forall t | t in [AddTag] ensures t != "" && Separator !in t {
      assert t == AddTag;
    }
  }

  lemma {:induction false} PostsOfRequests(keyword: string, n: nat)
    ensures Posts(Requests(keyword, n)) == []
  {
    if n > 0 {
      var r := Requests(keyword, n);
      assert r[..n - 1] == Requests(keyword, n - 1);
      PostsOfRequests(keyword, n - 1);
    }
  }

  /** The search issues no write, whether it succeeds or fails. */
  lemma SearchWritesNothing(keyword: string, pages: seq<Page>)
    requires Ends(pages)
    ensures Posts(SearchEffects(keyword, pages)) == []
  {
    var k := FirstStop(pages);
    var tail: seq<Effect> := if pages[k].ok then [] else [Alert(pages[k].body)];
    PostsOfRequests(keyword, k + 1);
    PostsShowsAppend(Requests(keyword, k + 1), tail);
    if tail != [] {
      OneEffect(tail[0]);
    }
  }

  /** Closing the handler (clearing the counter, beeping) writes nothing. */
  lemma TraceWrites(search: seq<Effect>, apply: seq<Effect>, cue: Cue)
    requires Posts(search) == []
    ensures Posts(search + apply + [Show(""), Beep(cue)]) == Posts(apply)
  {
    var last: seq<Effect> := [Show(""), Beep(cue)];
    PostsShowsAppend(search + apply, last);
    PostsShowsAppend(search, apply);
    var first: seq<Effect> := [Show("")];
    assert last[..|last| - 1] == first && !last[|last| - 1].Post?;
    assert first[..|first| - 1] == [] && !first[|first| - 1].Post?;
  }

  /** The writes in the whole trace of an Enter press with a non-empty keyword: none when
      the search fails; otherwise one per found book lacking the bulk tag, in list order,
      each decoding to that book's tags followed by the bulk tag. */
  lemma HandlerWrites(keyword: string, pages: seq<Page>, cue: Cue)
    requires Ends(pages)
    ensures SearchResult(pages).None? ==> Posts(SearchEffects(keyword, pages)) == []
    ensures SearchResult(pages).Some? ==>
      var books := SearchResult(pages).value;
      var writes := Posts(SearchEffects(keyword, pages) + ApplyEffects(books, AddTag, |books|) +
                          [Show(""), Beep(cue)]);
      writes == TaggedBodies(Lacking(books, AddTag), AddTag) &&
      forall j :: 0 <= j < |writes| && WireSafe(Lacking(books, AddTag)[j].tags) ==>
        Split(writes[j].tags) == Lacking(books, AddTag)[j].tags + [AddTag]
  {
    SearchWritesNothing(keyword, pages);
    if SearchResult(pages).Some? {
      var books := SearchResult(pages).value;
      TraceWrites(SearchEffects(keyword, pages), ApplyEffects(books, AddTag, |books|), cue);
      ApplyWrites(books, AddTag, |books|);
      assert books[..|books|] == books;
      AddTagSafe();
      BulkWrites(books, AddTag);
    }
  }

  /** Two books found, the first without the tag and the second with it: one write, for
      the first book, with the tag appended; none for the second. */
  lemma TwoBookExample()
    ensures Posts(ApplyEffects([Book("1", "s", ["A"]), Book("2", "s", ["A", "X"])], "X", 2)) ==
      [RequestBody(Book("1", "s", ["A", "X"]))]
  {
    var a, b := Book("1", "s", ["A"]), Book("2", "s", ["A", "X"]);
    var books := [a, b];
    ApplyWrites(books, "X", 2);
    assert books[..2] == books;
    assert "X" !in a.tags by {
      assert a.tags[0] == "A";
    }
    assert "X" in b.tags by {
      assert b.tags[1] == "X";
    }
    assert books[..1] == [a];
    assert Lacking(books, "X") == [a];
    assert WithTag(a, "X") == Book("1", "s", ["A", "X"]);
  }

  /** The box next to the shelf menu: the input (`value`, `disabled`) and the progress span. */
  class AddTagsBox {
    var value: string
    var disabled: bool
    var disp: string

    constructor ()
      ensures value == "" && !disabled && disp == ""
    {
      value, disabled, disp := "", false, "";
    }

    /** The loop over the found books: show the counter `i+1 / n`, then append the bulk tag
        to each book that lacks it and write that book. */
    method TagAll(found: seq<Book>) returns (effects: seq<Effect>)
      modifies this
      ensures effects == ApplyEffects(found, AddTag, |found|)
      ensures value == old(value) && disabled == old(disabled)
      ensures disp == if found == [] then old(disp) else ProgressText(|found|, |found|)
    {
      ghost var fetched := found;
      var books := found;
      effects := [];
      for i := 0 to |books|
        invariant |books| == |fetched| && books[i..] == fetched[i..]
        invariant effects == ApplyEffects(fetched, AddTag, i)
        invariant value == old(value) && disabled == old(disabled)
        invariant disp == if i == 0 then old(disp) else ProgressText(i, |books|)
      {
        assert books[i] == fetched[i] by {
          assert books[i..][0] == fetched[i..][0];
        }
        disp := ProgressText(i + 1, |books|);
        effects := effects + [Show(disp)];
        var book := books[i];
        if AddTag in book.tags {
          continue;
        }
        book := book.(tags := book.tags + [AddTag]);
        ghost var unwritten := books;
        books := books[i := book];
        effects := effects + [Post(RequestBody(book))];
        assert books[i + 1..] == unwritten[i + 1..];
      }
    }

    /** The keypress handler, with the server's answers to the search given as `pages`. The
        write responses are not read by the handler, so they are not inputs here. */
    method OnKeyPress(keyCode: int, pages: seq<Page>) returns (effects: seq<Effect>)
      requires keyCode == EnterKey && value != "" ==> Ends(pages)
      modifies this
      ensures keyCode != EnterKey ==> effects == [] && unchanged(this)
      ensures keyCode == EnterKey && old(value) == "" ==> effects == [Beep(Ng)] && unchanged(this)
      ensures keyCode == EnterKey && old(value) != "" && SearchResult(pages).None? ==>
        effects == SearchEffects(old(value), pages) &&
        disabled && value == old(value) && disp == old(disp)
      ensures keyCode == EnterKey && old(value) != "" && SearchResult(pages).Some? ==>
        var books := SearchResult(pages).value;
        effects == SearchEffects(old(value), pages) + ApplyEffects(books, AddTag, |books|) +
                   [Show(""), Beep(if |books| > 0 then Ok else Ng)] &&
        value == "" && !disabled && disp == ""
    {
      if keyCode != EnterKey {
        return [];
      }
      var keyword := value;
      if keyword == "" {
        return [Beep(Ng)];
      }
      disabled := true;
      var found;
      found, effects := SearchBooks(keyword, pages);
      if found.None? {
        // `books.length` on `undefined` throws: the handler stops here.
        return;
      }
      var books := found.value;
      var written := TagAll(books);
      effects := effects + written;
      disp := "";
      effects := effects + [Show(disp)];
      value := "";
      disabled := false;
      effects := effects + [Beep(if |books| > 0 then Ok else Ng)];
    }
  }
}
