/** The per-item tag buttons: how the polling pass injects them into each rendered shelf
    item, how one button toggles its tag, and how the header button shows or hides them all. */
module Decorate {
  import opened Records
  import opened TagList
  import opened Wire

  /** The two backgrounds a tag button takes. */
  datatype Color = Red | White

  /** The `hasTag ? "red" : "white"` choice. */
  function ColorFor(tags: seq<string>, tag: string): Color
  {
    if tag in tags then Red else White
  }

  /** One tag button: its text and its background. */
  class TagButton {
    const text: string
    var color: Color

    constructor (text: string, color: Color)
      ensures this.text == text && this.color == color
    {
      this.text := text;
      this.color := color;
    }
  }

  /** A `div.tag-buttons` group: its buttons in order, and its `hidden` flag. */
  class TagButtons {
    var buttons: seq<TagButton>
    var hidden: bool

    constructor ()
      ensures buttons == [] && !hidden
    {
      buttons := [];
      hidden := false;
    }
  }

  /** A `.item-wrapper`: its parsed `data-book` (None when absent), its `data-injected`
      marker, and the tag-button groups appended to it. */
  class Wrapper {
    var book: Option<Book>
    var injected: bool
    var groups: seq<TagButtons>

    constructor (book: Option<Book>)
      ensures this.book == book && !injected && groups == []
    {
      this.book := book;
      injected := false;
      groups := [];
    }
  }

  /** `g` holds one button per catalog tag, in catalog order, red exactly on the tags in `tags`. */
  ghost predicate ShowsCatalog(g: TagButtons, catalog: seq<string>, tags: seq<string>)
    reads g, g.buttons
  {
    |g.buttons| == |catalog| &&
    forall j :: 0 <= j < |catalog| ==>
      g.buttons[j].text == catalog[j] && g.buttons[j].color == ColorFor(tags, catalog[j])
  }

  /** `makeTagButtons` from `genMakeTagButtons(catalog)`, applied to one wrapper. */
  method MakeTagButtons(catalog: seq<string>, wrapper: Wrapper)
    modifies wrapper
    ensures wrapper.book == old(wrapper.book)
    ensures old(wrapper.injected) || old(wrapper.book).None? ==> unchanged(wrapper)
    ensures !old(wrapper.injected) && old(wrapper.book).Some? ==>
      wrapper.injected &&
      |wrapper.groups| == |old(wrapper.groups)| + 1 &&
      wrapper.groups[..|old(wrapper.groups)|] == old(wrapper.groups) &&
      var g := wrapper.groups[|old(wrapper.groups)|];
      fresh(g) && !g.hidden &&
      ShowsCatalog(g, catalog, wrapper.book.value.tags) &&
      (forall j :: 0 <= j < |g.buttons| ==> fresh(g.buttons[j])) &&
      (forall j, k :: 0 <= j < k < |g.buttons| ==> g.buttons[j] != g.buttons[k])
  {
    if wrapper.injected {
      return;
    }
    if wrapper.book.None? {
      return;
    }
    var book := wrapper.book.value;
    var group := new TagButtons();
    for i := 0 to |catalog|
      invariant unchanged(wrapper)
      invariant fresh(group) && !group.hidden && |group.buttons| == i
      invariant forall j :: 0 <= j < i ==>
        fresh(group.buttons[j]) && group.buttons[j].text == catalog[j] &&
        group.buttons[j].color == ColorFor(book.tags, catalog[j])
      invariant forall j, k :: 0 <= j < k < i ==> group.buttons[j] != group.buttons[k]
    {
      var tag := catalog[i];
      var hasTag := tag in book.tags;
      var button := new TagButton(tag, if hasTag then Red else White);
      group.buttons := group.buttons + [button];
    }
    wrapper.groups := wrapper.groups + [group];
    wrapper.injected := true;
  }

  /** Every wrapper is decorated or has no book data: what one polling pass leaves behind. */
  ghost predicate Settled(wrappers: seq<Wrapper>)
    reads wrappers
  {
    forall w :: w in wrappers ==> w.injected || w.book.None?
  }

  /** One pass of the polling loop in `main` over the wrappers currently in the page. */
  method Pass(catalog: seq<string>, wrappers: seq<Wrapper>)
    modifies wrappers
    ensures Settled(wrappers)
    ensures old(Settled(wrappers)) ==> forall w :: w in wrappers ==> unchanged(w)
    ensures forall w :: w in wrappers ==> w.book == old(w.book)
    ensures forall w :: w in wrappers && (old(w.injected) || old(w.book).None?) ==>
      w.injected == old(w.injected) && w.groups == old(w.groups)
    ensures forall w :: w in wrappers && !old(w.injected) && old(w.book).Some? ==>
      w.injected &&
      |w.groups| == |old(w.groups)| + 1 &&
      w.groups[..|old(w.groups)|] == old(w.groups) &&
      fresh(w.groups[|old(w.groups)|]) &&
      ShowsCatalog(w.groups[|old(w.groups)|], catalog, w.book.value.tags)
    ensures forall v, w ::
      (v in wrappers && w in wrappers && v != w &&
       !old(v.injected) && old(v.book).Some? && !old(w.injected) && old(w.book).Some?) ==>
      v.groups[|old(v.groups)|] != w.groups[|old(w.groups)|]
  {
    for i := 0 to |wrappers|
      invariant forall w :: w in wrappers ==> w.book == old(w.book)
      invariant old(Settled(wrappers)) ==> forall w :: w in wrappers ==> unchanged(w)
      invariant forall w :: w in wrappers[..i] ==> w.injected || w.book.None?
      invariant forall w :: w in wrappers && (old(w.injected) || old(w.book).None?) ==>
        w.injected == old(w.injected) && w.groups == old(w.groups)
      invariant forall w :: w in wrappers && w !in wrappers[..i] ==>
        w.injected == old(w.injected) && w.groups == old(w.groups)
      invariant forall w :: w in wrappers[..i] && !old(w.injected) && old(w.book).Some? ==>
        w.injected &&
        |w.groups| == |old(w.groups)| + 1 &&
        w.groups[..|old(w.groups)|] == old(w.groups) &&
        fresh(w.groups[|old(w.groups)|]) &&
        ShowsCatalog(w.groups[|old(w.groups)|], catalog, w.book.value.tags)
      invariant forall v, w ::
        (v in wrappers[..i] && w in wrappers[..i] && v != w &&
         !old(v.injected) && old(v.book).Some? && !old(w.injected) && old(w.book).Some?) ==>
        v.groups[|old(v.groups)|] != w.groups[|old(w.groups)|]
    {
      if wrappers[i].injected {
        continue;
      }
      MakeTagButtons(catalog, wrappers[i]);
    }
  }

  /** The click handler `genToggleTag(wrapper, button, tag)` returns, with the response to
      its write given as `res`. */
  method ToggleTag(wrapper: Wrapper, button: TagButton, tag: string, res: Response) returns (effects: seq<Effect>)
    modifies wrapper, button
    ensures wrapper.injected == old(wrapper.injected) && wrapper.groups == old(wrapper.groups)
    ensures old(wrapper.book).None? ==> effects == [] && unchanged(wrapper, button)
    ensures old(wrapper.book).Some? ==>
      var before := old(wrapper.book).value;
      var after := before.(tags := Toggled(before.tags, tag));
      if res.ok then
        effects == [Post(RequestBody(after))] &&
        wrapper.book == Some(after) &&
        button.color == (if tag in before.tags then White else Red)
      else
        effects == [Post(RequestBody(after)), Alert(res.body)] &&
        wrapper.book == old(wrapper.book) && button.color == old(button.color)
  {
    if wrapper.book.None? {
      // JSON.parse of a missing attribute throws before anything else happens.
      return [];
    }
    var book := wrapper.book.value;
    var tags := book.tags;
    var hasTag := tag in tags;
    if hasTag {
      var i := IndexOf(tags, tag);
      tags := tags[..i] + tags[i + 1..];
    } else {
      tags := tags + [tag];
    }
    book := book.(tags := tags);
    effects := [Post(RequestBody(book))];
    if res.ok {
      button.color := if !hasTag then Red else White;
      wrapper.book := Some(book);
    } else {
      effects := effects + [Alert(res.body)];
    }
  }

  /** After a successful toggle the button shows what a fresh decoration of the stored
      record would show, red exactly when the tag is now present, provided the toggled tag
      occurred at most once. */
  lemma ToggleColorMatchesDecoration(tags: seq<string>, tag: string)
    requires multiset(tags)[tag] <= 1
    ensures ColorFor(Toggled(tags, tag), tag) == if tag in tags then White else Red
  {
    ToggledCount(tags, tag);
    if tag in tags {
      assert multiset(Toggled(tags, tag))[tag] == 0;
    } else {
      assert Toggled(tags, tag)[|tags|] == tag;
    }
  }

  /** With the toggled tag present two or more times, the splice leaves a copy in the list:
      the button turns white although a fresh decoration of the stored record paints it red. */
  lemma ToggleColorStaleOnDuplicate(tags: seq<string>, tag: string)
    requires multiset(tags)[tag] >= 2
    ensures tag in Toggled(tags, tag)
    ensures ColorFor(Toggled(tags, tag), tag) == Red
  {
    ToggledCount(tags, tag);
    assert tag in tags;
    assert multiset(Toggled(tags, tag))[tag] >= 1;
  }

  /** The header "tags" button: `show` stands for `data-show === "show"`. */
  class TagsButton {
    var show: bool

    constructor ()
      ensures !show
    {
      show := false;
    }

    /** The click handler, over the `.tag-buttons` groups present in the page. Every group
        ends hidden exactly when the flag is now set, so the flag always says whether the
        groups are hidden and the next click flips them back. */
    method Click(groups: seq<TagButtons>)
      modifies this, groups
      ensures show == !old(show)
      ensures forall g :: g in groups ==> g.hidden == show && g.buttons == old(g.buttons)
    {
      var wasShow := show;
      for i := 0 to |groups|
        invariant show == wasShow
        invariant forall g :: g in groups[..i] ==> g.hidden == !wasShow
        invariant forall g :: g in groups ==> g.buttons == old(g.buttons)
      {
        groups[i].hidden := !wasShow;
      }
      show := !wasShow;
    }
  }
}
