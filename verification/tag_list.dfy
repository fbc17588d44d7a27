/** A book's tag list and the in-place edit the per-item toggle button applies to it. */
module TagList {

  /** No tag occurs twice: the shape the host service keeps a book's tags in. */
  predicate NoDup(tags: seq<string>)
  {
    forall i, j :: 0 <= i < j < |tags| ==> tags[i] != tags[j]
  }

  /** `Array.prototype.indexOf` on a list known to hold `t`: the first position of `t`. */
  function IndexOf(tags: seq<string>, t: string): (i: nat)
    requires t in tags
    ensures i < |tags| && tags[i] == t
    ensures t !in tags[..i]
  {
    if tags[0] == t then 0
    else
      assert tags == [tags[0]] + tags[1..];
      var k := IndexOf(tags[1..], t);
      assert tags[..k + 1] == [tags[0]] + tags[1..][..k];
      k + 1
  }

  /** The list after one toggle: the first occurrence of `t` spliced out when `t` is
      present, `t` pushed onto the end when it is absent. */
  function Toggled(tags: seq<string>, t: string): seq<string>
  {
    if t in tags then
      var i := IndexOf(tags, t);
      tags[..i] + tags[i + 1..]
    else
      tags + [t]
  }

  /** Removing keeps every other tag, in order, around the first occurrence of `t`;
      adding puts `t` at the end; either way one copy of `t` leaves or joins the list. */
  lemma ToggledShape(tags: seq<string>, t: string)
    ensures t in tags ==>
      exists i :: 0 <= i < |tags| && tags[i] == t && t !in tags[..i] &&
                  Toggled(tags, t) == tags[..i] + tags[i + 1..]
    ensures t !in tags ==> Toggled(tags, t) == tags + [t]
    ensures multiset(Toggled(tags, t)) ==
      if t in tags then multiset(tags) - multiset{t} else multiset(tags) + multiset{t}
  {
    ToggledCount(tags, t);
  }

  /** One copy of `t` leaves the list or joins it. */
  lemma ToggledCount(tags: seq<string>, t: string)
    ensures multiset(Toggled(tags, t)) ==
      if t in tags then multiset(tags) - multiset{t} else multiset(tags) + multiset{t}
  {
    if t in tags {
      var i := IndexOf(tags, t);
      assert tags == tags[..i] + [t] + tags[i + 1..];
    }
  }

  /** Position `a` of a list with position `i` spliced out. */
  lemma SplicedAt(tags: seq<string>, i: nat, a: nat)
    requires i < |tags| && a < |tags| - 1
    ensures (tags[..i] + tags[i + 1..])[a] == tags[if a < i then a else a + 1]
  {
  }

  lemma SplicedNoDup(tags: seq<string>, i: nat)
    requires NoDup(tags) && i < |tags|
    ensures NoDup(tags[..i] + tags[i + 1..])
  {
    var r := tags[..i] + tags[i + 1..];
    forall a, b | 0 <= a < b < |r| ensures r[a] != r[b] {
      SplicedAt(tags, i, a);
      SplicedAt(tags, i, b);
    }
  }

  lemma SplicedMembers(tags: seq<string>, i: nat, u: string)
    requires NoDup(tags) && i < |tags|
    ensures u in tags[..i] + tags[i + 1..] <==> u in tags && u != tags[i]
  {
    var r := tags[..i] + tags[i + 1..];
    if u in r {
      var k :| 0 <= k < |r| && r[k] == u;
      SplicedAt(tags, i, k);
    }
    if u in tags && u != tags[i] {
      var m :| 0 <= m < |tags| && tags[m] == u;
      var m' := if m < i then m else m - 1;
      SplicedAt(tags, i, m');
    }
  }

  lemma RemovedMembership(tags: seq<string>, t: string)
    requires NoDup(tags) && t in tags
    ensures NoDup(Toggled(tags, t))
    ensures forall u :: u in Toggled(tags, t) <==> u in tags && u != t
  {
    var i := IndexOf(tags, t);
    SplicedNoDup(tags, i);
    forall u ensures u in Toggled(tags, t) <==> u in tags && u != t {
      SplicedMembers(tags, i, u);
    }
  }

  lemma AddedMembership(tags: seq<string>, t: string)
    requires NoDup(tags) && t !in tags
    ensures NoDup(Toggled(tags, t))
    ensures forall u :: u in Toggled(tags, t) <==> u in tags || u == t
  {
    var r := Toggled(tags, t);
    assert r == tags + [t];
    forall a, b | 0 <= a < b < |r| ensures r[a] != r[b] {
      assert r[a] == tags[a];
      if b < |tags| { assert r[b] == tags[b]; }
    }
  }

  /** On a list without duplicates a toggle flips exactly the membership of `t`, and the
      result again has no duplicates. */
  lemma ToggledMembership(tags: seq<string>, t: string)
    requires NoDup(tags)
    ensures NoDup(Toggled(tags, t))
    ensures forall u :: u in Toggled(tags, t) <==> (u in tags) != (u == t)
  {
    if t in tags {
      RemovedMembership(tags, t);
    } else {
      AddedMembership(tags, t);
    }
  }

  /** Toggling twice restores the membership of every tag; a tag that was absent leaves the
      list exactly as it was, one that was present moves to the end. */
  lemma ToggleTwice(tags: seq<string>, t: string)
    requires NoDup(tags)
    ensures multiset(Toggled(Toggled(tags, t), t)) == multiset(tags)
    ensures t !in tags ==> Toggled(Toggled(tags, t), t) == tags
    ensures t in tags ==> Toggled(Toggled(tags, t), t) == Toggled(tags, t) + [t]
  {
    var once := Toggled(tags, t);
    ToggledMembership(tags, t);
    ToggledCount(tags, t);
    ToggledCount(once, t);
    if t in tags {
      assert t !in once;
    } else {
      assert once == tags + [t];
      var i := IndexOf(once, t);
      assert i == |tags|;
      assert once[..i] == tags;
    }
  }

  /** With `t` present two or more times, each toggle splices out one copy: two toggles
      remove two copies instead of restoring the list. */
  lemma ToggleTwiceOnDuplicate(tags: seq<string>, t: string)
    requires multiset(tags)[t] >= 2
    ensures multiset(Toggled(Toggled(tags, t), t)) == multiset(tags) - multiset{t, t}
  {
    var once := Toggled(tags, t);
    ToggledCount(tags, t);
    assert t in tags;
    assert t in once by {
      assert multiset(once)[t] >= 1;
    }
    ToggledCount(once, t);
  }
}
