/** The sidebar's tag filter: toggling one tag in the selected-tag list
    through an insertion-ordered set, and which tag buttons show as active. */
module NotesSidebar {

  /** The tag buttons the sidebar offers. */
  const CommonTags: seq<string> := ["work", "personal", "ideas", "todo", "archive"]

  predicate NoDuplicates(s: seq<string>) {
    forall i, j :: 0 <= i < j < |s| ==> s[i] != s[j]
  }

  /** The position of the first occurrence of x in s. */
  function FirstIndex(s: seq<string>, x: string): (k: nat)
    requires x in s
    ensures k < |s| && s[k] == x && x !in s[..k]
  {
    if s[0] == x then 0 else 1 + FirstIndex(s[1..], x)
  }

  /** x comes before y in s, comparing first occurrences. */
  predicate Before(s: seq<string>, x: string, y: string)
    requires x in s && y in s
  {
    FirstIndex(s, x) < FirstIndex(s, y)
  }

  /** The elements of a JavaScript Set built from s, in its iteration order:
      each element once, in the order of its first occurrence. */
  function Dedup(s: seq<string>): (r: seq<string>)
    ensures NoDuplicates(r)
    ensures forall x :: x in r <==> x in s
    decreases |s|
  {
    if s == [] then []
    else
      var d := Dedup(s[..|s| - 1]);
      if s[|s| - 1] in d then d else d + [s[|s| - 1]]
  }

  /** Set.prototype.delete on that order: x leaves, the rest keep their places. */
  function Remove(s: seq<string>, x: string): (r: seq<string>)
    ensures forall y :: y in r <==> y in s && y != x
  {
    if s == [] then []
    else (if s[0] == x then [] else [s[0]]) + Remove(s[1..], x)
  }

  /** The tag list the sidebar emits when tag t is clicked: t is removed
      when selected and appended otherwise; every other tag keeps its
      selection, and the list comes out without repeats. */
  function Toggle(tags: seq<string>, t: string): (r: seq<string>)
    ensures t in r <==> t !in tags
    ensures forall u :: u != t ==> (u in r <==> u in tags)
    ensures NoDuplicates(r)
  {
    var d := Dedup(tags);
    RemoveDistinct(d, t);
    if t in d then Remove(d, t) else d + [t]
  }

  lemma {:induction false} RemoveDistinct(s: seq<string>, x: string)
    requires NoDuplicates(s)
    ensures NoDuplicates(Remove(s, x))
  {
    if s != [] {
      RemoveDistinct(s[1..], x);
      var r := Remove(s[1..], x);
      if s[0] != x {
        assert s[0] !in s[1..];
        assert forall j :: 0 <= j < |r| ==> r[j] in s[1..];
      }
    }
  }

  /** A tag button is shown active exactly when the selected list holds its tag. */
  predicate IsActive(tags: seq<string>, t: string) {
    t in tags
  }

  lemma FirstIndexUnique(s: seq<string>, x: string, k: nat)
    requires k < |s| && s[k] == x && x !in s[..k]
    ensures FirstIndex(s, x) == k
  {
  }

  lemma FirstIndexAppend(p: seq<string>, z: string, x: string)
    requires x in p + [z]
    ensures x in p ==> FirstIndex(p + [z], x) == FirstIndex(p, x)
    ensures x !in p ==> FirstIndex(p + [z], x) == |p|
  {
    if x in p {
      var k := FirstIndex(p, x);
      assert (p + [z])[..k] == p[..k];
      FirstIndexUnique(p + [z], x, k);
    } else {
      assert (p + [z])[..|p|] == p;
      FirstIndexUnique(p + [z], x, |p|);
    }
  }

  /** The set's iteration order is the order of first occurrence in the input. */
  lemma {:induction false} DedupKeepsOrder(s: seq<string>, x: string, y: string)
    requires x in s && y in s
    ensures Before(Dedup(s), x, y) <==> Before(s, x, y)
    decreases |s|
  {
    var p, z := s[..|s| - 1], s[|s| - 1];
    assert s == p + [z];
    var d := Dedup(p);
    FirstIndexAppend(p, z, x);
    FirstIndexAppend(p, z, y);
    if x in p && y in p {
      DedupKeepsOrder(p, x, y);
      if z !in d {
        FirstIndexAppend(d, z, x);
        FirstIndexAppend(d, z, y);
      }
    } else if z !in d {
      FirstIndexAppend(d, z, x);
      FirstIndexAppend(d, z, y);
    }
  }

  lemma FirstIndexCons(z: string, s: seq<string>, x: string)
    requires x in [z] + s
    ensures x != z ==> x in s && FirstIndex([z] + s, x) == 1 + FirstIndex(s, x)
    ensures x == z ==> FirstIndex([z] + s, x) == 0
  {
  }

  /** Deleting one element leaves the others in their relative order. */
  lemma {:induction false} RemoveKeepsOrder(s: seq<string>, t: string, x: string, y: string)
    requires x in s && y in s && x != t && y != t
    ensures x in Remove(s, t) && y in Remove(s, t)
    ensures Before(Remove(s, t), x, y) <==> Before(s, x, y)
  {
    var z, rest := s[0], s[1..];
    assert s == [z] + rest;
    FirstIndexCons(z, rest, x);
    FirstIndexCons(z, rest, y);
    var r := Remove(rest, t);
    if z == t {
      assert Remove(s, t) == r;
      RemoveKeepsOrder(rest, t, x, y);
    } else {
      assert Remove(s, t) == [z] + r;
      if x != z && y != z {
        RemoveKeepsOrder(rest, t, x, y);
      }
      FirstIndexCons(z, r, x);
      FirstIndexCons(z, r, y);
    }
  }

  /** After a toggle, the tags other than t keep the order in which they
      first appeared in the input. */
  lemma ToggleKeepsOrder(tags: seq<string>, t: string, x: string, y: string)
    requires x in tags && y in tags && x != t && y != t
    ensures x in Toggle(tags, t) && y in Toggle(tags, t)
    ensures Before(Toggle(tags, t), x, y) <==> Before(tags, x, y)
  {
    var d := Dedup(tags);
    DedupKeepsOrder(tags, x, y);
    if t in d {
      RemoveKeepsOrder(d, t, x, y);
    } else {
      FirstIndexAppend(d, t, x);
      FirstIndexAppend(d, t, y);
    }
  }

  /** A newly selected tag goes last. */
  lemma ToggleAppends(tags: seq<string>, t: string)
    requires t !in tags
    ensures Toggle(tags, t) == Dedup(tags) + [t]
    ensures |Toggle(tags, t)| == |Dedup(tags)| + 1 && Toggle(tags, t)[|Toggle(tags, t)| - 1] == t
  {
  }

  lemma {:induction false} DedupOfDistinct(s: seq<string>)
    requires NoDuplicates(s)
    ensures Dedup(s) == s
    decreases |s|
  {
    if s != [] {
      var p := s[..|s| - 1];
      DedupOfDistinct(p);
      assert s == p + [s[|s| - 1]];
    }
  }

  lemma {:induction false} RemoveAbsent(s: seq<string>, t: string)
    requires t !in s
    ensures Remove(s, t) == s
  {
    if s != [] {
      RemoveAbsent(s[1..], t);
      assert s == [s[0]] + s[1..];
    }
  }

  lemma {:induction false} RemoveAppend(a: seq<string>, b: seq<string>, t: string)
    ensures Remove(a + b, t) == Remove(a, t) + Remove(b, t)
  {
    if a != [] {
      assert (a + b)[1..] == a[1..] + b;
      RemoveAppend(a[1..], b, t);
    } else {
      assert a + b == b;
    }
  }

  /** Toggling a tag twice restores the selection as a set. */
  lemma ToggleTwiceSameSet(tags: seq<string>, t: string)
    ensures forall u :: u in Toggle(Toggle(tags, t), t) <==> u in tags
  {
  }

  /** Selecting and then deselecting a tag gives back the input without repeats. */
  lemma ToggleTwiceRestores(tags: seq<string>, t: string)
    requires t !in tags
    ensures Toggle(Toggle(tags, t), t) == Dedup(tags)
  {
    var d := Dedup(tags);
    DedupOfDistinct(d + [t]);
    RemoveAppend(d, [t], t);
    RemoveAbsent(d, t);
    assert Remove([t], t) == [];
  }

  /** Deselecting and then reselecting a tag moves it to the end of the list. */
  lemma ToggleTwiceMovesLast(tags: seq<string>, t: string)
    requires t in tags
    ensures Toggle(Toggle(tags, t), t) == Remove(Dedup(tags), t) + [t]
  {
    DedupOfDistinct(Toggle(tags, t));
  }

  /** The active state of each offered tag button, in the order shown. */
  function ButtonStates(tags: seq<string>): (r: seq<bool>)
    ensures |r| == |CommonTags|
  {
    seq(|CommonTags|, i requires 0 <= i < |CommonTags| => IsActive(tags, CommonTags[i]))
  }

  /** Clicking the i-th offered button flips that button and leaves every
      other offered button as it was. */
  lemma ClickFlipsItsButton(tags: seq<string>, i: nat)
    requires i < |CommonTags|
    ensures forall j :: 0 <= j < |CommonTags| ==>
      ButtonStates(Toggle(tags, CommonTags[i]))[j] == (if j == i then !ButtonStates(tags)[j] else ButtonStates(tags)[j])
  {
    assert NoDuplicates(CommonTags);
    forall j | 0 <= j < |CommonTags|
      ensures ButtonStates(Toggle(tags, CommonTags[i]))[j] == (if j == i then !ButtonStates(tags)[j] else ButtonStates(tags)[j])
    {
      ToggleFlipsOneButton(tags, CommonTags[i], CommonTags[j]);
    }
  }

  /** Clicking the button of tag t flips t's button and no other. */
  lemma ToggleFlipsOneButton(tags: seq<string>, t: string, u: string)
    ensures IsActive(Toggle(tags, t), u) == (if u == t then !IsActive(tags, u) else IsActive(tags, u))
  {
  }
}
