/**
 * WalkDialogue.java: the tags typed into the dialog, their merge into the
 * dialog's two tag lists, and the check boxes' listener. The dialog edits its
 * own copy of the walk's tags while it is open.
 */
module Dialogue {
  import opened Tags
  import opened Walks
  import JavaStrings
  import DataSource
  import opened Seqs

  // ---------------------------------------------------------------- newTags

  /** Each piece trimmed. */
  function Trimmed(pieces: seq<string>): (r: seq<string>)
    ensures |r| == |pieces| && forall i :: 0 <= i < |pieces| ==> r[i] == JavaStrings.Trim(pieces[i])
  {
    seq(|pieces|, i requires 0 <= i < |pieces| => JavaStrings.Trim(pieces[i]))
  }

  /** The names that are not empty, in order. */
  function NonEmpty(names: seq<string>): seq<string>
  {
    if names == [] then []
    else NonEmpty(names[..|names| - 1]) + (if names[|names| - 1] == "" then [] else [names[|names| - 1]])
  }

  /** What newTags keeps of the split pieces: each one trimmed, the empty ones dropped, in order. */
  function Cleaned(pieces: seq<string>): seq<string>
  {
    NonEmpty(Trimmed(pieces))
  }

  lemma TrimmedAppend(a: seq<string>, b: seq<string>)
    ensures Trimmed(a + b) == Trimmed(a) + Trimmed(b)
  {
  }

  lemma {:induction false} NonEmptyAppend(a: seq<string>, b: seq<string>)
    ensures NonEmpty(a + b) == NonEmpty(a) + NonEmpty(b)
    decreases |b|
  {
    if b == [] {
      assert a + b == a;
    } else {
      var init := b[..|b| - 1];
      var last := b[|b| - 1];
      var ab := a + b;
      var extra := if last == "" then [] else [last];
      NonEmptyAppend(a, init);
      assert ab[..|ab| - 1] == a + init;
      assert NonEmpty(ab) == NonEmpty(a + init) + extra;
      AppendAssoc(NonEmpty(a), NonEmpty(init), extra);
    }
  }

  /** A name is kept exactly when it is one of the names and not empty. */
  lemma {:induction false} NonEmptyMembers(names: seq<string>)
    ensures forall x :: x in NonEmpty(names) <==> x in names && x != ""
  {
    if names != [] {
      NonEmptyMembers(names[..|names| - 1]);
      assert names == names[..|names| - 1] + [names[|names| - 1]];
    }
  }

  /** The piece followed by the next pieces gives its kept form followed by theirs. */
  lemma CleanedSnoc(pieces: seq<string>, x: string)
    ensures Cleaned(pieces + [x]) == Cleaned(pieces) + (if JavaStrings.Trim(x) == "" then [] else [JavaStrings.Trim(x)])
  {
    TrimmedAppend(pieces, [x]);
    NonEmptyAppend(Trimmed(pieces), Trimmed([x]));
    assert Trimmed([x]) == [JavaStrings.Trim(x)];
    assert NonEmpty([JavaStrings.Trim(x)]) == (if JavaStrings.Trim(x) == "" then [] else [JavaStrings.Trim(x)]) by {
      assert [JavaStrings.Trim(x)][..0] == [];
    }
  }

  /** Cleaning works piece by piece, so the order of the pieces is kept. */
  lemma CleanedAppend(a: seq<string>, b: seq<string>)
    ensures Cleaned(a + b) == Cleaned(a) + Cleaned(b)
  {
    TrimmedAppend(a, b);
    NonEmptyAppend(Trimmed(a), Trimmed(b));
  }

  /**
   * Every name kept is the trimmed form of some piece and is not empty, and
   * the trimmed form of every piece is kept unless it is empty.
   */
  lemma CleanedMembers(pieces: seq<string>)
    ensures forall x :: x in Cleaned(pieces) <==>
      x != "" && exists i :: 0 <= i < |pieces| && JavaStrings.Trim(pieces[i]) == x
  {
    NonEmptyMembers(Trimmed(pieces));
    forall x ensures x in Trimmed(pieces) <==> exists i :: 0 <= i < |pieces| && JavaStrings.Trim(pieces[i]) == x {
      if x in Trimmed(pieces) {
        var i :| 0 <= i < |pieces| && Trimmed(pieces)[i] == x;
      }
    }
  }

  /**
   * Every kept name is non-empty, starts and ends with a character trim
   * keeps, and holds no character that no piece holds.
   */
  lemma CleanedShape(pieces: seq<string>, c: char)
    requires forall i :: 0 <= i < |pieces| ==> c !in pieces[i]
    ensures forall k :: 0 <= k < |Cleaned(pieces)| ==>
      var n := Cleaned(pieces)[k];
      n != "" && c !in n && !JavaStrings.IsTrimmed(n[0]) && !JavaStrings.IsTrimmed(n[|n| - 1])
  {
    CleanedMembers(pieces);
    forall k | 0 <= k < |Cleaned(pieces)|
      ensures var n := Cleaned(pieces)[k];
        n != "" && c !in n && !JavaStrings.IsTrimmed(n[0]) && !JavaStrings.IsTrimmed(n[|n| - 1])
    {
      var n := Cleaned(pieces)[k];
      assert n in Cleaned(pieces);
      var i :| 0 <= i < |pieces| && JavaStrings.Trim(pieces[i]) == n;
      JavaStrings.TrimChars(pieces[i]);
    }
  }

  /** newTags: the text split at every ",", each piece trimmed and the empty ones dropped, in order. */
  method NewTags(text: string) returns (tags: seq<Tag>)
    ensures Names(tags) == Cleaned(JavaStrings.Split(text, ","))
  {
    var tagArray := JavaStrings.Split(text, ",");
    tags := [];
    var i := 0;
    while i < |tagArray|
      invariant 0 <= i <= |tagArray|
      invariant Names(tags) == Cleaned(tagArray[..i])
    {
      var trimmedString := JavaStrings.Trim(tagArray[i]);
      assert tagArray[..i + 1] == tagArray[..i] + [tagArray[i]];
      CleanedSnoc(tagArray[..i], tagArray[i]);
      if |trimmedString| != 0 {
        NamesSnoc(tags, Tag(trimmedString));
        tags := tags + [Tag(trimmedString)];
      }
      i := i + 1;
    }
    assert tagArray[..i] == tagArray;
  }

  /**
   * Every tag typed into the dialog has a name that is not empty, holds no
   * ",", and has no leading or trailing white space.
   */
  lemma NewTagsShape(text: string)
    ensures forall k :: 0 <= k < |Cleaned(JavaStrings.Split(text, ","))| ==>
      var n := Cleaned(JavaStrings.Split(text, ","))[k];
      n != "" && ',' !in n && !JavaStrings.IsTrimmed(n[0]) && !JavaStrings.IsTrimmed(n[|n| - 1])
  {
    JavaStrings.SplitPiecesFree(text, ',');
    CleanedShape(JavaStrings.Split(text, ","), ',');
  }

  // ---------------------------------------------------------------- the dialog's lists

  /** The loop of addTags on one list: each new tag appended unless the list already holds it. */
  function AddMissing(list: seq<Tag>, newTags: seq<Tag>): seq<Tag>
  {
    if newTags == [] then list
    else
      var r := AddMissing(list, newTags[..|newTags| - 1]);
      var t := newTags[|newTags| - 1];
      if t in r then r else r + [t]
  }

  /**
   * The list keeps what it held, in order, at its front, and then holds
   * exactly its old tags and the new ones; a list without repeated tags
   * stays without them.
   */
  lemma {:induction false} AddMissingMeaning(list: seq<Tag>, newTags: seq<Tag>)
    ensures list <= AddMissing(list, newTags)
    ensures forall t :: t in AddMissing(list, newTags) <==> t in list || t in newTags
    ensures DataSource.Distinct(list) ==> DataSource.Distinct(AddMissing(list, newTags))
  {
    if newTags != [] {
      var init := newTags[..|newTags| - 1];
      AddMissingMeaning(list, init);
      assert newTags == init + [newTags[|newTags| - 1]];
    }
  }

  /** The check listener's change to the list: add the tag if checked and absent, else remove it once. */
  function Toggled(list: seq<Tag>, t: Tag, isChecked: bool): seq<Tag>
  {
    if isChecked && t !in list then list + [t] else RemoveFirst(list, t)
  }

  /**
   * On a list without repeated tags, the listener leaves the tag in the list
   * exactly when the box was checked while the tag was absent, keeps every
   * other tag, and repeats none.
   */
  lemma ToggledMeaning(list: seq<Tag>, t: Tag, isChecked: bool)
    requires DataSource.Distinct(list)
    ensures t in Toggled(list, t, isChecked) <==> isChecked && t !in list
    ensures forall u :: u != t ==> (u in Toggled(list, t, isChecked) <==> u in list)
    ensures DataSource.Distinct(Toggled(list, t, isChecked))
  {
    var r := Toggled(list, t, isChecked);
    if isChecked && t !in list {
      assert multiset(r) == multiset(list) + multiset{t};
    } else if t in list {
      assert multiset(r) == multiset(list) - multiset{t};
    } else {
      assert r == list;
    }
    DataSource.DistinctCounts(list);
    DataSource.DistinctCounts(r);
    assert forall u :: u in list <==> u in multiset(list);
    assert forall u :: u in r <==> u in multiset(r);
  }

  class WalkDialogue {
    /** The walk edited, or null for a new walk. */
    const selectedWalk: Walk?
    /** The tags checked in the dialog. */
    var checkedTagsList: TagList
    /** The tags offered as check boxes. */
    var allTags: TagList

    /** The dialog's two lists are its own objects: neither is the other, nor the walk's tag list. */
    predicate Valid()
      reads this, selectedWalk
    {
      checkedTagsList != allTags &&
      (selectedWalk != null ==> selectedWalk.tags != checkedTagsList && selectedWalk.tags != allTags)
    }

    /**
     * onCreate for a dialog opened afresh: the checked tags are a new copy of
     * the walk's tags (none for a new walk) and the offered ones are
     * `allTags`, the result of getAllTags.
     */
    constructor (walk: Walk?, allTags: seq<Tag>)
      ensures Valid() && selectedWalk == walk
      ensures checkedTagsList.items == (if walk == null then [] else walk.tags.items)
      ensures this.allTags.items == allTags
      ensures fresh(checkedTagsList) && fresh(this.allTags)
    {
      selectedWalk := walk;
      if walk != null {
        checkedTagsList := new TagList(walk.tags.items);
      } else {
        checkedTagsList := new TagList([]);
      }
      this.allTags := new TagList(allTags);
    }

    /**
     * addTags: each new tag is appended to each list that does not hold it
     * yet, and the offered tags are sorted. The walk's own tags are not touched.
     */
    method AddTags(newTags: seq<Tag>)
      requires Valid()
      modifies checkedTagsList, allTags
      ensures Valid()
      ensures checkedTagsList.items == AddMissing(old(checkedTagsList.items), newTags)
      ensures allTags.items == SortTags(AddMissing(old(allTags.items), newTags))
      ensures selectedWalk != null ==> selectedWalk.tags.items == old(selectedWalk.tags.items)
    {
      var i := 0;
      while i < |newTags|
        invariant 0 <= i <= |newTags|
        invariant checkedTagsList.items == AddMissing(old(checkedTagsList.items), newTags[..i])
        invariant allTags.items == AddMissing(old(allTags.items), newTags[..i])
      {
        var tag := newTags[i];
        assert newTags[..i + 1][..i] == newTags[..i];
        if tag !in checkedTagsList.items {
          checkedTagsList.Add(tag);
        }
        if tag !in allTags.items {
          allTags.Add(tag);
        }
        i := i + 1;
      }
      assert newTags[..i] == newTags;
      allTags.Sort();
    }

    /** CustomOnCheckChangeListener.onCheckedChanged for the box showing `name`. */
    method OnCheckedChanged(name: string, isChecked: bool)
      requires Valid()
      modifies checkedTagsList
      ensures Valid()
      ensures checkedTagsList.items == Toggled(old(checkedTagsList.items), Tag(name), isChecked)
      ensures selectedWalk != null ==> selectedWalk.tags.items == old(selectedWalk.tags.items)
    {
      var tag := Tag(name);
      if isChecked && tag !in checkedTagsList.items {
        checkedTagsList.Add(tag);
      } else {
        checkedTagsList.Remove(tag);
      }
    }
  }

  /**
   * After addTags every new tag is both checked and offered, nothing else is
   * added, neither list gains a repeated tag, and the offered tags are sorted.
   */
  lemma AddTagsMeaning(checked: seq<Tag>, all: seq<Tag>, newTags: seq<Tag>)
    ensures forall t :: t in newTags ==> t in AddMissing(checked, newTags) && t in SortTags(AddMissing(all, newTags))
    ensures forall t :: t in SortTags(AddMissing(all, newTags)) <==> t in all || t in newTags
    ensures DataSource.Distinct(checked) ==> DataSource.Distinct(AddMissing(checked, newTags))
    ensures DataSource.Distinct(all) ==> DataSource.Distinct(SortTags(AddMissing(all, newTags)))
    ensures Sorted(SortTags(AddMissing(all, newTags)))
  {
    var merged := AddMissing(all, newTags);
    AddMissingMeaning(checked, newTags);
    AddMissingMeaning(all, newTags);
    SortTagsSorted(merged);
    assert forall t :: t in merged <==> t in multiset(merged);
    assert forall t :: t in SortTags(merged) <==> t in multiset(SortTags(merged));
    if DataSource.Distinct(all) {
      DataSource.DistinctPermutation(merged, SortTags(merged));
    }
  }
}
