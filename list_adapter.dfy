/**
 * ListAdapter.java: the rows of the walk list. The adapter keeps its own
 * list of the walks it is given, leaving out the walk in progress (id 0),
 * and shows each walk's tags as one line.
 */
module Adapter {
  import opened Tags
  import JavaStrings
  import opened Walks
  import opened Store

  /** The walks the list shows: every walk but the one in progress, in the order given. */
  function Visible(ws: seq<Walk>): (r: seq<Walk>)
    ensures |r| <= |ws|
  {
    Filter(ws, (w: Walk) => w.id != InProgressId)
  }

  /** A walk is shown exactly when it was given and is not the walk in progress. */
  lemma VisibleMembers(ws: seq<Walk>)
    ensures forall w :: w in Visible(ws) <==> w in ws && w.id != InProgressId
  {
    FilterMembers(ws, (w: Walk) => w.id != InProgressId);
  }

  /** The filter keeps relative order: it distributes over concatenation. */
  lemma VisibleAppend(a: seq<Walk>, b: seq<Walk>)
    ensures Visible(a + b) == Visible(a) + Visible(b)
  {
    FilterConcat(a, b, (w: Walk) => w.id != InProgressId);
  }

  /** The separator between names on a list row. */
  const Separator: string := ", "

  lemma SeparatorHasOneComma()
    ensures JavaStrings.OneComma(Separator, 0)
  {
  }

  class ListAdapter {
    var walks: seq<Walk>

    /** The adapter never holds the walk in progress. */
    predicate Valid()
      reads this
    {
      forall i :: 0 <= i < |walks| ==> walks[i].id != InProgressId
    }

    constructor (newWalks: seq<Walk>)
      ensures walks == Visible(newWalks) && Valid()
    {
      walks := [];
      new;
      Refill(newWalks);
    }

    /** The loop the constructor and setWalks share: a new list holding the given walks but walk 0. */
    method Refill(newWalks: seq<Walk>)
      modifies this`walks
      ensures walks == Visible(newWalks) && Valid()
    {
      var kept: seq<Walk> := [];
      var i := 0;
      while i < |newWalks|
        invariant 0 <= i <= |newWalks|
        invariant kept == Visible(newWalks[..i])
      {
        VisibleAppend(newWalks[..i], [newWalks[i]]);
        assert newWalks[..i + 1] == newWalks[..i] + [newWalks[i]];
        if newWalks[i].id != InProgressId {
          kept := kept + [newWalks[i]];
        }
        i := i + 1;
      }
      assert newWalks[..i] == newWalks;
      walks := kept;
      VisibleMembers(newWalks);
      assert forall k :: 0 <= k < |walks| ==> walks[k] in Visible(newWalks);
    }

    method SetWalks(newWalks: seq<Walk>)
      modifies this`walks
      ensures walks == Visible(newWalks) && Valid()
    {
      Refill(newWalks);
    }

    /** getCount: the number of walks shown. */
    method GetCount() returns (n: int)
      ensures n == |walks|
    {
      n := |walks|;
    }

    /** getItemId: the id of the walk at a position the list asks for; never the walk in progress. */
    method GetItemId(position: int) returns (id: int)
      requires Valid() && 0 <= position < |walks|
      ensures id == walks[position].id && id != InProgressId
    {
      id := walks[position].id;
    }

    /** The tag line of getView for the walk at `position`. */
    method TagLine(position: int) returns (s: string)
      requires 0 <= position < |walks|
      ensures s == JavaStrings.JoinPlain(Names(walks[position].tags.items), Separator)
    {
      s := TagDisplay(walks[position].tags.items);
    }
  }

  /** getView's tag line: the names with ", " between them and none after the last; "" without tags. */
  method TagDisplay(tagList: seq<Tag>) returns (s: string)
    ensures s == JavaStrings.JoinPlain(Names(tagList), Separator)
  {
    s := "";
    if |tagList| > 0 {
      var i := 0;
      while i < |tagList| - 1
        invariant 0 <= i <= |tagList| - 1
        invariant s == JavaStrings.JoinTrailing(Names(tagList[..i]), Separator)
      {
        NamesSnoc(tagList[..i], tagList[i]);
        JavaStrings.JoinTrailingSnoc(Names(tagList[..i]), tagList[i].name, Separator);
        assert tagList[..i + 1] == tagList[..i] + [tagList[i]];
        s := s + tagList[i].name + Separator;
        i := i + 1;
      }
      s := s + tagList[|tagList| - 1].name;
      JavaStrings.JoinPlainAsTrailing(Names(tagList), Separator);
      assert Names(tagList)[..|tagList| - 1] == Names(tagList[..|tagList| - 1]);
    }
  }

  /** A tag line splits back on ", " into the names it shows, when no name is empty or holds a comma. */
  lemma TagLineRoundTrip(tags: seq<Tag>)
    requires tags != [] && forall i :: 0 <= i < |tags| ==> JavaStrings.Carriable(tags[i].name)
    ensures JavaStrings.Split(JavaStrings.JoinPlain(Names(tags), Separator), Separator) == Names(tags)
  {
    SeparatorHasOneComma();
    JavaStrings.SplitJoinPlain(Names(tags), Separator, 0);
  }
}
