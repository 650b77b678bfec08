/**
 * Walk.java: a recorded walk. Its id and date never change; name,
 * description and the tag list object are replaced through setters, and
 * the tag list is handed out by reference.
 */
module Walks {
  import opened Tags
  import opened Parcels

  /** The values a Walk holds at one moment. */
  datatype WalkValue = WalkValue(id: int, name: string, description: string, date: int, tags: seq<Tag>)

  /**
   * The tags the constructor keeps: those whose name is not empty, in order.
   * This is the evidently intended reading of its test against "".
   */
  function KeepNamed(tags: seq<Tag>): (r: seq<Tag>)
    ensures |r| <= |tags|
  {
    if tags == [] then []
    else
      var last := tags[|tags| - 1];
      KeepNamed(tags[..|tags| - 1]) + (if last.name != "" then [last] else [])
  }

  /** A tag is kept exactly when it was given and has a name. */
  lemma {:induction false} KeepNamedMembers(tags: seq<Tag>)
    ensures forall t :: t in KeepNamed(tags) <==> t in tags && t.name != ""
  {
    if tags != [] {
      var init := tags[..|tags| - 1];
      KeepNamedMembers(init);
      assert tags == init + [tags[|tags| - 1]];
    }
  }

  /** When every tag has a name, all of them are kept. */
  lemma {:induction false} KeepNamedAllNamed(tags: seq<Tag>)
    requires forall i :: 0 <= i < |tags| ==> tags[i].name != ""
    ensures KeepNamed(tags) == tags
  {
    if tags != [] {
      var init := tags[..|tags| - 1];
      KeepNamedAllNamed(init);
      assert tags == init + [tags[|tags| - 1]];
    }
  }

  /**
   * The constructor's filter as written: it compares the name with the literal
   * "" by reference. Every name it meets comes out of String.split on a string
   * read from the database, which is never the interned literal, so the test
   * never holds and every tag, the empty-named one included, is kept.
   */
  function KeepNamedAsWritten(tags: seq<Tag>): seq<Tag>
  {
    tags
  }

  function WalkEncoding(v: WalkValue): seq<ParcelValue>
  {
    [PLong(v.id), PString(v.name), PString(v.description), PLong(v.date)] + TagListEncoding(v.tags)
  }

  /** What the Parcel constructor reads from `pos` on, and where it stops. */
  function DecodeWalk(data: seq<ParcelValue>, pos: nat): (WalkValue, nat)
  {
    var p1 := Next(data, pos);
    var p2 := Next(data, p1);
    var p3 := Next(data, p2);
    var p4 := Next(data, p3);
    var tags := ReadTagList(data, p4);
    (WalkValue(LongAt(data, pos), StringAt(data, p1), StringAt(data, p2), LongAt(data, p3), tags.0), tags.1)
  }

  /** A walk written to a parcel reads back as the same walk, whatever was written before or after it. */
  lemma WalkParcelRoundTrip(pre: seq<ParcelValue>, v: WalkValue, post: seq<ParcelValue>)
    ensures DecodeWalk(pre + WalkEncoding(v) + post, |pre|) == (v, |pre| + |WalkEncoding(v)|)
  {
    var d := pre + WalkEncoding(v) + post;
    var head := [PLong(v.id), PString(v.name), PString(v.description), PLong(v.date)];
    assert d == (pre + head) + TagListEncoding(v.tags) + post;
    assert d[|pre|] == PLong(v.id) && d[|pre| + 1] == PString(v.name);
    assert d[|pre| + 2] == PString(v.description) && d[|pre| + 3] == PLong(v.date);
    TagListRoundTrip(pre + head, v.tags, post);
  }

  lemma KeepNamedSnoc(tags: seq<Tag>, i: int)
    requires 0 <= i < |tags|
    ensures KeepNamed(tags[..i + 1]) == KeepNamed(tags[..i]) + (if tags[i].name != "" then [tags[i]] else [])
  {
    var prefix := tags[..i + 1];
    assert prefix[..|prefix| - 1] == tags[..i] && prefix[|prefix| - 1] == tags[i];
  }

  /** The constructor's loop: a new tag list holding the given tags that have a name, in order. */
  method NamedTagList(tags: seq<Tag>) returns (kept: TagList)
    ensures fresh(kept) && kept.items == KeepNamed(tags)
  {
    kept := new TagList([]);
    var i := 0;
    while i < |tags|
      invariant 0 <= i <= |tags|
      invariant kept.items == KeepNamed(tags[..i])
    {
      KeepNamedSnoc(tags, i);
      if tags[i].name != "" {
        kept.Add(tags[i]);
      }
      i := i + 1;
    }
    assert tags[..i] == tags;
  }

  class Walk {
    const id: int
    const date: int
    var name: string
    var description: string
    var tags: TagList

    function Value(): WalkValue
      reads this, tags
    {
      WalkValue(id, name, description, date, tags.items)
    }

    /** Keeps the given tags that have a name, in order, in a new list object. */
    constructor (id: int, name: string, description: string, date: int, tags: seq<Tag>)
      ensures Value() == WalkValue(id, name, description, date, KeepNamed(tags))
      ensures fresh(this.tags)
    {
      this.id := id;
      this.name := name;
      this.description := description;
      this.date := date;
      var kept := NamedTagList(tags);
      this.tags := kept;
    }

    /** Walk(Parcel): id, name, description, date and the tag list, read in the order they were written. */
    constructor FromParcel(src: Parcel)
      modifies src
      ensures (Value(), src.pos) == DecodeWalk(old(src.data), old(src.pos))
      ensures src.data == old(src.data) && fresh(this.tags)
    {
      var id := src.ReadLong();
      var name := src.ReadString();
      var description := src.ReadString();
      var date := src.ReadLong();
      var items := ReadTagListFrom(src);
      this.id := id;
      this.name := name;
      this.description := description;
      this.date := date;
      this.tags := new TagList(items);
    }

    method SetName(name: string)
      modifies this
      ensures Value() == old(Value()).(name := name) && tags == old(tags)
    {
      this.name := name;
    }

    method SetDescription(description: string)
      modifies this
      ensures Value() == old(Value()).(description := description) && tags == old(tags)
    {
      this.description := description;
    }

    /** setTags stores the list object itself: later changes to `list` are changes to this walk's tags. */
    method SetTags(list: TagList)
      modifies this
      ensures tags == list
      ensures name == old(name) && description == old(description)
    {
      this.tags := list;
    }

    method WriteToParcel(dest: Parcel)
      modifies dest
      ensures dest.data == old(dest.data) + WalkEncoding(Value()) && dest.pos == old(dest.pos)
    {
      dest.WriteLong(id);
      dest.WriteString(name);
      dest.WriteString(description);
      dest.WriteLong(date);
      WriteTagList(tags.items, dest);
    }
  }
}
