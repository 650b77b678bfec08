/**
 * Tag.java: a tag is a name; tags compare, test equality and hash by name.
 * The mutable ArrayList<Tag> the application passes around is `TagList`.
 */
module Tags {
  import opened Wrappers
  import JavaStrings
  import opened Parcels

  datatype Tag = Tag(name: string)

  /** Tag.compareTo: the comparison of the names. */
  function CompareTo(a: Tag, b: Tag): int
  {
    JavaStrings.CompareTo(a.name, b.name)
  }

  /** Tag.equals for a Tag argument: the names are equal. */
  predicate Equals(a: Tag, b: Tag) { a.name == b.name }

  /** Tag.hashCode: the hash of the name. */
  function HashCode(t: Tag): int
  {
    JavaStrings.HashCode(t.name)
  }

  /** equals, compareTo and hashCode agree: equal tags compare as 0 and hash alike, and nothing else compares as 0. */
  lemma EqualsConsistent(a: Tag, b: Tag)
    ensures Equals(a, b) <==> a == b
    ensures Equals(a, b) <==> CompareTo(a, b) == 0
    ensures Equals(a, b) ==> HashCode(a) == HashCode(b)
  {
    JavaStrings.CompareToZeroIffEqual(a.name, b.name);
  }

  function Names(tags: seq<Tag>): (r: seq<string>)
    ensures |r| == |tags| && forall i :: 0 <= i < |tags| ==> r[i] == tags[i].name
  {
    if tags == [] then [] else [tags[0].name] + Names(tags[1..])
  }

  function ToTags(names: seq<string>): (r: seq<Tag>)
    ensures |r| == |names| && forall i :: 0 <= i < |names| ==> r[i] == Tag(names[i])
  {
    if names == [] then [] else [Tag(names[0])] + ToTags(names[1..])
  }

  lemma NamesToTags(names: seq<string>)
    ensures Names(ToTags(names)) == names
  {
  }

  lemma ToTagsNames(tags: seq<Tag>)
    ensures ToTags(Names(tags)) == tags
  {
  }

  predicate TagLe(a: Tag, b: Tag) { CompareTo(a, b) <= 0 }

  predicate Sorted(s: seq<Tag>)
  {
    forall i, j :: 0 <= i < j < |s| ==> TagLe(s[i], s[j])
  }

  /** Inserts `t` in front of the first element it does not exceed. */
  function Insert(t: Tag, s: seq<Tag>): (r: seq<Tag>)
    ensures multiset(r) == multiset(s) + multiset{t}
    ensures |r| == |s| + 1
  {
    if s == [] || TagLe(t, s[0]) then [t] + s
    else
      assert s == [s[0]] + s[1..];
      [s[0]] + Insert(t, s[1..])
  }

  /** Collections.sort on tags: the order is total and only equal tags compare as 0, so any sort gives this. */
  function SortTags(s: seq<Tag>): (r: seq<Tag>)
    ensures multiset(r) == multiset(s)
    ensures |r| == |s|
  {
    if s == [] then []
    else
      assert s == [s[0]] + s[1..];
      Insert(s[0], SortTags(s[1..]))
  }

  lemma TagLeTransitive(a: Tag, b: Tag, c: Tag)
    requires TagLe(a, b) && TagLe(b, c)
    ensures TagLe(a, c)
  {
    JavaStrings.NameLeTransitive(a.name, b.name, c.name);
  }

  lemma {:induction false} InsertSorted(t: Tag, s: seq<Tag>)
    requires Sorted(s)
    ensures Sorted(Insert(t, s))
  {
    if s == [] || TagLe(t, s[0]) {
      forall j | 0 <= j < |s| ensures TagLe(t, s[j]) {
        if j > 0 {
          TagLeTransitive(t, s[0], s[j]);
        }
      }
      var r := [t] + s;
      forall i, j | 0 <= i < j < |r| ensures TagLe(r[i], r[j]) {
        if i > 0 {
          assert r[i] == s[i - 1] && r[j] == s[j - 1];
        }
      }
    } else {
      JavaStrings.NameLeTotal(t.name, s[0].name);
      InsertSorted(t, s[1..]);
      var r := Insert(t, s[1..]);
      forall j | 0 <= j < |r| ensures TagLe(s[0], r[j]) {
        assert r[j] in multiset(s[1..]) + multiset{t};
        if r[j] != t {
          assert r[j] in s[1..];
        }
      }
    }
  }

  lemma {:induction false} SortTagsSorted(s: seq<Tag>)
    ensures Sorted(SortTags(s))
  {
    if s != [] {
      SortTagsSorted(s[1..]);
      InsertSorted(s[0], SortTags(s[1..]));
    }
  }

  /** Sorting what is already sorted changes nothing (the application sorts some lists twice). */
  lemma {:induction false} SortTagsOfSorted(s: seq<Tag>)
    requires Sorted(s)
    ensures SortTags(s) == s
  {
    if s != [] {
      SortTagsOfSorted(s[1..]);
      assert SortTags(s[1..]) == s[1..];
      assert s == [s[0]] + s[1..];
    }
  }

  lemma SortTagsIdempotent(s: seq<Tag>)
    ensures SortTags(SortTags(s)) == SortTags(s)
  {
    SortTagsSorted(s);
    SortTagsOfSorted(SortTags(s));
  }

  lemma SortedHeadsEqual(a: seq<Tag>, b: seq<Tag>)
    requires a != [] && Sorted(a) && Sorted(b) && multiset(a) == multiset(b)
    ensures b != [] && a[0] == b[0]
  {
    assert a[0] in multiset(b);
    assert b[0] in multiset(a);
    var i :| 0 <= i < |b| && b[i] == a[0];
    var k :| 0 <= k < |a| && a[k] == b[0];
    if i != 0 && k != 0 {
      assert TagLe(b[0], b[i]) && TagLe(a[0], a[k]);
      JavaStrings.NameLeAntisymmetric(a[0].name, b[0].name);
    }
  }

  lemma TailSorted(a: seq<Tag>)
    requires a != [] && Sorted(a)
    ensures Sorted(a[1..]) && multiset(a[1..]) == multiset(a) - multiset{a[0]}
  {
    assert a == [a[0]] + a[1..];
  }

  /** Two sorted lists with the same elements are the same list: the sorted order is unique. */
  lemma {:induction false} SortedUnique(a: seq<Tag>, b: seq<Tag>)
    requires Sorted(a) && Sorted(b) && multiset(a) == multiset(b)
    ensures a == b
  {
    if a != [] {
      SortedHeadsEqual(a, b);
      TailSorted(a);
      TailSorted(b);
      SortedUnique(a[1..], b[1..]);
      assert a == [a[0]] + a[1..] && b == [b[0]] + b[1..];
    } else {
      assert |b| == |multiset(b)| == 0;
    }
  }

  /**
   * Tag.stringArrayToList: null (None) for an empty array, otherwise one tag
   * per string, in the order given.
   */
  method StringArrayToList(tagArray: seq<string>) returns (r: Option<seq<Tag>>)
    ensures r.None? <==> |tagArray| == 0
    ensures r.Some? ==> Names(r.value) == tagArray
  {
    if |tagArray| == 0 {
      return None;
    }
    var tagList: seq<Tag> := [];
    var i := 0;
    while i < |tagArray|
      invariant 0 <= i <= |tagArray|
      invariant Names(tagList) == tagArray[..i]
    {
      NamesSnoc(tagList, Tag(tagArray[i]));
      tagList := tagList + [Tag(tagArray[i])];
      i := i + 1;
    }
    assert tagArray[..i] == tagArray;
    return Some(tagList);
  }

  lemma NamesSnoc(tags: seq<Tag>, t: Tag)
    ensures Names(tags + [t]) == Names(tags) + [t.name]
  {
  }

  /** The ArrayList<Tag> objects of the application, shared by reference between walks and dialogs. */
  class TagList {
    var items: seq<Tag>

    constructor (items: seq<Tag>)
      ensures this.items == items
    {
      this.items := items;
    }

    /** ArrayList.add. */
    method Add(t: Tag)
      modifies this
      ensures items == old(items) + [t]
    {
      items := items + [t];
    }

    /** Collections.sort(list): sorts the list object in place. */
    method Sort()
      modifies this
      ensures items == SortTags(old(items)) && Sorted(items)
      ensures multiset(items) == multiset(old(items))
    {
      SortTagsSorted(items);
      items := SortTags(items);
    }

    /** ArrayList.remove(Object): removes the first equal tag, if there is one. */
    method Remove(t: Tag)
      modifies this
      ensures items == RemoveFirst(old(items), t)
    {
      items := RemoveFirst(items, t);
    }

    /** ArrayList.removeAll: drops every element equal to one of `other`. */
    method RemoveAll(other: seq<Tag>)
      modifies this
      ensures items == Without(old(items), other)
    {
      items := Without(items, other);
    }

    /** ArrayList.retainAll: keeps only the elements equal to one of `other`. */
    method RetainAll(other: seq<Tag>)
      modifies this
      ensures items == Within(old(items), other)
    {
      items := Within(items, other);
    }
  }

  function RemoveFirst(s: seq<Tag>, t: Tag): (r: seq<Tag>)
    ensures t !in s ==> r == s
    ensures t in s ==> multiset(r) == multiset(s) - multiset{t}
  {
    if s == [] then []
    else if s[0] == t then
      assert s == [s[0]] + s[1..];
      s[1..]
    else
      assert s == [s[0]] + s[1..];
      [s[0]] + RemoveFirst(s[1..], t)
  }

  /** ArrayList.removeAll's result: the elements equal to none of `other`, in order. */
  function Without(s: seq<Tag>, other: seq<Tag>): (r: seq<Tag>)
    ensures |r| <= |s|
  {
    if s == [] then []
    else (if s[0] in other then [] else [s[0]]) + Without(s[1..], other)
  }

  lemma {:induction false} WithoutMeaning(s: seq<Tag>, other: seq<Tag>)
    ensures forall t :: t in Without(s, other) <==> t in s && t !in other
  {
    if s != [] {
      WithoutMeaning(s[1..], other);
      assert s == [s[0]] + s[1..];
    }
  }

  /** ArrayList.retainAll's result: the elements equal to one of `other`, in order. */
  function Within(s: seq<Tag>, other: seq<Tag>): (r: seq<Tag>)
    ensures |r| <= |s|
  {
    if s == [] then []
    else (if s[0] in other then [s[0]] else []) + Within(s[1..], other)
  }

  lemma {:induction false} WithinMeaning(s: seq<Tag>, other: seq<Tag>)
    ensures forall t :: t in Within(s, other) <==> t in s && t in other
  {
    if s != [] {
      WithinMeaning(s[1..], other);
      assert s == [s[0]] + s[1..];
    }
  }

  /** Tag.writeToParcel: the name, as one string. */
  method WriteTagToParcel(t: Tag, dest: Parcel)
    modifies dest
    ensures dest.data == old(dest.data) + [PString(t.name)] && dest.pos == old(dest.pos)
  {
    dest.WriteString(t.name);
  }

  /** Tag.CREATOR.createFromParcel: a tag named by the next string. */
  method CreateTagFromParcel(src: Parcel) returns (t: Tag)
    modifies src
    ensures t == Tag(StringAt(old(src.data), old(src.pos)))
    ensures src.pos == Next(old(src.data), old(src.pos)) && src.data == old(src.data)
  {
    var name := src.ReadString();
    t := Tag(name);
  }

  /** Parcel.writeTypedList for a list of tags: the size, then a presence flag and the tag for each element. */
  function TagListEncoding(tags: seq<Tag>): seq<ParcelValue>
  {
    [PInt(|tags|)] + TagItems(tags)
  }

  function TagItems(tags: seq<Tag>): (r: seq<ParcelValue>)
    ensures |r| == 2 * |tags|
  {
    if tags == [] then [] else [PInt(1), PString(tags[0].name)] + TagItems(tags[1..])
  }

  lemma TagItemsSnoc(tags: seq<Tag>, t: Tag)
    ensures TagItems(tags + [t]) == TagItems(tags) + [PInt(1), PString(t.name)]
  {
    if tags != [] {
      assert (tags + [t])[1..] == tags[1..] + [t];
      TagItemsSnoc(tags[1..], t);
    }
  }

  /**
   * What Parcel.readTypedList reads into an empty list: `n` elements, each a
   * presence flag followed, when the flag is not 0, by a tag.
   */
  function ReadTagItems(data: seq<ParcelValue>, pos: nat, n: nat): (r: (seq<Tag>, nat))
    decreases n
  {
    if n == 0 then ([], pos)
    else
      var p1 := Next(data, pos);
      if IntAt(data, pos) != 0 then
        var rest := ReadTagItems(data, Next(data, p1), n - 1);
        ([Tag(StringAt(data, p1))] + rest.0, rest.1)
      else ReadTagItems(data, p1, n - 1)
  }

  function ReadTagList(data: seq<ParcelValue>, pos: nat): (seq<Tag>, nat)
  {
    var n := IntAt(data, pos);
    ReadTagItems(data, Next(data, pos), if n > 0 then n else 0)
  }

  lemma ReadTagItemsStep(d: seq<ParcelValue>, pos: nat, n: nat, name: string)
    requires n > 0 && pos + 1 < |d| && d[pos] == PInt(1) && d[pos + 1] == PString(name)
    ensures ReadTagItems(d, pos, n) ==
      ([Tag(name)] + ReadTagItems(d, pos + 2, n - 1).0, ReadTagItems(d, pos + 2, n - 1).1)
  {
  }

  /** Reading a written tag list gives the same tags and stops right after them, whatever surrounds it. */
  lemma {:induction false} TagItemsRoundTrip(d: seq<ParcelValue>, pos: nat, tags: seq<Tag>)
    requires pos + 2 * |tags| <= |d| && d[pos..pos + 2 * |tags|] == TagItems(tags)
    ensures ReadTagItems(d, pos, |tags|) == (tags, pos + 2 * |tags|)
    decreases |tags|
  {
    if tags != [] {
      var items := TagItems(tags);
      assert items == [PInt(1), PString(tags[0].name)] + TagItems(tags[1..]);
      assert d[pos] == items[0] && d[pos + 1] == items[1];
      assert d[pos + 2..pos + 2 * |tags|] == items[2..];
      TagItemsRoundTrip(d, pos + 2, tags[1..]);
      calc {
        ReadTagItems(d, pos, |tags|);
        { ReadTagItemsStep(d, pos, |tags|, tags[0].name); }
        ([tags[0]] + tags[1..], pos + 2 + 2 * |tags[1..]|);
        { assert tags == [tags[0]] + tags[1..]; }
        (tags, pos + 2 * |tags|);
      }
    }
  }

  lemma TagListRoundTrip(pre: seq<ParcelValue>, tags: seq<Tag>, post: seq<ParcelValue>)
    ensures ReadTagList(pre + TagListEncoding(tags) + post, |pre|) == (tags, |pre| + |TagListEncoding(tags)|)
  {
    var d := pre + TagListEncoding(tags) + post;
    assert d[|pre|] == PInt(|tags|);
    assert d[|pre| + 1..|pre| + 1 + 2 * |tags|] == TagItems(tags);
    TagItemsRoundTrip(d, |pre| + 1, tags);
  }

  method WriteTagList(tags: seq<Tag>, dest: Parcel)
    modifies dest
    ensures dest.data == old(dest.data) + TagListEncoding(tags) && dest.pos == old(dest.pos)
  {
    dest.WriteInt(|tags|);
    var i := 0;
    while i < |tags|
      invariant 0 <= i <= |tags| && dest.pos == old(dest.pos)
      invariant dest.data == old(dest.data) + [PInt(|tags|)] + TagItems(tags[..i])
    {
      TagItemsSnoc(tags[..i], tags[i]);
      assert tags[..i + 1] == tags[..i] + [tags[i]];
      dest.WriteInt(1);
      WriteTagToParcel(tags[i], dest);
      i := i + 1;
    }
    assert tags[..i] == tags;
  }

  method ReadTagListFrom(src: Parcel) returns (tags: seq<Tag>)
    modifies src
    ensures (tags, src.pos) == ReadTagList(old(src.data), old(src.pos)) && src.data == old(src.data)
  {
    var n := src.ReadInt();
    ghost var start := src.pos;
    var count: nat := if n > 0 then n else 0;
    tags := [];
    var i := 0;
    ghost var all := ReadTagItems(src.data, start, count);
    assert [] + all.0 == all.0;
    while i < count
      invariant 0 <= i <= count && src.data == old(src.data)
      invariant ReadTagItems(src.data, start, count) ==
        (tags + ReadTagItems(src.data, src.pos, count - i).0, ReadTagItems(src.data, src.pos, count - i).1)
    {
      ghost var here := src.pos;
      var flag := src.ReadInt();
      if flag != 0 {
        var t := CreateTagFromParcel(src);
        ghost var rest := ReadTagItems(src.data, src.pos, count - i - 1);
        assert ReadTagItems(src.data, here, count - i) == ([t] + rest.0, rest.1);
        assert tags + ([t] + rest.0) == (tags + [t]) + rest.0;
        tags := tags + [t];
      }
      i := i + 1;
    }
    assert tags + [] == tags;
  }
}
