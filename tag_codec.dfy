/**
 * How DataSource.java stores a walk's tags in the walks table's tags column and
 * reads them back: names joined with TAG_PADDING (" , "), split on it again,
 * turned into tags by Tag.stringArrayToList and filtered by the Walk constructor.
 */
module TagCodec {
  import opened Wrappers
  import opened Tags
  import JavaStrings
  import Walks

  const TagPadding: string := " , "

  lemma PaddingHasOneComma()
    ensures JavaStrings.OneComma(TagPadding, 1)
  {
  }

  /** createTemporaryWalk and editWalk: every name followed by the padding. */
  function EncodeTrailing(tags: seq<Tag>): string
  {
    JavaStrings.JoinTrailing(Names(tags), TagPadding)
  }

  /** saveWalk: the padding between names, none after the last. */
  function EncodePlain(tags: seq<Tag>): string
  {
    JavaStrings.JoinPlain(Names(tags), TagPadding)
  }

  /** Whether every name can travel through the column: not empty and without a comma. */
  predicate AllCarriable(tags: seq<Tag>)
  {
    forall i :: 0 <= i < |tags| ==> JavaStrings.Carriable(tags[i].name)
  }

  /** Any list drawn from carriable tags is carriable. */
  lemma AllCarriableSubset(a: seq<Tag>, b: seq<Tag>)
    requires AllCarriable(a) && forall t :: t in b ==> t in a
    ensures AllCarriable(b)
  {
    forall i | 0 <= i < |b| ensures JavaStrings.Carriable(b[i].name) {
      assert b[i] in a;
      var k :| 0 <= k < |a| && a[k] == b[i];
    }
  }

  /**
   * cursorToWalk's reading of the column with the constructor's filter read as
   * intended: None when the split yields no piece, so that stringArrayToList
   * returns null and the constructor throws; otherwise the named pieces as tags.
   */
  function DecodeTags(s: string): (r: Option<seq<Tag>>)
    ensures r.None? <==> JavaStrings.Split(s, TagPadding) == []
    ensures r.Some? ==> forall t :: t in r.value ==> t.name != "" && t.name in JavaStrings.Split(s, TagPadding)
  {
    var parts := JavaStrings.Split(s, TagPadding);
    if parts == [] then None
    else
      NamesToTags(parts);
      Walks.KeepNamedMembers(ToTags(parts));
      Some(Walks.KeepNamed(ToTags(parts)))
  }

  /** The same reading with the constructor's filter as written, which keeps every piece. */
  function DecodeTagsAsWritten(s: string): (r: Option<seq<Tag>>)
    ensures r.None? <==> JavaStrings.Split(s, TagPadding) == []
    ensures r.Some? ==> Names(r.value) == JavaStrings.Split(s, TagPadding)
  {
    var parts := JavaStrings.Split(s, TagPadding);
    if parts == [] then None
    else
      NamesToTags(parts);
      Some(Walks.KeepNamedAsWritten(ToTags(parts)))
  }

  /** Tags stored by createTemporaryWalk or editWalk read back unchanged, no tags included. */
  lemma TrailingRoundTrip(tags: seq<Tag>)
    requires AllCarriable(tags)
    ensures DecodeTags(EncodeTrailing(tags)) == Some(tags)
  {
    PaddingHasOneComma();
    JavaStrings.SplitJoinTrailing(Names(tags), TagPadding, 1);
    ToTagsNames(tags);
    if tags == [] {
      assert JavaStrings.Split(EncodeTrailing(tags), TagPadding) == [""];
      assert Walks.KeepNamed(ToTags([""])) == [];
    } else {
      Walks.KeepNamedAllNamed(tags);
    }
  }

  /** Tags stored by saveWalk read back unchanged, no tags included. */
  lemma PlainRoundTrip(tags: seq<Tag>)
    requires AllCarriable(tags)
    ensures DecodeTags(EncodePlain(tags)) == Some(tags)
  {
    PaddingHasOneComma();
    JavaStrings.SplitJoinPlain(Names(tags), TagPadding, 1);
    ToTagsNames(tags);
    if tags == [] {
      assert Walks.KeepNamed(ToTags([""])) == [];
    } else {
      Walks.KeepNamedAllNamed(tags);
    }
  }

  /**
   * As written, a walk saved without tags reads back with one tag named "";
   * editWalk then stores " , ", which splits into no piece at all, so every
   * later read of that walk throws.
   */
  lemma AsWrittenUntaggedWalkBreaks()
    ensures DecodeTagsAsWritten(EncodePlain([])) == Some([Tag("")])
    ensures DecodeTagsAsWritten(EncodeTrailing([])) == Some([Tag("")])
    ensures EncodeTrailing([Tag("")]) == TagPadding
    ensures DecodeTagsAsWritten(EncodeTrailing([Tag("")])) == None
  {
    assert JavaStrings.IndexOf("", TagPadding) == None;
    assert Names([]) == [] && Names([Tag("")]) == [""];
    assert EncodePlain([]) == "" && EncodeTrailing([]) == "";
    assert JavaStrings.Split("", TagPadding) == [""];
    assert ToTags([""]) == [Tag("")];
    assert JavaStrings.JoinTrailing([""], TagPadding) == TagPadding;
    assert JavaStrings.IndexOf(TagPadding, TagPadding) == Some(0);
    assert TagPadding[..0] == "" && TagPadding[3..] == "";
    assert JavaStrings.SplitAll(TagPadding, TagPadding) == ["", ""];
    assert ["", ""][..1] == [""];
    assert JavaStrings.DropTrailingEmpty(["", ""]) == [];
  }

  /** With the intended filter the same walk reads back with no tags, and editing it keeps it readable. */
  lemma UntaggedWalkRoundTrip()
    ensures DecodeTags(EncodePlain([])) == Some([])
    ensures DecodeTags(EncodeTrailing([])) == Some([])
    ensures DecodeTags(EncodeTrailing(Walks.KeepNamed([Tag("")]))) == Some([])
  {
    assert JavaStrings.IndexOf("", TagPadding) == None;
    assert Walks.KeepNamed([Tag("")]) == [];
  }
}
