/**
 * android.os.Parcel as the application uses it: a buffer of typed values
 * written one after the other and read back in the same order.
 */
module Parcels {
  datatype ParcelValue = PInt(i: int) | PLong(l: int) | PString(s: string)

  /** The int at `pos`, or 0 when the buffer is exhausted or holds another kind of value there. */
  function IntAt(data: seq<ParcelValue>, pos: nat): int
  {
    if pos < |data| && data[pos].PInt? then data[pos].i else 0
  }

  function LongAt(data: seq<ParcelValue>, pos: nat): int
  {
    if pos < |data| && data[pos].PLong? then data[pos].l else 0
  }

  function StringAt(data: seq<ParcelValue>, pos: nat): string
  {
    if pos < |data| && data[pos].PString? then data[pos].s else ""
  }

  /** The read position after one read: reads stop at the end of the buffer. */
  function Next(data: seq<ParcelValue>, pos: nat): (r: nat)
    ensures r <= pos + 1
  {
    if pos < |data| then pos + 1 else pos
  }

  class Parcel {
    var data: seq<ParcelValue>
    var pos: nat

    constructor ()
      ensures data == [] && pos == 0
    {
      data := [];
      pos := 0;
    }

    method WriteInt(v: int)
      modifies this
      ensures data == old(data) + [PInt(v)] && pos == old(pos)
    {
      data := data + [PInt(v)];
    }

    method WriteLong(v: int)
      modifies this
      ensures data == old(data) + [PLong(v)] && pos == old(pos)
    {
      data := data + [PLong(v)];
    }

    method WriteString(v: string)
      modifies this
      ensures data == old(data) + [PString(v)] && pos == old(pos)
    {
      data := data + [PString(v)];
    }

    /** setDataPosition(0): the receiving side reads from the start. */
    method Rewind()
      modifies this
      ensures data == old(data) && pos == 0
    {
      pos := 0;
    }

    method ReadInt() returns (v: int)
      modifies this
      ensures v == IntAt(old(data), old(pos)) && pos == Next(old(data), old(pos)) && data == old(data)
    {
      v := IntAt(data, pos);
      pos := Next(data, pos);
    }

    method ReadLong() returns (v: int)
      modifies this
      ensures v == LongAt(old(data), old(pos)) && pos == Next(old(data), old(pos)) && data == old(data)
    {
      v := LongAt(data, pos);
      pos := Next(data, pos);
    }

    method ReadString() returns (v: string)
      modifies this
      ensures v == StringAt(old(data), old(pos)) && pos == Next(old(data), old(pos)) && data == old(data)
    {
      v := StringAt(data, pos);
      pos := Next(data, pos);
    }
  }

  /** What was written at a position is what is read back there, whatever follows. */
  lemma ReadBack(pre: seq<ParcelValue>, v: ParcelValue, post: seq<ParcelValue>)
    ensures var d := pre + [v] + post;
      Next(d, |pre|) == |pre| + 1 &&
      (v.PInt? ==> IntAt(d, |pre|) == v.i) &&
      (v.PLong? ==> LongAt(d, |pre|) == v.l) &&
      (v.PString? ==> StringAt(d, |pre|) == v.s)
  {
  }
}
