/**
 * WalkListActivity.java: the list of saved walks. It loads every walk in the
 * saved sort order, or only those sharing a tag with the user's selection,
 * hands them to the adapter, and keeps its own view of the GPS service's
 * state (running, tracking a walk, locked on).
 */
module WalkList {
  import opened Wrappers
  import opened Tags
  import opened Walks
  import opened Store
  import DataSource
  import Query
  import Adapter
  import Gps

  /**
   * The test of filterWalksByTag's loop: a copy of the walk's tag list, after
   * retainAll(selection), is not empty.
   */
  predicate SharesTag(tags: seq<Tag>, checked: seq<Tag>)
  {
    Within(tags, checked) != []
  }

  /** Sharing a tag means some tag of the walk is selected. */
  lemma SharesTagMeaning(tags: seq<Tag>, checked: seq<Tag>)
    ensures SharesTag(tags, checked) <==> exists t :: t in tags && t in checked
  {
    var kept := Within(tags, checked);
    WithinMeaning(tags, checked);
    if kept != [] {
      assert kept[0] in kept;
    }
  }

  /** The walks the tag filter keeps, in their order. */
  function Tagged(vs: seq<WalkValue>, checked: seq<Tag>): (r: seq<WalkValue>)
    ensures |r| <= |vs|
  {
    if vs == [] then []
    else (if SharesTag(vs[0].tags, checked) then [vs[0]] else []) + Tagged(vs[1..], checked)
  }

  /** A walk survives the filter exactly when it was listed and shares a tag with the selection. */
  lemma {:induction false} TaggedMembers(vs: seq<WalkValue>, checked: seq<Tag>)
    ensures forall v :: v in Tagged(vs, checked) <==> v in vs && SharesTag(v.tags, checked)
  {
    if vs != [] {
      TaggedMembers(vs[1..], checked);
      assert forall v :: v in vs <==> v == vs[0] || v in vs[1..];
    }
  }

  /** The filter keeps relative order: it distributes over concatenation. */
  lemma {:induction false} TaggedAppend(a: seq<WalkValue>, b: seq<WalkValue>, checked: seq<Tag>)
    ensures Tagged(a + b, checked) == Tagged(a, checked) + Tagged(b, checked)
  {
    if a == [] {
      assert a + b == b;
    } else {
      var head := if SharesTag(a[0].tags, checked) then [a[0]] else [];
      assert (a + b)[0] == a[0] && (a + b)[1..] == a[1..] + b;
      assert Tagged(a + b, checked) == head + Tagged(a[1..] + b, checked);
      TaggedAppend(a[1..], b, checked);
      assert head + (Tagged(a[1..], checked) + Tagged(b, checked)) ==
        (head + Tagged(a[1..], checked)) + Tagged(b, checked);
    }
  }

  /** Filtering a filtered list again changes nothing, so re-applying the selection is stable. */
  lemma {:induction false} TaggedIdempotent(vs: seq<WalkValue>, checked: seq<Tag>)
    ensures Tagged(Tagged(vs, checked), checked) == Tagged(vs, checked)
  {
    if vs != [] {
      var rest := Tagged(vs[1..], checked);
      TaggedIdempotent(vs[1..], checked);
      if SharesTag(vs[0].tags, checked) {
        var r := [vs[0]] + rest;
        assert r[0] == vs[0] && r[1..] == rest;
        calc {
          Tagged(Tagged(vs, checked), checked);
          Tagged(r, checked);
          [vs[0]] + Tagged(rest, checked);
          r;
        }
      } else {
        assert Tagged(vs, checked) == [] + rest == rest;
      }
    }
  }

  /** No selection keeps nothing. */
  lemma {:induction false} TaggedNothingSelected(vs: seq<WalkValue>)
    ensures Tagged(vs, []) == []
  {
    if vs != [] {
      SharesTagMeaning(vs[0].tags, []);
      TaggedNothingSelected(vs[1..]);
    }
  }

  /** The walks getAllWalks yields for these rows, or None when some row cannot be read. */
  function Listed(rows: seq<WalkRow>): (r: Option<seq<WalkValue>>)
    ensures r.Some? <==> forall i :: 0 <= i < |rows| ==> DataSource.RowValue(rows[i]).Some?
    ensures r.Some? ==> (|r.value| == |rows| &&
      forall i :: 0 <= i < |rows| ==> r.value[i] == DataSource.RowValue(rows[i]).value)
  {
    if rows == [] then Some([])
    else
      match DataSource.RowValue(rows[0])
      case None => None
      case Some(v) =>
        assert forall i :: 1 <= i < |rows| ==> rows[1..][i - 1] == rows[i];
        match Listed(rows[1..])
        case None => None
        case Some(rest) => Some([v] + rest)
  }

  /** The state of the list as the user sees it: filtered or not, the kept selection, the walks held. */
  datatype Shown = Shown(filtered: bool, checked: Option<seq<Tag>>, values: seq<WalkValue>)

  /**
   * filterWalksByTag on a readable database: an empty selection, or one that
   * no walk shares, falls back to displayAll (every walk, no filter, no
   * selection); otherwise the walks sharing a tag, with the selection kept.
   */
  function FilterOutcome(listed: seq<WalkValue>, received: seq<Tag>): Shown
  {
    if received == [] || Tagged(listed, received) == [] then Shown(false, None, listed)
    else Shown(true, Some(received), Tagged(listed, received))
  }

  /** What a refresh shows: without a filter every walk listed, the selection unchanged; with one, FilterOutcome. */
  function Expected(listed: seq<WalkValue>, wasFiltered: bool, wasChecked: Option<seq<Tag>>): Shown
    requires wasFiltered ==> wasChecked.Some?
  {
    if wasFiltered then FilterOutcome(listed, wasChecked.value) else Shown(false, wasChecked, listed)
  }

  /** A filtered outcome holds the selection and only, and every one of, the listed walks that share a tag with it. */
  lemma FilterOutcomeMeaning(listed: seq<WalkValue>, received: seq<Tag>)
    ensures var o := FilterOutcome(listed, received);
      o.filtered <==> exists v :: v in listed && SharesTag(v.tags, received)
    ensures var o := FilterOutcome(listed, received);
      o.filtered ==> (o.checked == Some(received) &&
        forall v :: v in o.values <==> v in listed && SharesTag(v.tags, received))
    ensures var o := FilterOutcome(listed, received);
      !o.filtered ==> o.checked == None && o.values == listed
  {
    TaggedMembers(listed, received);
    forall v | v in listed {
      SharesTagMeaning(v.tags, received);
    }
    var kept := Tagged(listed, received);
    if kept != [] {
      assert kept[0] in kept;
    }
    if received == [] {
      TaggedNothingSelected(listed);
    }
  }

  /** Re-applying a filter that held leaves the same walks on show. */
  lemma FilterOutcomeStable(listed: seq<WalkValue>, received: seq<Tag>)
    requires FilterOutcome(listed, received).filtered
    ensures FilterOutcome(FilterOutcome(listed, received).values, received) == FilterOutcome(listed, received)
  {
    TaggedIdempotent(listed, received);
  }

  /** getAllWalks as the activity uses it: one new walk object for each value Listed yields. */
  method LoadWalks(db: Database, sortValue: int) returns (loaded: bool, all: seq<Walk>)
    ensures var listed := Listed(Query.OrderedRows(db.walks, sortValue));
      loaded <==> listed.Some?
    ensures var listed := Listed(Query.OrderedRows(db.walks, sortValue));
      loaded ==> |all| == |listed.value| && forall i :: 0 <= i < |all| ==> all[i].Value() == listed.value[i]
    ensures forall i, j :: 0 <= i < j < |all| ==> all[i] != all[j]
  {
    loaded, all := DataSource.GetAllWalks(db, sortValue);
  }

  /** getAllWalks followed by the tag filter: the walk objects holding exactly the values Tagged keeps. */
  method LoadTagged(db: Database, sortValue: int, checked: seq<Tag>) returns (loaded: bool, kept: seq<Walk>)
    ensures var listed := Listed(Query.OrderedRows(db.walks, sortValue));
      loaded <==> listed.Some?
    ensures var listed := Listed(Query.OrderedRows(db.walks, sortValue));
      loaded ==> (|kept| == |Tagged(listed.value, checked)| &&
        forall i :: 0 <= i < |kept| ==> kept[i].Value() == Tagged(listed.value, checked)[i])
  {
    var all;
    loaded, all := LoadWalks(db, sortValue);
    kept := [];
    if loaded {
      ghost var listed := Listed(Query.OrderedRows(db.walks, sortValue)).value;
      ghost var from;
      kept, from := KeepTagged(all, listed, checked);
      forall j | 0 <= j < |kept|
        ensures kept[j].Value() == Tagged(listed, checked)[j]
      {
        assert kept[j] == all[from[j]];
      }
    }
  }

  /** ArrayList.remove(Object) on walks, whose equals is identity: drops the first occurrence of `w`. */
  function RemoveWalk(ws: seq<Walk>, w: Walk): (r: seq<Walk>)
    ensures w !in ws ==> r == ws
    ensures w in ws ==> |r| == |ws| - 1
  {
    if ws == [] then []
    else if ws[0] == w then ws[1..]
    else [ws[0]] + RemoveWalk(ws[1..], w)
  }

  /** Removing a walk that sits after a prefix not holding it closes the gap it leaves. */
  lemma {:induction false} RemoveWalkAfter(p: seq<Walk>, w: Walk, q: seq<Walk>)
    requires w !in p
    ensures RemoveWalk(p + [w] + q, w) == p + q
  {
    if p != [] {
      assert (p + [w] + q)[1..] == p[1..] + [w] + q;
      RemoveWalkAfter(p[1..], w, q);
    }
  }

  /**
   * What filterWalksByTag's loop knows after looking at the first `i` walks:
   * the list is the survivors so far followed by the walks not yet looked
   * at, and survivor `j` is the walk at position from[j], whose value is the
   * j-th value Tagged keeps of the first `i` values.
   */
  ghost predicate Tracking(all: seq<Walk>, values: seq<WalkValue>, i: int,
                           survivors: seq<Walk>, from: seq<int>, kept: seq<Walk>, prefix: seq<WalkValue>)
  {
    0 <= i <= |all| == |values| && kept == survivors + all[i..] &&
    |survivors| == |from| == |prefix| &&
    forall j :: 0 <= j < |from| ==>
      0 <= from[j] < i && survivors[j] == all[from[j]] && prefix[j] == values[from[j]]
  }

  /** One pass of that loop: the walk at `i` stays in place and joins the survivors, or leaves the list. */
  lemma TrackingStep(all: seq<Walk>, values: seq<WalkValue>, i: int,
                     survivors: seq<Walk>, from: seq<int>, kept: seq<Walk>, prefix: seq<WalkValue>, shares: bool,
                     survivors': seq<Walk>, from': seq<int>, kept': seq<Walk>, prefix': seq<WalkValue>)
    requires forall i, j :: 0 <= i < j < |all| ==> all[i] != all[j]
    requires Tracking(all, values, i, survivors, from, kept, prefix) && i < |all|
    requires survivors' == survivors + (if shares then [all[i]] else [])
    requires from' == from + (if shares then [i] else [])
    requires kept' == if shares then kept else RemoveWalk(kept, all[i])
    requires prefix' == prefix + (if shares then [values[i]] else [])
    ensures Tracking(all, values, i + 1, survivors', from', kept', prefix')
  {
    SurvivorsStep(all, i, survivors, from, kept, shares);
    FromStep(all, values, survivors, from, prefix, i, shares);
  }

  /** The list part of that pass: a survivor stays, any other walk is removed by reference. */
  lemma SurvivorsStep(all: seq<Walk>, i: int, survivors: seq<Walk>, from: seq<int>, kept: seq<Walk>, shares: bool)
    requires forall i, j :: 0 <= i < j < |all| ==> all[i] != all[j]
    requires 0 <= i < |all| && kept == survivors + all[i..] && |survivors| == |from|
    requires forall j :: 0 <= j < |from| ==> 0 <= from[j] < i && survivors[j] == all[from[j]]
    ensures (if shares then kept else RemoveWalk(kept, all[i])) ==
      survivors + (if shares then [all[i]] else []) + all[i + 1..]
  {
    var w, rest := all[i], all[i + 1..];
    assert all[i..] == [w] + rest;
    assert kept == survivors + [w] + rest;
    if !shares {
      assert w !in survivors by {
        forall j | 0 <= j < |survivors|
          ensures survivors[j] != w
        {
          assert survivors[j] == all[from[j]] && from[j] < i;
        }
      }
      RemoveWalkAfter(survivors, w, rest);
    }
  }

  /** The bookkeeping part of that pass: where each survivor came from. */
  lemma FromStep(all: seq<Walk>, values: seq<WalkValue>, survivors: seq<Walk>, from: seq<int>,
                 kept: seq<WalkValue>, i: int, shares: bool)
    requires 0 <= i < |all| == |values|
    requires |survivors| == |from| == |kept|
    requires forall j :: 0 <= j < |from| ==> 0 <= from[j] < i && survivors[j] == all[from[j]] && kept[j] == values[from[j]]
    ensures var s := survivors + (if shares then [all[i]] else []);
      var f := from + (if shares then [i] else []);
      var k := kept + (if shares then [values[i]] else []);
      |s| == |f| == |k| &&
      forall j :: 0 <= j < |f| ==> 0 <= f[j] < i + 1 && s[j] == all[f[j]] && k[j] == values[f[j]]
  {
  }

  /**
   * The loop of filterWalksByTag: over a copy of the loaded walks, a walk
   * whose copied tag list, after retainAll(selection), is empty is removed
   * from the list by reference. The walks that stay hold, in order, the
   * values Tagged keeps of the values the walks held.
   */
  method KeepTagged(all: seq<Walk>, ghost values: seq<WalkValue>, checked: seq<Tag>)
    returns (kept: seq<Walk>, ghost from: seq<int>)
    requires forall i, j :: 0 <= i < j < |all| ==> all[i] != all[j]
    requires |values| == |all| && forall i :: 0 <= i < |all| ==> all[i].tags.items == values[i].tags
    ensures |kept| == |from| == |Tagged(values, checked)|
    ensures forall j :: 0 <= j < |kept| ==>
      0 <= from[j] < |all| && kept[j] == all[from[j]] && Tagged(values, checked)[j] == values[from[j]]
  {
    kept := all;
    ghost var survivors: seq<Walk> := [];
    ghost var prefix: seq<WalkValue> := [];
    from := [];
    var i := 0;
    assert values[..0] == [] && all[0..] == all;
    while i < |all|
      invariant Tracking(all, values, i, survivors, from, kept, prefix)
      invariant prefix == Tagged(values[..i], checked)
    {
      ghost var tags := values[i].tags;
      assert all[i].tags.items == tags;
      var shares := SharesTag(all[i].tags.items, checked);
      ghost var survivors0, from0, kept0, prefix0 := survivors, from, kept, prefix;
      if !shares {
        kept := RemoveWalk(kept, all[i]);
      }
      survivors := survivors + (if shares then [all[i]] else []);
      from := from + (if shares then [i] else []);
      prefix := prefix + (if shares then [values[i]] else []);
      TrackingStep(all, values, i, survivors0, from0, kept0, prefix0, shares, survivors, from, kept, prefix);
      TaggedStep(values, i, checked);
      i := i + 1;
    }
    assert all[i..] == [] && values[..i] == values;
  }

  /** The filter over one more value keeps it at the end exactly when it shares a tag. */
  lemma TaggedStep(values: seq<WalkValue>, i: int, checked: seq<Tag>)
    requires 0 <= i < |values|
    ensures Tagged(values[..i + 1], checked) ==
      Tagged(values[..i], checked) + (if SharesTag(values[i].tags, checked) then [values[i]] else [])
  {
    assert values[..i + 1] == values[..i] + [values[i]];
    TaggedAppend(values[..i], [values[i]], checked);
    assert [values[i]][1..] == [];
  }

  /** The state onCreate may restore: the saved selection and whether it filtered the list. */
  datatype SavedState = SavedState(checkedTags: Option<seq<Tag>>, filteredByTags: bool)

  class WalkListActivity {
    var filteredByTags: bool
    var checkedTags: Option<seq<Tag>>
    var walks: seq<Walk>
    const adapter: Adapter.ListAdapter
    var inForeground: bool
    var serviceRunning: bool
    var trackingWalk: bool
    var gpsLocked: bool
    /** The service connection is held (conn != null). */
    var bound: bool
    var service: Gps.GpsService?
    /** GPSService's static fields, shared with the service. */
    const statics: Gps.GpsStatics

    /** The service, once connected, is the one whose static fields this activity reads. */
    predicate Valid()
      reads this
    {
      service != null ==> service.statics == statics
    }

    /**
     * What a list refresh that started from `wasFiltered` and `wasChecked`
     * leaves behind when it completes (`ok`): the filter flag, the selection
     * and as many walks as Expected says, and the adapter showing the list
     * minus the walk in progress. The methods state the walks' values next to it.
     */
    ghost predicate Refreshed(listed: Option<seq<WalkValue>>, wasFiltered: bool, wasChecked: Option<seq<Tag>>, ok: bool)
      reads this`filteredByTags, this`checkedTags, this`walks, adapter`walks
    {
      (ok <==> (!wasFiltered || wasChecked.Some?) && listed.Some?) &&
      (ok ==>
        var o := Expected(listed.value, wasFiltered, wasChecked);
        adapter.walks == Adapter.Visible(walks) &&
        filteredByTags == o.filtered && checkedTags == o.checked && |walks| == |o.values|)
    }

    /** onCreate: an empty list and adapter, and the selection restored from a saved state. */
    constructor (statics: Gps.GpsStatics, saved: Option<SavedState>)
      ensures this.statics == statics && service == null && Valid()
      ensures walks == [] && adapter.walks == [] && fresh(adapter)
      ensures saved.None? ==> !filteredByTags && checkedTags == None
      ensures saved.Some? ==> filteredByTags == saved.value.filteredByTags && checkedTags == saved.value.checkedTags
      ensures inForeground && !serviceRunning && !trackingWalk && !gpsLocked && !bound
    {
      this.statics := statics;
      walks := [];
      adapter := new Adapter.ListAdapter([]);
      service := null;
      inForeground := true;
      serviceRunning := false;
      trackingWalk := false;
      gpsLocked := false;
      bound := false;
      if saved.Some? {
        checkedTags := saved.value.checkedTags;
        filteredByTags := saved.value.filteredByTags;
      } else {
        checkedTags := None;
        filteredByTags := false;
      }
    }

    /** updateWalksList: re-applies the selection when filtered, else loads every walk in the sort order. */
    method UpdateWalksList(db: Database, sortValue: int) returns (ok: bool)
      modifies this`filteredByTags, this`checkedTags, this`walks, adapter`walks
      ensures Refreshed(Listed(Query.OrderedRows(db.walks, sortValue)), old(filteredByTags), old(checkedTags), ok)
      ensures ok ==> forall i :: 0 <= i < |walks| ==>
        walks[i].Value() == Expected(Listed(Query.OrderedRows(db.walks, sortValue)).value, old(filteredByTags), old(checkedTags)).values[i]
      decreases if filteredByTags then 4 else 0
    {
      if filteredByTags {
        ok := FilterWalksByTag(db, checkedTags, sortValue);
      } else {
        var loaded, all := LoadWalks(db, sortValue);
        if !loaded {
          return false;
        }
        walks := all;
        adapter.SetWalks(walks);
        ok := true;
      }
    }

    /** displayAll: clears the filter and the selection, then refreshes the list. */
    method DisplayAll(db: Database, sortValue: int) returns (ok: bool)
      modifies this`filteredByTags, this`checkedTags, this`walks, adapter`walks
      ensures Refreshed(Listed(Query.OrderedRows(db.walks, sortValue)), false, None, ok)
      ensures ok ==> forall i :: 0 <= i < |walks| ==>
        walks[i].Value() == Expected(Listed(Query.OrderedRows(db.walks, sortValue)).value, false, None).values[i]
      decreases 1
    {
      filteredByTags := false;
      checkedTags := None;
      ok := UpdateWalksList(db, sortValue);
    }

    /**
     * filterWalksByTag: keeps the selection, then shows the walks sharing a
     * tag with it, or every walk when the selection is empty or nothing
     * survives. A null selection throws at its size().
     */
    method FilterWalksByTag(db: Database, received: Option<seq<Tag>>, sortValue: int) returns (ok: bool)
      modifies this`filteredByTags, this`checkedTags, this`walks, adapter`walks
      ensures Refreshed(Listed(Query.OrderedRows(db.walks, sortValue)), true, received, ok)
      ensures ok ==> forall i :: 0 <= i < |walks| ==>
        walks[i].Value() == Expected(Listed(Query.OrderedRows(db.walks, sortValue)).value, true, received).values[i]
      decreases 3
    {
      checkedTags := received;
      if received.None? {
        return false;
      }
      if |received.value| == 0 {
        ok := DisplayAll(db, sortValue);
        return;
      }
      filteredByTags := true;
      ok := ShowTagged(db, sortValue, received.value);
    }

    /**
     * The rest of filterWalksByTag, once the filter flag is set for a
     * non-empty selection: the loaded walks sharing a tag with it, or every
     * walk when none does.
     */
    method ShowTagged(db: Database, sortValue: int, received: seq<Tag>) returns (ok: bool)
      requires received != []
      modifies this`filteredByTags, this`checkedTags, this`walks, adapter`walks
      ensures Refreshed(Listed(Query.OrderedRows(db.walks, sortValue)), true, Some(received), ok)
      ensures ok ==> forall i :: 0 <= i < |walks| ==>
        walks[i].Value() == Expected(Listed(Query.OrderedRows(db.walks, sortValue)).value, true, Some(received)).values[i]
      decreases 2
    {
      checkedTags := Some(received);
      filteredByTags := true;
      var loaded, survivors := LoadTagged(db, sortValue, received);
      if !loaded {
        return false;
      }
      ghost var listed := Listed(Query.OrderedRows(db.walks, sortValue)).value;
      walks := survivors;
      if |walks| == 0 {
        assert Expected(listed, true, Some(received)) == Expected(listed, false, None);
        ok := DisplayAll(db, sortValue);
      } else {
        assert Expected(listed, true, Some(received)) == Shown(true, Some(received), Tagged(listed, received));
        adapter.SetWalks(walks);
        ok := true;
      }
    }

    /**
     * onResume: refreshes the list, then copies the service's state (see
     * SyncWithService). When the refresh throws, nothing else happens.
     */
    method OnResume(db: Database, sortValue: int) returns (ok: bool)
      modifies this`filteredByTags, this`checkedTags, this`walks, adapter`walks
      modifies this`inForeground, this`serviceRunning, this`trackingWalk, this`gpsLocked, this`bound, statics`isCancelled
      ensures Refreshed(Listed(Query.OrderedRows(db.walks, sortValue)), old(filteredByTags), old(checkedTags), ok)
      ensures ok ==> forall i :: 0 <= i < |walks| ==>
        walks[i].Value() == Expected(Listed(Query.OrderedRows(db.walks, sortValue)).value, old(filteredByTags), old(checkedTags)).values[i]
      ensures !ok ==> ((inForeground, serviceRunning, trackingWalk, gpsLocked, bound, statics.isCancelled) ==
        old((inForeground, serviceRunning, trackingWalk, gpsLocked, bound, statics.isCancelled)))
      ensures ok ==> inForeground && serviceRunning == statics.isRunning && !statics.isCancelled
      ensures ok && !statics.isRunning ==> !trackingWalk && !gpsLocked && bound == old(bound)
      ensures ok && statics.isRunning ==> trackingWalk == statics.trackingWalk && gpsLocked == old(gpsLocked) && bound
    {
      ok := UpdateWalksList(db, sortValue);
      if ok {
        SyncWithService();
      }
    }

    /**
     * The rest of onResume: in the foreground; when the service is not
     * running the activity is neither tracking nor locked on; when it is,
     * tracking is read from the service and the activity binds to it. A
     * pending cancellation is cleared.
     */
    method SyncWithService()
      modifies this`inForeground, this`serviceRunning, this`trackingWalk, this`gpsLocked, this`bound, statics`isCancelled
      ensures inForeground && serviceRunning == statics.isRunning && !statics.isCancelled
      ensures !statics.isRunning ==> !trackingWalk && !gpsLocked && bound == old(bound)
      ensures statics.isRunning ==> trackingWalk == statics.trackingWalk && gpsLocked == old(gpsLocked) && bound
    {
      inForeground := true;
      serviceRunning := statics.isRunning;
      if !serviceRunning {
        gpsLocked := false;
        trackingWalk := false;
      } else {
        trackingWalk := statics.trackingWalk;
        bound := true;
      }
      if statics.isCancelled {
        statics.isCancelled := false;
      }
    }

    /** onPause: drops the connection and leaves the foreground. */
    method OnPause()
      modifies this`bound, this`inForeground
      ensures !bound && !inForeground
    {
      bound := false;
      inForeground := false;
    }

    /** onServiceConnected: keeps the service and registers this activity with it. */
    method OnServiceConnected(s: Gps.GpsService)
      requires s.statics == statics
      modifies this`service, s`hasListActivity
      ensures service == s && s.hasListActivity && Valid()
    {
      service := s;
      s.SetWalkListActivity(true);
    }

    /**
     * cancelGPS: tells the service the walk is finished, then forgets it:
     * not running, not tracking, not locked, not bound. Throws when no
     * service is connected or the service has no location manager.
     */
    method CancelGps() returns (ok: bool)
      requires Valid()
      modifies this`serviceRunning, this`trackingWalk, this`gpsLocked, this`bound, service, statics`isRunning
      ensures ok <==> old(service) != null && old(service.hasManager)
      ensures ok ==> !serviceRunning && !trackingWalk && !gpsLocked && !bound && !statics.isRunning
      ensures ok ==> !service.listening && !service.hasManager && !service.gpsLocked && service.notice == Gps.NoNotice
      ensures !ok ==> ((serviceRunning, trackingWalk, gpsLocked, bound, statics.isRunning) ==
        old((serviceRunning, trackingWalk, gpsLocked, bound, statics.isRunning)))
    {
      if service == null {
        return false;
      }
      ok := service.WalkFinished();
      if !ok {
        return;
      }
      bound := false;
      serviceRunning := false;
      trackingWalk := false;
      gpsLocked := false;
    }

    /** startGPSTracking: the activity is tracking, and asks the service to start recording. */
    method StartGpsTracking(db: Database) returns (ok: bool)
      requires Valid()
      modifies this`trackingWalk, service, statics`trackingWalk
      ensures trackingWalk
      ensures ok <==> old(service) != null && Gps.WalkZeroReadable(db)
      ensures old(service) != null ==> statics.trackingWalk
      ensures ok ==> service.notice == Gps.Tracking && service.gpsLocked && service.timerAlive
    {
      trackingWalk := true;
      if service == null {
        return false;
      }
      ok := service.StartTrackingWalk(db);
    }

    /**
     * setGPSLocked: the activity is locked on; when the "waiting for GPS"
     * dialogue is showing it is dismissed and tracking starts, and the map
     * opens for walk 0 when the activity is in the foreground.
     */
    method SetGpsLocked(db: Database, waitingDialogue: bool) returns (ok: bool, opensMap: bool)
      requires Valid()
      modifies this`gpsLocked, this`trackingWalk, service, statics`trackingWalk
      ensures gpsLocked
      ensures !waitingDialogue ==> ok && !opensMap && trackingWalk == old(trackingWalk)
      ensures waitingDialogue ==> trackingWalk && (ok <==> old(service) != null && Gps.WalkZeroReadable(db))
      ensures opensMap <==> waitingDialogue && ok && inForeground
    {
      gpsLocked := true;
      ok, opensMap := true, false;
      if waitingDialogue {
        ok := StartGpsTracking(db);
        opensMap := ok && inForeground;
      }
    }
  }
}
