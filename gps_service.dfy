/**
 * GPSService.java: the background service that records the walk in progress.
 * Location fixes, timer ticks, provider changes and the activities' requests
 * are the methods of one class whose boolean fields they flip. Every point
 * the service persists goes to walk 0 through createGeoPoint; `persisted` is
 * the log of those calls, and `geoPoints` must always be its image in
 * micro-degrees. Calls into the list and map activities are recorded in
 * `calls`; what an activity does in return is an argument.
 */
module Gps {
  import opened Store
  import DataSource

  /** The foreground notification on show. */
  datatype Notice = NoNotice | Searching | Tracking | Paused

  /** A call the service makes into an activity. */
  datatype Call = ListLocked | ListCancelled | MapPoint(point: DataSource.GeoPoint)

  /** The arguments of one `createGeoPoint(0, latitude, longitude)`. */
  datatype Fix = Fix(latitude: real, longitude: real)

  /** `new GeoPoint((int) (lat * 1e6), (int) (lon * 1e6))`. */
  function PointOf(f: Fix): DataSource.GeoPoint
  {
    DataSource.GeoPoint(DataSource.ToInt(f.latitude * 1000000.0), DataSource.ToInt(f.longitude * 1000000.0))
  }

  /** The points a log of createGeoPoint calls stands for, in order. */
  function Points(log: seq<Fix>): (r: seq<DataSource.GeoPoint>)
    ensures |r| == |log|
  {
    if log == [] then [] else Points(log[..|log| - 1]) + [PointOf(log[|log| - 1])]
  }

  /** The cached points are the logged fixes, one for one, in order. */
  lemma {:induction false} PointsOneForOne(log: seq<Fix>)
    ensures forall i :: 0 <= i < |log| ==> Points(log)[i] == PointOf(log[i])
  {
    if log != [] {
      PointsOneForOne(log[..|log| - 1]);
    }
  }

  /** The cache and the database agree: a logged fix reads back from the gps table as the same point. */
  lemma PointOfRow(f: Fix, id: int)
    ensures DataSource.GeoPointOf(ChildRow(id, InProgressId, f.latitude, f.longitude, ())) == PointOf(f)
  {
  }

  /** Whether getWalkById(0) returns a walk, so that showTrackingNotification can read its name. */
  predicate WalkZeroReadable(db: Database)
    reads db
  {
    FindWalk(db.walks, InProgressId).Some? && DataSource.RowValue(FindWalk(db.walks, InProgressId).value).Some?
  }

  /** isRunning, isCancelled and trackingWalk: static, so shared by the activities and by every service instance. */
  class GpsStatics {
    var isRunning: bool
    var isCancelled: bool
    var trackingWalk: bool

    constructor ()
      ensures !isRunning && !isCancelled && !trackingWalk
    {
      isRunning, isCancelled, trackingWalk := false, false, false;
    }
  }

  class GpsService {
    /** The class's static fields. */
    const statics: GpsStatics

    var gpsLocked: bool
    var readyForUpdate: bool
    var mapOpen: bool
    var paused: bool
    var resumePressed: bool

    var geoPoints: seq<DataSource.GeoPoint>
    var persisted: seq<Fix>
    var calls: seq<Call>

    /** walkListActivity != null and mapWalkActivity != null. */
    var hasListActivity: bool
    var hasMapActivity: bool
    /** locationManager != null, and whether the listener is registered with it. */
    var hasManager: bool
    var listening: bool
    /** Whether a timer thread is still in its loop. */
    var timerAlive: bool
    var notice: Notice
    /** The dismissable "GPS disabled" notification has been posted. */
    var disabledNotified: bool

    /** The invariant the service keeps: the cache holds exactly the points it persisted, in order. */
    predicate Valid()
      reads this`geoPoints, this`persisted
    {
      geoPoints == Points(persisted)
    }

    /**
     * The service as onStartCommand leaves it: listening for fixes, showing
     * "Searching for GPS", with an empty cache. The static flags are shared
     * and keep whatever an earlier instance left in them.
     */
    constructor (statics: GpsStatics)
      ensures this.statics == statics
      ensures !gpsLocked && !readyForUpdate && !mapOpen && !paused && !resumePressed
      ensures geoPoints == [] && persisted == [] && calls == []
      ensures !hasListActivity && !hasMapActivity && hasManager && listening && !timerAlive
      ensures notice == Searching && !disabledNotified
      ensures Valid()
    {
      this.statics := statics;
      gpsLocked, readyForUpdate, mapOpen, paused, resumePressed := false, false, false, false, false;
      geoPoints, persisted, calls := [], [], [];
      hasListActivity, hasMapActivity := false, false;
      hasManager, listening, timerAlive := true, true, false;
      notice, disabledNotified := Searching, false;
    }

    /** onBind. */
    method OnBind()
      modifies statics`isRunning
      ensures statics.isRunning
    {
      statics.isRunning := true;
    }

    method SetMapOpen(open: bool)
      modifies this`mapOpen
      ensures mapOpen == open
    {
      mapOpen := open;
    }

    method SetWalkListActivity(present: bool)
      modifies this`hasListActivity
      ensures hasListActivity == present
    {
      hasListActivity := present;
    }

    method SetMapWalkActivity(present: bool)
      modifies this`hasMapActivity
      ensures hasMapActivity == present
    {
      hasMapActivity := present;
    }

    /**
     * showTrackingNotification: throws when walk 0 cannot be read (its name is
     * needed for the text) before anything changes; otherwise shows "Tracking",
     * makes sure gpsLocked holds and starts a timer thread.
     */
    method ShowTrackingNotification(db: Database) returns (ok: bool)
      modifies this`notice, this`gpsLocked, this`timerAlive
      ensures ok <==> WalkZeroReadable(db)
      ensures ok ==> notice == Tracking && gpsLocked && timerAlive
      ensures !ok ==> notice == old(notice) && gpsLocked == old(gpsLocked) && timerAlive == old(timerAlive)
    {
      var walk := DataSource.GetWalkById(db, InProgressId);
      if walk.None? {
        return false;
      }
      notice := Tracking;
      if !gpsLocked {
        gpsLocked := true;
      }
      timerAlive := true;
      ok := true;
    }

    /** startTrackingWalk: trackingWalk is set before the notification is built. */
    method StartTrackingWalk(db: Database) returns (ok: bool)
      modifies statics`trackingWalk, this`notice, this`gpsLocked, this`timerAlive
      ensures ok <==> WalkZeroReadable(db)
      ensures statics.trackingWalk
      ensures ok ==> notice == Tracking && gpsLocked && timerAlive
      ensures !ok ==> notice == old(notice) && gpsLocked == old(gpsLocked) && timerAlive == old(timerAlive)
    {
      statics.trackingWalk := true;
      ok := ShowTrackingNotification(db);
    }

    /**
     * One pass of the timer thread's loop: while gpsLocked holds it opens the
     * gate for the next recorded point; once it finds gpsLocked false the
     * thread ends. Without a live thread nothing happens.
     */
    method Tick()
      modifies this`readyForUpdate, this`timerAlive
      ensures readyForUpdate == (old(readyForUpdate) || (old(timerAlive) && gpsLocked))
      ensures timerAlive == (old(timerAlive) && gpsLocked)
    {
      if timerAlive {
        if gpsLocked {
          readyForUpdate := true;
        } else {
          timerAlive := false;
        }
      }
    }

    /** pause: shows "Paused" and sets paused, then throws if the manager is gone; otherwise stops listening and drops the lock. */
    method Pause() returns (ok: bool)
      modifies this`notice, this`paused, this`listening, this`gpsLocked
      ensures ok <==> hasManager
      ensures paused && notice == Paused
      ensures ok ==> !listening && !gpsLocked
      ensures !ok ==> listening == old(listening) && gpsLocked == old(gpsLocked)
    {
      notice := Paused;
      paused := true;
      if !hasManager {
        return false;
      }
      listening := false;
      gpsLocked := false;
      ok := true;
    }

    /** resume: shows "Searching", clears paused, sets resumePressed, then listens again (throws if the manager is gone). */
    method Resume() returns (ok: bool)
      modifies this`notice, this`paused, this`resumePressed, this`listening
      ensures ok <==> hasManager
      ensures !paused && resumePressed && notice == Searching
      ensures listening == (ok || old(listening))
    {
      notice := Searching;
      paused := false;
      resumePressed := true;
      if !hasManager {
        return false;
      }
      listening := true;
      ok := true;
    }

    /** walkFinished: throws if the manager is already gone; otherwise the session ends. */
    method WalkFinished() returns (ok: bool)
      modifies this`listening, this`hasManager, this`gpsLocked, statics`isRunning, this`notice
      ensures ok <==> old(hasManager)
      ensures ok ==> !listening && !hasManager && !gpsLocked && !statics.isRunning && notice == NoNotice
      ensures !ok ==> (listening == old(listening) && hasManager == old(hasManager) && gpsLocked == old(gpsLocked) &&
        statics.isRunning == old(statics.isRunning) && notice == old(notice))
    {
      if !hasManager {
        return false;
      }
      listening := false;
      hasManager := false;
      gpsLocked := false;
      statics.isRunning := false;
      notice := NoNotice;
      ok := true;
    }

    /** createGeoPoint(0, lat, lon) and the same point added to the cache. */
    method Persist(f: Fix)
      requires Valid()
      modifies this`persisted, this`geoPoints
      ensures Valid()
      ensures persisted == old(persisted) + [f]
    {
      persisted := persisted + [f];
      geoPoints := geoPoints + [PointOf(f)];
    }

    /**
     * The first branch of onLocationChanged: tells the list activity (which
     * starts tracking when its waiting dialogue is open), persists the
     * lock-on point and sets gpsLocked.
     */
    method LockOn(db: Database, f: Fix, listStartsTracking: bool) returns (ok: bool)
      requires Valid()
      modifies this`calls, statics`trackingWalk, this`notice, this`gpsLocked, this`timerAlive, this`persisted, this`geoPoints
      ensures Valid()
      ensures ok <==> (!(hasListActivity && listStartsTracking) || WalkZeroReadable(db))
      ensures calls == old(calls) + (if hasListActivity then [ListLocked] else [])
      ensures persisted == old(persisted) + (if ok then [f] else [])
      ensures ok ==> gpsLocked
      ensures statics.trackingWalk == (old(statics.trackingWalk) || (hasListActivity && listStartsTracking))
      ensures hasListActivity && listStartsTracking && ok ==> timerAlive && notice == Tracking
      ensures !(hasListActivity && listStartsTracking && ok) ==> timerAlive == old(timerAlive) && notice == old(notice)
    {
      ghost var readable := WalkZeroReadable(db);
      if hasListActivity {
        calls := calls + [ListLocked];
      }
      assert WalkZeroReadable(db) == readable;
      if hasListActivity && listStartsTracking {
        ok := StartTrackingWalk(db);
        if !ok {
          return;
        }
      }
      Persist(f);
      gpsLocked := true;
      ok := true;
    }

    /** The last branch of onLocationChanged: record the point, hand it to an open map, close the gate until the next tick. */
    method Record(f: Fix)
      requires Valid()
      modifies this`persisted, this`geoPoints, this`calls, this`readyForUpdate
      ensures Valid()
      ensures persisted == old(persisted) + [f] && !readyForUpdate
      ensures mapOpen && hasMapActivity ==> calls == old(calls) + [MapPoint(PointOf(f))]
      ensures !(mapOpen && hasMapActivity) ==> calls == old(calls)
    {
      Persist(f);
      if mapOpen {
        if hasMapActivity {
          calls := calls + [MapPoint(PointOf(f))];
        }
      }
      readyForUpdate := false;
    }

    /**
     * onLocationChanged: the lock-on point when gpsLocked is false, or the
     * restart of tracking after a resume; then, when tracking and the gate is
     * open, the recorded point. False where it throws; `recorded` says whether
     * the last branch ran.
     */
    method OnLocationChanged(db: Database, latitude: real, longitude: real, listStartsTracking: bool)
      returns (ok: bool, ghost recorded: bool)
      requires Valid()
      modifies this`calls, statics`trackingWalk, this`notice, this`gpsLocked, this`timerAlive, this`persisted,
        this`geoPoints, this`resumePressed, this`readyForUpdate
      ensures Valid()
      ensures recorded == (ok && statics.trackingWalk && old(readyForUpdate))
      ensures readyForUpdate == (old(readyForUpdate) && !recorded)
      ensures ok ==> gpsLocked
      ensures var f := Fix(latitude, longitude);
        persisted == old(persisted) + (if !old(gpsLocked) && ok then [f] else []) + (if recorded then [f] else [])
      ensures var m := MapPoint(PointOf(Fix(latitude, longitude)));
        calls == old(calls) + (if !old(gpsLocked) && hasListActivity then [ListLocked] else []) +
          (if recorded && mapOpen && hasMapActivity then [m] else [])
      ensures !old(gpsLocked) ==> statics.trackingWalk == (old(statics.trackingWalk) || (hasListActivity && listStartsTracking))
      ensures old(gpsLocked) ==> statics.trackingWalk == old(statics.trackingWalk)
      ensures old(gpsLocked) && old(resumePressed) && ok ==> !resumePressed && notice == Tracking && timerAlive
      ensures old(gpsLocked) && !old(resumePressed) ==> ok && notice == old(notice) && timerAlive == old(timerAlive)
    {
      var f := Fix(latitude, longitude);
      if !gpsLocked {
        ok, recorded := LockThenRecord(db, f, listStartsTracking);
      } else if resumePressed {
        ok, recorded := ResumeThenRecord(db, f);
      } else {
        ok := true;
        recorded := RecordIfReady(f);
      }
    }

    /** The first branch of onLocationChanged and then the last one, when it applies. */
    method LockThenRecord(db: Database, f: Fix, listStartsTracking: bool) returns (ok: bool, ghost recorded: bool)
      requires Valid() && !gpsLocked
      modifies this`calls, statics`trackingWalk, this`notice, this`gpsLocked, this`timerAlive, this`persisted,
        this`geoPoints, this`readyForUpdate
      ensures Valid()
      ensures recorded == (ok && statics.trackingWalk && old(readyForUpdate))
      ensures readyForUpdate == (old(readyForUpdate) && !recorded)
      ensures ok ==> gpsLocked
      ensures persisted == old(persisted) + (if ok then [f] else []) + (if recorded then [f] else [])
      ensures calls == old(calls) + (if hasListActivity then [ListLocked] else []) +
        (if recorded && mapOpen && hasMapActivity then [MapPoint(PointOf(f))] else [])
      ensures statics.trackingWalk == (old(statics.trackingWalk) || (hasListActivity && listStartsTracking))
    {
      ok := LockOn(db, f, listStartsTracking);
      recorded := false;
      if ok {
        recorded := RecordIfReady(f);
      }
    }

    /** The second branch of onLocationChanged and then the last one, when it applies. */
    method ResumeThenRecord(db: Database, f: Fix) returns (ok: bool, ghost recorded: bool)
      requires Valid() && gpsLocked && resumePressed
      modifies this`calls, this`notice, this`gpsLocked, this`timerAlive, this`persisted,
        this`geoPoints, this`resumePressed, this`readyForUpdate
      ensures Valid()
      ensures recorded == (ok && statics.trackingWalk && old(readyForUpdate))
      ensures readyForUpdate == (old(readyForUpdate) && !recorded)
      ensures gpsLocked
      ensures persisted == old(persisted) + (if recorded then [f] else [])
      ensures calls == old(calls) + (if recorded && mapOpen && hasMapActivity then [MapPoint(PointOf(f))] else [])
      ensures ok ==> !resumePressed && notice == Tracking && timerAlive
    {
      ok := ResumeNotice(db);
      recorded := false;
      if ok {
        recorded := RecordIfReady(f);
      }
    }

    /** The second branch of onLocationChanged: the "GPS locked" notice again, and resumePressed cleared. */
    method ResumeNotice(db: Database) returns (ok: bool)
      modifies this`notice, this`gpsLocked, this`timerAlive, this`resumePressed
      ensures ok ==> !resumePressed && notice == Tracking && gpsLocked && timerAlive
      ensures !ok ==> gpsLocked == old(gpsLocked)
    {
      ok := ShowTrackingNotification(db);
      if ok {
        resumePressed := false;
      }
    }

    /** The last branch of onLocationChanged, run when tracking and the gate is open. */
    method RecordIfReady(f: Fix) returns (ghost recorded: bool)
      requires Valid()
      modifies this`persisted, this`geoPoints, this`calls, this`readyForUpdate
      ensures Valid()
      ensures recorded == (statics.trackingWalk && old(readyForUpdate))
      ensures readyForUpdate == (old(readyForUpdate) && !recorded)
      ensures persisted == old(persisted) + (if recorded then [f] else [])
      ensures calls == old(calls) + (if recorded && mapOpen && hasMapActivity then [MapPoint(PointOf(f))] else [])
    {
      var ready := statics.trackingWalk && readyForUpdate;
      recorded := ready;
      if ready {
        Record(f);
      }
    }

    /**
     * onProviderDisabled: before tracking, tells the user (a toast when the
     * list is in front, otherwise the dismissable notification and
     * isCancelled) and has the list activity end the session, which calls
     * walkFinished; while tracking, pauses. It throws when no list activity is
     * set, and wherever walkFinished or pause throws.
     */
    method OnProviderDisabled(listInForeground: bool) returns (ok: bool)
      modifies this`disabledNotified, statics`isCancelled, this`calls, this`listening, this`hasManager, this`gpsLocked,
        statics`isRunning, this`notice, this`paused
      ensures !statics.trackingWalk ==> paused == old(paused)
      ensures !statics.trackingWalk ==> (ok <==> hasListActivity && old(hasManager))
      ensures !statics.trackingWalk && ok ==> (!gpsLocked && !statics.isRunning && !listening && notice == NoNotice &&
        calls == old(calls) + [ListCancelled] &&
        disabledNotified == (old(disabledNotified) || !listInForeground) &&
        statics.isCancelled == (old(statics.isCancelled) || !listInForeground))
      ensures statics.trackingWalk ==> (ok <==> hasManager) && paused && notice == Paused && calls == old(calls)
      ensures statics.trackingWalk && ok ==> !listening && !gpsLocked && statics.isRunning == old(statics.isRunning)
    {
      if !statics.trackingWalk {
        if !hasListActivity {
          return false;
        }
        if !listInForeground {
          disabledNotified := true;
          statics.isCancelled := true;
        }
        calls := calls + [ListCancelled];
        ok := WalkFinished();
      } else {
        ok := Pause();
      }
    }

    /** onProviderEnabled: resume. */
    method OnProviderEnabled() returns (ok: bool)
      modifies this`notice, this`paused, this`resumePressed, this`listening
      ensures ok <==> hasManager
      ensures !paused && resumePressed && notice == Searching
      ensures listening == (ok || old(listening))
    {
      ok := Resume();
    }
  }
}
