/**
 * CustomListActivity.java: the photo check made before walks are deleted, and
 * DeleteTask, the background task that deletes the selected walks one after
 * another, optionally deletes their photo files first, can be cancelled part
 * way and shows one toast if a photo file could not be deleted.
 *
 * The task's thread and the UI thread are run one after the other:
 * publishProgress hands its value to onProgressUpdate at once. What the
 * environment decides is given as inputs: isCancelled() answers false to the
 * first `falseChecks` calls the task makes and true from then on (a cancelled
 * AsyncTask stays cancelled), and the t-th photo file the task tries to delete
 * fails exactly when t is in `failedDeletes`.
 */
module CustomList {
  import opened Wrappers
  import opened Walks
  import opened Store
  import opened Changes
  import DataSource
  import opened Seqs

  /** The ids of the walks, in order. */
  function WalkIds(ws: seq<Walk>): (r: seq<int>)
    ensures |r| == |ws| && forall i :: 0 <= i < |ws| ==> r[i] == ws[i].id
  {
    seq(|ws|, i requires 0 <= i < |ws| => ws[i].id)
  }

  // ---------------------------------------------------------------- showDeleteWalk

  /** showDeleteWalk's check: whether any selected walk has a photo; the loop stops at the first one. */
  method HasPhotos(db: Database, selectedWalks: seq<Walk>) returns (photos: bool)
    ensures photos <==> exists i :: 0 <= i < |selectedWalks| && OfWalk(db.photos, selectedWalks[i].id) != []
  {
    photos := false;
    var i := 0;
    while i < |selectedWalks|
      invariant 0 <= i <= |selectedWalks|
      invariant forall k :: 0 <= k < i ==> OfWalk(db.photos, selectedWalks[k].id) == []
    {
      var count := DataSource.GetPhotoCountForWalk(db, selectedWalks[i]);
      if count > 0 {
        photos := true;
        break;
      }
      i := i + 1;
    }
  }

  // ---------------------------------------------------------------- what the task deletes

  /** deleteWalk for each id in turn. */
  function DeleteEach(s: DbState, ids: seq<int>): DbState
  {
    if ids == [] then s else DeleteWalkState(DeleteEach(s, ids[..|ids| - 1]), ids[|ids| - 1])
  }

  lemma InSnoc(ids: seq<int>)
    requires ids != []
    ensures forall v :: v in ids <==> v in ids[..|ids| - 1] || v == ids[|ids| - 1]
  {
    assert ids == ids[..|ids| - 1] + [ids[|ids| - 1]];
  }

  /** Deleting walks one after another keeps the database valid. */
  lemma {:induction false} DeleteEachValid(s: DbState, ids: seq<int>)
    requires ValidState(s)
    ensures ValidState(DeleteEach(s, ids))
  {
    if ids != [] {
      DeleteEachValid(s, ids[..|ids| - 1]);
      DeleteWalkSpec(DeleteEach(s, ids[..|ids| - 1]), ids[|ids| - 1]);
    }
  }

  /** After deleting walks one after another none of them has a walk row, and every other walk keeps its row. */
  lemma {:induction false} DeleteEachWalks(s: DbState, ids: seq<int>)
    ensures forall v :: FindWalk(DeleteEach(s, ids).walks, v) == if v in ids then None else FindWalk(s.walks, v)
  {
    if ids != [] {
      var init := ids[..|ids| - 1];
      var last := ids[|ids| - 1];
      var t := DeleteEach(s, init);
      InSnoc(ids);
      DeleteEachWalks(s, init);
      assert DeleteEach(s, ids).walks == DropWalkRow(t.walks, last);
      forall v ensures FindWalk(DeleteEach(s, ids).walks, v) == if v in ids then None else FindWalk(s.walks, v) {
        FindAfterDrop(t.walks, last, v);
      }
    }
  }

  /** After deleting walks one after another none of them has a child row, and every other walk keeps its own. */
  lemma {:induction false} DeleteEachChildren(s: DbState, ids: seq<int>)
    ensures forall v :: OfWalk(DeleteEach(s, ids).gps, v) == if v in ids then [] else OfWalk(s.gps, v)
    ensures forall v :: OfWalk(DeleteEach(s, ids).photos, v) == if v in ids then [] else OfWalk(s.photos, v)
    ensures forall v :: OfWalk(DeleteEach(s, ids).notes, v) == if v in ids then [] else OfWalk(s.notes, v)
  {
    if ids != [] {
      var init := ids[..|ids| - 1];
      var last := ids[|ids| - 1];
      var t := DeleteEach(s, init);
      var r := DeleteEach(s, ids);
      InSnoc(ids);
      DeleteEachChildren(s, init);
      assert ids == init + [last];
      DeleteEachSnoc(s, init, last);
      assert r.gps == DropWalk(t.gps, last) && r.photos == DropWalk(t.photos, last) && r.notes == DropWalk(t.notes, last);
      forall v ensures OfWalk(r.gps, v) == if v in ids then [] else OfWalk(s.gps, v) {
        DropWalkOfWalk(t.gps, last, v);
      }
      forall v ensures OfWalk(r.photos, v) == if v in ids then [] else OfWalk(s.photos, v) {
        DropWalkOfWalk(t.photos, last, v);
      }
      forall v ensures OfWalk(r.notes, v) == if v in ids then [] else OfWalk(s.notes, v) {
        DropWalkOfWalk(t.notes, last, v);
      }
    }
  }

  lemma DeleteEachSnoc(s: DbState, ids: seq<int>, id: int)
    ensures DeleteEach(s, ids + [id]) == DeleteWalkState(DeleteEach(s, ids), id)
  {
    assert (ids + [id])[..|ids|] == ids;
  }

  /** The files of a walk's photos, as getPhotosForWalk returns them. */
  function RowFiles(rows: seq<ChildRow<string>>): (r: seq<string>)
  {
    seq(|rows|, k requires 0 <= k < |rows| => DataSource.PhotoOf(rows[k]).file)
  }

  function PhotoFiles(photos: seq<DataSource.Photo>): (r: seq<string>)
  {
    seq(|photos|, k requires 0 <= k < |photos| => photos[k].file)
  }

  /** The photo files of walk `id` when the database is `s`. */
  function WalkFiles(s: DbState, id: int): seq<string>
  {
    RowFiles(OfWalk(s.photos, id))
  }

  /** The photo files the task tries to delete for the walks `ids`, each looked up after the ones before it are gone. */
  function FilesOf(s: DbState, ids: seq<int>): seq<string>
  {
    if ids == [] then []
    else FilesOf(s, ids[..|ids| - 1]) + WalkFiles(DeleteEach(s, ids[..|ids| - 1]), ids[|ids| - 1])
  }

  lemma FilesOfSnoc(s: DbState, ids: seq<int>, id: int)
    ensures FilesOf(s, ids + [id]) == FilesOf(s, ids) + WalkFiles(DeleteEach(s, ids), id)
  {
    assert (ids + [id])[..|ids|] == ids;
  }

  /** Every file the task tries to delete belongs to a photo, in the database it started from, of one of the walks. */
  lemma {:induction false} FilesOfBelong(s: DbState, ids: seq<int>)
    ensures forall f :: f in FilesOf(s, ids) ==> exists x :: x in s.photos && x.walkId in ids && x.payload == f
  {
    if ids != [] {
      var init := ids[..|ids| - 1];
      var last := ids[|ids| - 1];
      FilesOfBelong(s, init);
      DeleteEachChildren(s, init);
      var rows := OfWalk(DeleteEach(s, init).photos, last);
      assert rows == if last in init then [] else OfWalk(s.photos, last);
      FilterMembers(s.photos, (x: ChildRow<string>) => x.walkId == last);
      assert ids == init + [last];
      FilesOfSnoc(s, init, last);
      forall f | f in FilesOf(s, ids)
        ensures exists x :: x in s.photos && x.walkId in ids && x.payload == f
      {
        if f in FilesOf(s, init) {
          var x :| x in s.photos && x.walkId in init && x.payload == f;
          assert x.walkId in ids;
        } else {
          assert f in RowFiles(rows);
          var k :| 0 <= k < |rows| && RowFiles(rows)[k] == f;
          assert rows[k] in s.photos && rows[k].walkId == last;
        }
      }
    }
  }

  /** 0, 1, …, n - 1: the positions of the first n selected walks. */
  function Upto(n: nat): (r: seq<int>)
    ensures |r| == n && forall k :: 0 <= k < n ==> r[k] == k
  {
    if n == 0 then [] else Upto(n - 1) + [n - 1]
  }

  /** Some file delete among attempts from..to-1 failed. */
  ghost predicate Failed(failedDeletes: set<nat>, from: nat, to: nat)
  {
    exists t :: t in failedDeletes && from <= t < to
  }

  lemma FailedExtend(failedDeletes: set<nat>, from: nat, mid: nat, to: nat)
    requires from <= mid <= to
    ensures Failed(failedDeletes, from, to) <==> Failed(failedDeletes, from, mid) || Failed(failedDeletes, mid, to)
  {
    if Failed(failedDeletes, from, to) {
      var t :| t in failedDeletes && from <= t < to;
      if t < mid {
        assert Failed(failedDeletes, from, mid);
      } else {
        assert Failed(failedDeletes, mid, to);
      }
    }
  }

  /** The progress values a task publishes for n deleted walks: none without an activity. */
  function Published(present: bool, n: nat): seq<int>
  {
    if present then Upto(n) else []
  }

  /** The photo files a task tries for the walks `ids`: none unless it deletes photos. */
  function Tried(deletePhotos: bool, s: DbState, ids: seq<int>): seq<string>
  {
    if deletePhotos then FilesOf(s, ids) else []
  }

  /** The photo files tried for one walk. */
  function TriedOne(deletePhotos: bool, s: DbState, id: int): seq<string>
  {
    if deletePhotos then WalkFiles(s, id) else []
  }

  lemma TakeSnoc(s: seq<int>, i: nat)
    requires i < |s|
    ensures s[..i + 1] == s[..i] + [s[i]]
  {
  }

  // ---------------------------------------------------------------- the task's effects as values

  /**
   * What a run of the task has done so far: the database, the photo files
   * tried, the progress values shown, the isCancelled() calls made, and
   * whether an error toast is pending or has been shown.
   */
  datatype Effects = Effects(st: DbState, files: seq<string>, progress: seq<int>, checks: nat, flagged: bool)

  /** The task's walks, activity and photo setting, and what its environment answers. */
  datatype Setting = Setting(ids: seq<int>, hasActivity: bool, deletePhotos: bool, falseChecks: nat, failedDeletes: set<nat>)

  lemma TailOfAppend(a: seq<string>, t: seq<string>)
    ensures (a + t)[|a|..] == t
  {
  }

  /**
   * One whole iteration of the loop for walk i, from `a`, when no check
   * answers true: the walk's photo files are tried if photos are deleted,
   * each after a check, then one more check, the walk's deletion, and its
   * position published if the task has an activity. A toast is flagged if
   * one was or a file delete failed.
   */
  ghost function Next(c: Setting, a: Effects, i: nat): Effects
    requires i < |c.ids|
  {
    var one := TriedOne(c.deletePhotos, a.st, c.ids[i]);
    Effects(DeleteWalkState(a.st, c.ids[i]), a.files + one, a.progress + (if c.hasActivity then [i] else []),
            a.checks + |one| + 1, a.flagged || Failed(c.failedDeletes, |a.files|, |a.files| + |one|))
  }

  /**
   * The iteration for walk i from `a` stopped by a true check after the
   * files `t` were tried: a true answer in the photo loop is followed by the
   * check before the deletion, which answers true as well. Nothing is deleted
   * and nothing published.
   */
  ghost function Halted(c: Setting, a: Effects, i: nat, t: seq<string>): Effects
    requires i < |c.ids|
  {
    var one := TriedOne(c.deletePhotos, a.st, c.ids[i]);
    a.(files := a.files + t, checks := a.checks + |t| + (if t == one then 1 else 2),
       flagged := a.flagged || Failed(c.failedDeletes, |a.files|, |a.files| + |t|))
  }

  /** The effects of the first i iterations from `start` when no check answers true. */
  ghost function Expected(c: Setting, start: Effects, i: nat): Effects
    requires i <= |c.ids|
  {
    if i == 0 then start else Next(c, Expected(c, start, i - 1), i - 1)
  }

  /**
   * The loop has handled the first i walks, from `start` to `e`, and every
   * check answered false.
   */
  ghost predicate Ran(c: Setting, start: Effects, e: Effects, i: nat)
  {
    i <= |c.ids| && e == Expected(c, start, i) && (i > 0 ==> e.checks <= c.falseChecks)
  }

  /**
   * The loop stopped at walk i: the first i walks are handled as in Ran; of
   * walk i's photo files a first part `t` was tried, and the check made after
   * them (the k-th call, counting from 0) is the first that answered true.
   */
  ghost predicate Stopped(c: Setting, start: Effects, e: Effects, i: nat)
  {
    i < |c.ids| &&
    var a := Expected(c, start, i);
    a.files <= e.files &&
    var t := e.files[|a.files|..];
    var k := a.checks + |t|;
    t <= TriedOne(c.deletePhotos, a.st, c.ids[i]) && k >= c.falseChecks && (k > start.checks ==> k == c.falseChecks) &&
    e == Halted(c, a, i, t)
  }

  /**
   * One iteration for walk i from `a` to `b` that tried the files `t`: every
   * check before a file answered false, and the check after them decides
   * `stop`, which a file left untried implies.
   */
  ghost predicate Step(c: Setting, a: Effects, b: Effects, i: nat, stop: bool, t: seq<string>)
  {
    i < |c.ids| &&
    var one := TriedOne(c.deletePhotos, a.st, c.ids[i]);
    t <= one && (|t| > 0 ==> a.checks + |t| <= c.falseChecks) && stop == (a.checks + |t| >= c.falseChecks) &&
    (t != one ==> stop) &&
    b == if stop then Halted(c, a, i, t) else Next(c, a, i)
  }

  /**
   * The photo part of an iteration for walk i: a first part `t` of the walk's
   * files is tried, each after a false check, and if not all of them the
   * next check answered true. Nothing else changes but the pending toast.
   */
  ghost predicate Photoed(c: Setting, a: Effects, b: Effects, i: nat, t: seq<string>)
  {
    i < |c.ids| &&
    var one := TriedOne(c.deletePhotos, a.st, c.ids[i]);
    t <= one && (|t| > 0 ==> a.checks + |t| <= c.falseChecks) && (t != one ==> a.checks + |t| >= c.falseChecks) &&
    b == a.(files := a.files + t, checks := a.checks + |t| + (if t == one then 0 else 1),
            flagged := a.flagged || Failed(c.failedDeletes, |a.files|, |a.files| + |t|))
  }

  /**
   * The check after walk i's photos, and unless it answers true, the walk's
   * deletion and its position published.
   */
  ghost predicate Checked(c: Setting, a: Effects, b: Effects, i: nat, stop: bool)
  {
    i < |c.ids| && stop == (a.checks >= c.falseChecks) &&
    b == if stop then a.(checks := a.checks + 1)
         else a.(st := DeleteWalkState(a.st, c.ids[i]), progress := a.progress + (if c.hasActivity then [i] else []),
                 checks := a.checks + 1)
  }

  /** The two parts make one iteration. */
  lemma PhasesStep(c: Setting, a: Effects, p: Effects, b: Effects, i: nat, stop: bool, t: seq<string>)
    requires Photoed(c, a, p, i, t) && Checked(c, p, b, i, stop)
    ensures Step(c, a, b, i, stop, t)
  {
  }

  /** An iteration that does not stop extends Ran by one walk. */
  lemma StepRan(c: Setting, start: Effects, a: Effects, b: Effects, i: nat, t: seq<string>)
    requires Ran(c, start, a, i) && Step(c, a, b, i, false, t)
    ensures Ran(c, start, b, i + 1)
  {
  }

  /** An iteration that stops ends in Stopped. */
  lemma StepStopped(c: Setting, start: Effects, a: Effects, b: Effects, i: nat, t: seq<string>)
    requires Ran(c, start, a, i) && Step(c, a, b, i, true, t)
    ensures Stopped(c, start, b, i)
  {
    TailOfAppend(a.files, t);
  }

  /** After the first i iterations those walks are deleted one after another. */
  lemma {:induction false} ExpectedDb(c: Setting, start: Effects, i: nat)
    requires i <= |c.ids|
    ensures Expected(c, start, i).st == DeleteEach(start.st, c.ids[..i])
  {
    if i > 0 {
      ExpectedDb(c, start, i - 1);
      TakeSnoc(c.ids, i - 1);
      DeleteEachSnoc(start.st, c.ids[..i - 1], c.ids[i - 1]);
    }
  }

  /** After the first i iterations their positions are published, in order, if there is an activity. */
  lemma {:induction false} ExpectedProgress(c: Setting, start: Effects, i: nat)
    requires i <= |c.ids|
    ensures Expected(c, start, i).progress == start.progress + Published(c.hasActivity, i)
  {
    if i > 0 {
      var x := if c.hasActivity then [i - 1] else [];
      ExpectedProgress(c, start, i - 1);
      assert Expected(c, start, i).progress == Expected(c, start, i - 1).progress + x;
      assert Published(c.hasActivity, i) == Published(c.hasActivity, i - 1) + x;
      AppendAssoc(start.progress, Published(c.hasActivity, i - 1), x);
    }
  }

  /**
   * After the first i iterations their files were tried in order if photos
   * are deleted, with one check per file and one per walk, and a toast is
   * flagged exactly when one was before or one of those files failed to
   * delete.
   */
  lemma {:induction false} ExpectedFiles(c: Setting, start: Effects, i: nat)
    requires i <= |c.ids|
    ensures Expected(c, start, i).files == start.files + Tried(c.deletePhotos, start.st, c.ids[..i])
    ensures Expected(c, start, i).checks == start.checks + |Tried(c.deletePhotos, start.st, c.ids[..i])| + i
    ensures Expected(c, start, i).flagged ==
      (start.flagged || Failed(c.failedDeletes, |start.files|, |start.files| + |Tried(c.deletePhotos, start.st, c.ids[..i])|))
  {
    if i > 0 {
      var j := i - 1;
      var done := c.ids[..j];
      var id := c.ids[j];
      var a := Expected(c, start, j);
      var d := Tried(c.deletePhotos, start.st, done);
      var one := TriedOne(c.deletePhotos, a.st, id);
      ExpectedFiles(c, start, j);
      ExpectedDb(c, start, j);
      TakeSnoc(c.ids, j);
      FilesOfSnoc(start.st, done, id);
      assert Tried(c.deletePhotos, start.st, c.ids[..i]) == d + one;
      AppendAssoc(start.files, d, one);
      FailedExtend(c.failedDeletes, |start.files|, |a.files|, |a.files| + |one|);
    }
  }

  // ---------------------------------------------------------------- DeleteTask

  class DeleteTask {
    const deletePhotos: bool
    const selectedWalks: seq<Walk>
    /** theActivity != null; setActivity changes it. */
    var hasActivity: bool
    var completed: bool
    var shouldShowDeleteErrorToast: bool
    var shownDeleteErrorToast: bool
    /** The photo files the task has tried to delete, in order. */
    var fileLog: seq<string>
    /** The values the activity received through onTaskUpdated, in order. */
    var progress: seq<int>
    /** Error toasts shown. */
    var toasts: nat
    /** onTaskCompleted calls made on the activity. */
    var completedNotices: nat
    /** isCancelled() calls made so far. */
    var checks: nat

    /**
     * A pending toast has not been shown yet, and a toast has been shown once
     * exactly when the task remembers having shown it: never twice.
     */
    predicate Valid()
      reads this`shouldShowDeleteErrorToast, this`shownDeleteErrorToast, this`toasts
    {
      (shouldShowDeleteErrorToast ==> !shownDeleteErrorToast) &&
      toasts == if shownDeleteErrorToast then 1 else 0
    }

    /** What the task has done so far, with the database it works on. */
    ghost function Now(db: Database): Effects
      reads this, db
    {
      Effects(db.State(), fileLog, progress, checks, shouldShowDeleteErrorToast || shownDeleteErrorToast)
    }

    ghost function Config(falseChecks: nat, failedDeletes: set<nat>): Setting
      reads this`hasActivity
    {
      Setting(WalkIds(selectedWalks), hasActivity, deletePhotos, falseChecks, failedDeletes)
    }

    constructor (hasActivity: bool, deletePhotos: bool, selectedWalks: seq<Walk>)
      ensures this.hasActivity == hasActivity && this.deletePhotos == deletePhotos && this.selectedWalks == selectedWalks
      ensures !completed && !shouldShowDeleteErrorToast && !shownDeleteErrorToast
      ensures fileLog == [] && progress == [] && toasts == 0 && completedNotices == 0 && checks == 0
      ensures Valid()
    {
      this.hasActivity := hasActivity;
      this.deletePhotos := deletePhotos;
      this.selectedWalks := selectedWalks;
      completed := false;
      shouldShowDeleteErrorToast := false;
      shownDeleteErrorToast := false;
      fileLog := [];
      progress := [];
      toasts := 0;
      completedNotices := 0;
      checks := 0;
    }

    /** setActivity: a task that has completed tells the new activity at once. */
    method SetActivity(present: bool)
      modifies this`hasActivity, this`completedNotices
      ensures hasActivity == present
      ensures completedNotices == old(completedNotices) + (if completed && present then 1 else 0)
    {
      hasActivity := present;
      if completed {
        NotifyActivityTaskCompleted();
      }
    }

    method NotifyActivityTaskCompleted()
      modifies this`completedNotices
      ensures completedNotices == old(completedNotices) + (if hasActivity then 1 else 0)
    {
      if hasActivity {
        completedNotices := completedNotices + 1;
      }
    }

    /** onPostExecute. */
    method OnPostExecute()
      modifies this`completed, this`completedNotices
      ensures completed
      ensures completedNotices == old(completedNotices) + (if hasActivity then 1 else 0)
    {
      completed := true;
      NotifyActivityTaskCompleted();
    }

    /** isCancelled(): false for the first `falseChecks` calls, true after. */
    method IsCancelled(falseChecks: nat) returns (c: bool)
      modifies this`checks
      ensures c == (old(checks) >= falseChecks) && checks == old(checks) + 1
    {
      c := checks >= falseChecks;
      checks := checks + 1;
    }

    /**
     * onProgressUpdate: passes the value on, and shows the error toast if one
     * is pending, after which it is never shown again.
     */
    method OnProgressUpdate(i: int)
      requires Valid()
      modifies this`progress, this`toasts, this`shouldShowDeleteErrorToast, this`shownDeleteErrorToast
      ensures Valid()
      ensures progress == old(progress) + [i]
      ensures old(shouldShowDeleteErrorToast) ==> toasts == old(toasts) + 1 && shownDeleteErrorToast && !shouldShowDeleteErrorToast
      ensures !old(shouldShowDeleteErrorToast) ==>
        toasts == old(toasts) && shownDeleteErrorToast == old(shownDeleteErrorToast) && !shouldShowDeleteErrorToast
    {
      progress := progress + [i];
      if shouldShowDeleteErrorToast {
        toasts := toasts + 1;
        shownDeleteErrorToast := true;
        shouldShowDeleteErrorToast := false;
      }
    }

    /**
     * The photo loop for one walk: before each file it asks isCancelled() and
     * stops at the first true answer; a failed delete makes a toast pending
     * unless one has been shown. It tries `m` files, all asked about with a
     * false answer, and stops early only on a true one.
     */
    method DeletePhotoFiles(photos: seq<DataSource.Photo>, falseChecks: nat, failedDeletes: set<nat>) returns (ghost m: nat)
      requires Valid()
      modifies this`fileLog, this`checks, this`shouldShowDeleteErrorToast
      ensures Valid()
      ensures m <= |photos| && (m > 0 ==> old(checks) + m <= falseChecks)
      ensures m < |photos| ==> old(checks) + m >= falseChecks
      ensures checks == old(checks) + m + (if m < |photos| then 1 else 0)
      ensures fileLog == old(fileLog) + PhotoFiles(photos)[..m]
      ensures shouldShowDeleteErrorToast ==
        (old(shouldShowDeleteErrorToast) || (!shownDeleteErrorToast && Failed(failedDeletes, |old(fileLog)|, |fileLog|)))
    {
      var k := 0;
      while k < |photos|
        invariant k <= |photos| && checks == old(checks) + k && (k > 0 ==> checks <= falseChecks)
        invariant fileLog == old(fileLog) + PhotoFiles(photos)[..k]
        invariant Valid()
        invariant shouldShowDeleteErrorToast ==
          (old(shouldShowDeleteErrorToast) || (!shownDeleteErrorToast && Failed(failedDeletes, |old(fileLog)|, |fileLog|)))
      {
        var c := IsCancelled(falseChecks);
        if c {
          break;
        }
        var deleted := |fileLog| !in failedDeletes;
        FailedExtend(failedDeletes, |old(fileLog)|, |fileLog|, |fileLog| + 1);
        assert Failed(failedDeletes, |fileLog|, |fileLog| + 1) <==> !deleted;
        assert PhotoFiles(photos)[..k + 1] == PhotoFiles(photos)[..k] + [photos[k].file];
        fileLog := fileLog + [photos[k].file];
        if !shownDeleteErrorToast && !deleted {
          shouldShowDeleteErrorToast := true;
        }
        k := k + 1;
      }
      m := k;
    }

    /** The photo part of one iteration of doInBackground's loop, for the walk at position `i`. */
    method PhotoPhase(db: Database, i: int, falseChecks: nat, failedDeletes: set<nat>) returns (ghost t: seq<string>)
      requires Valid() && 0 <= i < |selectedWalks|
      modifies this`fileLog, this`checks, this`shouldShowDeleteErrorToast
      ensures Valid()
      ensures Photoed(Config(falseChecks, failedDeletes), old(Now(db)), Now(db), i, t)
    {
      t := [];
      if deletePhotos {
        var photos := DataSource.GetPhotosForWalk(db, selectedWalks[i]);
        assert PhotoFiles(photos) == WalkFiles(db.State(), selectedWalks[i].id);
        ghost var m := DeletePhotoFiles(photos, falseChecks, failedDeletes);
        t := PhotoFiles(photos)[..m];
        assert (t == PhotoFiles(photos)) == (m == |photos|);
      }
    }

    /** The rest of one iteration: the check, then the walk's deletion and its progress. */
    method CheckAndDelete(db: Database, i: int, falseChecks: nat, ghost failedDeletes: set<nat>) returns (stop: bool)
      requires Valid() && 0 <= i < |selectedWalks|
      modifies this`checks, this`shouldShowDeleteErrorToast, this`shownDeleteErrorToast, this`progress, this`toasts, db
      ensures Valid()
      ensures Checked(Config(falseChecks, failedDeletes), old(Now(db)), Now(db), i, stop)
    {
      var walk := selectedWalks[i];
      stop := IsCancelled(falseChecks);
      if stop {
        return;
      }
      DataSource.DeleteWalk(db, walk);
      if hasActivity {
        OnProgressUpdate(i);
      }
    }

    /**
     * One iteration of doInBackground's loop, for the walk at position `i`:
     * its photo files if `deletePhotos`, then the check; `stop` is the
     * check's true answer, after which nothing is deleted. Otherwise the walk
     * is deleted and `i` published.
     */
    method DeleteStep(db: Database, i: nat, falseChecks: nat, failedDeletes: set<nat>, ghost start: Effects) returns (stop: bool)
      requires Valid() && i < |selectedWalks| && Ran(Config(falseChecks, failedDeletes), start, Now(db), i)
      modifies this`fileLog, this`checks, this`shouldShowDeleteErrorToast, this`shownDeleteErrorToast
      modifies this`progress, this`toasts, db
      ensures Valid()
      ensures !stop ==> Ran(Config(falseChecks, failedDeletes), start, Now(db), i + 1)
      ensures stop ==> Stopped(Config(falseChecks, failedDeletes), start, Now(db), i)
    {
      ghost var c := Config(falseChecks, failedDeletes);
      ghost var a := Now(db);
      ghost var t := PhotoPhase(db, i, falseChecks, failedDeletes);
      ghost var p := Now(db);
      stop := CheckAndDelete(db, i, falseChecks, failedDeletes);
      PhasesStep(c, a, p, Now(db), i, stop, t);
      if stop {
        StepStopped(c, start, a, Now(db), i, t);
      } else {
        StepRan(c, start, a, Now(db), i, t);
      }
    }

    /**
     * doInBackground: for each selected walk in list order, its photo files
     * if `deletePhotos`, then, unless cancelled, the walk itself and its
     * position as progress. The walks deleted are the first `n`; it stops
     * before the whole list exactly when one of its checks saw the
     * cancellation, and after that deletes nothing. Only files of the first
     * n + 1 walks are tried, and none without `deletePhotos`. A toast is
     * pending or shown at the end exactly when one was before or some file
     * delete failed.
     */
    method DoInBackground(db: Database, falseChecks: nat, failedDeletes: set<nat>) returns (ghost n: nat)
      requires Valid()
      modifies this`fileLog, this`checks, this`shouldShowDeleteErrorToast, this`shownDeleteErrorToast
      modifies this`progress, this`toasts, db
      ensures Valid()
      ensures n <= |selectedWalks|
      ensures n == |selectedWalks| ==> Ran(Config(falseChecks, failedDeletes), old(Now(db)), Now(db), n)
      ensures n < |selectedWalks| ==> Stopped(Config(falseChecks, failedDeletes), old(Now(db)), Now(db), n)
    {
      ghost var c := Config(falseChecks, failedDeletes);
      ghost var start := Now(db);
      n := 0;
      var i := 0;
      while i < |selectedWalks|
        invariant 0 <= i <= |selectedWalks| && n == i
        invariant Valid() && Ran(c, start, Now(db), i)
      {
        var stop := DeleteStep(db, i, falseChecks, failedDeletes, start);
        if stop {
          break;
        }
        i := i + 1;
        n := i;
      }
    }
  }
}
