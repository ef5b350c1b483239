/**
 * The effects a recovery session has on the outside world, the order the
 * workflow of src/sd_recovery/core/recovery.py performs them in, and the
 * invariant each step of that workflow keeps.
 */
module Workflow {
  import opened Wrappers
  import opened Text
  import opened Device

  /** The effects of a session on the outside world. */
  datatype Event =
    | QueryDevice(path: string)
    | Unmount(path: string)
    | MakeTempDir(dir: string)
    | Scan(target: string, outputDir: string, paranoid: bool, fileTypes: seq<string>)
    | Organize(outputDir: string, files: nat)
    | Remount(path: string)
    | RemoveTempDir(dir: string)

  /** The step of the workflow each effect belongs to. */
  function Rank(e: Event): nat {
    match e
    case QueryDevice(_) => 0
    case Unmount(_) => 1
    case MakeTempDir(_) => 2
    case Scan(_, _, _, _) => 3
    case Organize(_, _) => 4
    case Remount(_) => 5
    case RemoveTempDir(_) => 6
  }

  /** Each effect belongs to a later step than the one before it. */
  predicate Ordered(t: seq<Event>)
    decreases |t|
  {
    |t| <= 1 || (Ordered(t[..|t| - 1]) && Rank(t[|t| - 2]) < Rank(t[|t| - 1]))
  }

  /** Adjacent order is total order: every effect comes from a later step than every earlier effect, so none repeats. */
  lemma {:induction false} OrderedIsStrict(t: seq<Event>)
    requires Ordered(t)
    ensures forall i, j | 0 <= i < j < |t| :: Rank(t[i]) < Rank(t[j])
    decreases |t|
  {
    if |t| > 1 {
      var init := t[..|t| - 1];
      OrderedIsStrict(init);
      forall i, j | 0 <= i < j < |t| ensures Rank(t[i]) < Rank(t[j]) {
        if j < |t| - 1 {
          assert t[i] == init[i] && t[j] == init[j];
        } else if i < j - 1 {
          assert t[i] == init[i] && t[j - 1] == init[j - 1];
        }
      }
    }
  }

  /** Appending an effect of a later step keeps the trace ordered. */
  lemma OrderedSnoc(t: seq<Event>, e: Event)
    requires Ordered(t) && (t == [] || Rank(t[|t| - 1]) < Rank(e))
    ensures Ordered(t + [e])
  {
    assert (t + [e])[..|t|] == t;
  }

  /** The trace has gone no further than the step of rank `k`: its last effect, and so every one, has rank `k` at most. */
  predicate Reached(t: seq<Event>, k: nat) {
    t == [] || Rank(t[|t| - 1]) <= k
  }

  /** In an ordered trace, the bound on the last effect bounds them all. */
  lemma ReachedBoundsAll(t: seq<Event>, k: nat)
    requires Ordered(t) && Reached(t, k)
    ensures forall e | e in t :: Rank(e) <= k
  {
    OrderedIsStrict(t);
  }

  /** Whether a device with this information counts as mounted: a non-empty mount point. */
  predicate IsMounted(info: DeviceInfo) {
    info.mountPoint.Some? && info.mountPoint.value != ""
  }

  /** What PhotoRec is pointed at: the non-empty raw device path when there is device information, else the path given. */
  function ScanTarget(devicePath: string, info: Option<DeviceInfo>): string {
    if info.Some? && info.value.rawDevicePath != "" then info.value.rawDevicePath else devicePath
  }

  /** A /dev/diskN device is scanned through its raw node /dev/rdiskN. */
  lemma ScanTargetOfDisk(n: nat, info: DeviceInfo)
    requires info.rawDevicePath == RawDevicePath("/dev/disk" + Decimal(n))
    ensures ScanTarget("/dev/disk" + Decimal(n), Some(info)) == "/dev/rdisk" + Decimal(n)
  {
    RawPathOfDiskPath(n);
  }

  /** A disk image is scanned as the path given. */
  lemma ScanTargetOfImage(devicePath: string)
    ensures ScanTarget(devicePath, None) == devicePath
  {
  }

  /**
   * What holds of a session's fields and trace at any point of the
   * workflow: effects in step order and none from cleanup yet, the
   * temporary directory made iff recorded, `was_mounted` iff an unmount was
   * attempted, disk images never queried or unmounted, and nothing
   * unmounted or scanned unless the device passed the safety check and,
   * when it is not a disk image, was described by `diskutil`.
   * `image` says whether the path names a disk image, `cleared` whether the
   * device passed (or needed no) safety check, and `fileTypes` is what the
   * scan asks PhotoRec for.
   */
  ghost predicate Consistent(devicePath: string, paranoid: bool, image: bool, cleared: bool, fileTypes: seq<string>,
                             info: Option<DeviceInfo>, wasMounted: bool,
                             tempDir: Option<string>, tempDirExists: bool, trace: seq<Event>)
  {
    && Ordered(trace)
    && Reached(trace, 4)
    && (tempDirExists <==> tempDir.Some?)
    && (tempDir.Some? ==> MakeTempDir(tempDir.value) in trace)
    && (forall e | e in trace && e.MakeTempDir? :: tempDir == Some(e.dir))
    && (info.Some? ==> !image)
    && (image ==> info.None? && forall e | e in trace :: !e.QueryDevice? && !e.Unmount?)
    && (wasMounted <==> Unmount(devicePath) in trace)
    && (wasMounted ==> info.Some? && IsMounted(info.value))
    && (forall e | e in trace && e.Unmount? :: e.path == devicePath)
    && (forall e | e in trace && (e.Unmount? || e.Scan?) :: cleared && (image || info.Some?))
    && (forall e | e in trace && e.Scan? ::
          tempDir.Some? && e == Scan(ScanTarget(devicePath, info), tempDir.value, paranoid, fileTypes))
  }

  /** Steps 1 to 3 establish the invariant: at most the device query, and no query of a disk image. */
  lemma ConsistentAfterInspect(devicePath: string, paranoid: bool, image: bool, cleared: bool, fileTypes: seq<string>,
                               info: Option<DeviceInfo>, trace: seq<Event>)
    requires trace == [] || trace == [QueryDevice(devicePath)]
    requires info.Some? ==> !image
    requires image ==> info.None? && trace == []
    ensures Consistent(devicePath, paranoid, image, cleared, fileTypes, info, false, None, false, trace)
  {
  }

  /** Step 4 keeps the invariant: a mounted device that passed the checks is unmounted and marked. */
  lemma ConsistentAfterPrepare(devicePath: string, paranoid: bool, image: bool, fileTypes: seq<string>,
                               info: Option<DeviceInfo>, trace: seq<Event>, mounted: bool)
    requires Consistent(devicePath, paranoid, image, true, fileTypes, info, false, None, false, trace)
    requires forall e | e in trace :: e.QueryDevice?
    requires mounted <==> info.Some? && IsMounted(info.value)
    ensures var after := if mounted then trace + [Unmount(devicePath)] else trace;
      && Consistent(devicePath, paranoid, image, true, fileTypes, info, mounted, None, false, after)
      && Reached(after, 1)
  {
    if mounted {
      if trace != [] {
        assert trace[|trace| - 1] in trace;
      }
      OrderedSnoc(trace, Unmount(devicePath));
    } else if trace != [] {
      assert trace[|trace| - 1] in trace;
    }
  }

  /** Step 5 keeps the invariant when it makes the temporary directory. */
  lemma ConsistentAfterMakeTempDir(devicePath: string, paranoid: bool, image: bool, fileTypes: seq<string>,
                                   info: Option<DeviceInfo>, wasMounted: bool, trace: seq<Event>, dir: string)
    requires Consistent(devicePath, paranoid, image, true, fileTypes, info, wasMounted, None, false, trace)
    requires Reached(trace, 1)
    ensures Consistent(devicePath, paranoid, image, true, fileTypes, info, wasMounted, Some(dir), true,
                       trace + [MakeTempDir(dir)])
    ensures Reached(trace + [MakeTempDir(dir)], 2)
  {
    var after := trace + [MakeTempDir(dir)];
    OrderedSnoc(trace, MakeTempDir(dir));
    assert forall e | e in after && e.MakeTempDir? :: Some(dir) == Some(e.dir);
    assert image ==> forall e | e in after :: !e.QueryDevice? && !e.Unmount?;
    assert wasMounted <==> Unmount(devicePath) in after;
    assert forall e | e in after && e.Unmount? :: e.path == devicePath;
    assert forall e | e in after && (e.Unmount? || e.Scan?) :: image || info.Some?;
    assert forall e | e in after && e.Scan? :: e == Scan(ScanTarget(devicePath, info), dir, paranoid, fileTypes);
  }

  /** Step 5 keeps the invariant when it scans the scan target into the temporary directory. */
  lemma ConsistentAfterScan(devicePath: string, paranoid: bool, image: bool, fileTypes: seq<string>,
                            info: Option<DeviceInfo>, wasMounted: bool, trace: seq<Event>, dir: string)
    requires Consistent(devicePath, paranoid, image, true, fileTypes, info, wasMounted, Some(dir), true, trace)
    requires Reached(trace, 2)
    requires image || info.Some?
    ensures var after := trace + [Scan(ScanTarget(devicePath, info), dir, paranoid, fileTypes)];
      && Consistent(devicePath, paranoid, image, true, fileTypes, info, wasMounted, Some(dir), true, after)
      && Reached(after, 3)
  {
    OrderedSnoc(trace, Scan(ScanTarget(devicePath, info), dir, paranoid, fileTypes));
  }

  /** Step 6 keeps the invariant: the organizer runs last. */
  lemma ConsistentAfterOrganize(devicePath: string, paranoid: bool, image: bool, cleared: bool, fileTypes: seq<string>,
                                info: Option<DeviceInfo>, wasMounted: bool,
                                tempDir: Option<string>, tempDirExists: bool, trace: seq<Event>,
                                outputDir: string, files: nat)
    requires Consistent(devicePath, paranoid, image, cleared, fileTypes, info, wasMounted, tempDir, tempDirExists, trace)
    requires Reached(trace, 3)
    ensures Consistent(devicePath, paranoid, image, cleared, fileTypes, info, wasMounted, tempDir, tempDirExists,
                       trace + [Organize(outputDir, files)])
  {
    ReachedBoundsAll(trace, 3);
    OrderedSnoc(trace, Organize(outputDir, files));
  }

  /** Cleanup effects come after every workflow effect and in their own order. */
  lemma OrderedAfterCleanup(before: seq<Event>, remount: seq<Event>, remove: seq<Event>)
    requires Ordered(before) && Reached(before, 4)
    requires forall e | e in remount :: e.Remount?
    requires forall e | e in remove :: e.RemoveTempDir?
    requires |remount| <= 1 && |remove| <= 1
    ensures Ordered(before + remount + remove)
  {
    var t := before + remount;
    if remount == [] {
      assert t == before;
    } else {
      assert remount == [remount[0]] && remount[0] in remount;
      OrderedSnoc(before, remount[0]);
      assert t[|t| - 1] == remount[0];
    }
    assert t == [] || Rank(t[|t| - 1]) <= 5;
    if remove == [] {
      assert t + remove == t;
    } else {
      assert remove == [remove[0]] && remove[0] in remove;
      OrderedSnoc(t, remove[0]);
    }
  }

  /** Cleanup effects follow the workflow's in strict step order, and the workflow's are all from steps 1 to 6. */
  lemma CleanupOrder(before: seq<Event>, remount: seq<Event>, remove: seq<Event>)
    requires Ordered(before) && Reached(before, 4)
    requires forall e | e in remount :: e.Remount?
    requires forall e | e in remove :: e.RemoveTempDir?
    requires |remount| <= 1 && |remove| <= 1
    ensures var after := before + remount + remove;
      forall i, j | 0 <= i < j < |after| :: Rank(after[i]) < Rank(after[j])
    ensures forall e | e in before :: Rank(e) <= 4
  {
    OrderedAfterCleanup(before, remount, remove);
    OrderedIsStrict(before + remount + remove);
    ReachedBoundsAll(before, 4);
  }

  /**
   * What holds of a session once `run` is over: every effect from a later
   * step than the one before it, so nothing is done twice; nothing unmounted
   * or scanned unless the device passed the safety check and, when it is not
   * a disk image, was described by `diskutil`; a disk image never
   * queried, unmounted or remounted; the scan of the scan target into the
   * temporary directory; a remount exactly when `was_mounted`, and only after
   * an unmount; the temporary directory removed exactly when one was made.
   */
  ghost predicate CleanedUp(devicePath: string, paranoid: bool, image: bool, cleared: bool, fileTypes: seq<string>,
                            info: Option<DeviceInfo>, wasMounted: bool, tempDir: Option<string>, trace: seq<Event>)
  {
    && (forall i, j | 0 <= i < j < |trace| :: Rank(trace[i]) < Rank(trace[j]))
    && (forall e | e in trace && (e.Unmount? || e.Scan?) :: cleared && (image || info.Some?))
    && (image ==> info.None? && forall e | e in trace :: !e.QueryDevice? && !e.Unmount? && !e.Remount?)
    && (forall e | e in trace && e.Scan? ::
          tempDir.Some? && e == Scan(ScanTarget(devicePath, info), tempDir.value, paranoid, fileTypes))
    && (wasMounted <==> Remount(devicePath) in trace)
    && (Remount(devicePath) in trace ==> Unmount(devicePath) in trace)
    && (tempDir.Some? ==> RemoveTempDir(tempDir.value) in trace)
    && (tempDir.None? ==> forall e | e in trace :: !e.RemoveTempDir?)
  }

  /** Cleanup after a consistent workflow (a remount if unmounted, removal of a temporary directory that exists) leaves the session `CleanedUp`. */
  lemma ConsistentCleanup(devicePath: string, paranoid: bool, image: bool, cleared: bool, fileTypes: seq<string>,
                          info: Option<DeviceInfo>, wasMounted: bool,
                          tempDir: Option<string>, tempDirExists: bool, before: seq<Event>, after: seq<Event>)
    requires Consistent(devicePath, paranoid, image, cleared, fileTypes, info, wasMounted, tempDir, tempDirExists, before)
    requires after == before
      + (if info.Some? && wasMounted then [Remount(devicePath)] else [])
      + (if tempDir.Some? && tempDirExists then [RemoveTempDir(tempDir.value)] else [])
    ensures CleanedUp(devicePath, paranoid, image, cleared, fileTypes, info, wasMounted, tempDir, after)
  {
    var remount: seq<Event> := if info.Some? && wasMounted then [Remount(devicePath)] else [];
    var remove: seq<Event> := if tempDir.Some? && tempDirExists then [RemoveTempDir(tempDir.value)] else [];
    CleanupOrder(before, remount, remove);
    assert Remount(devicePath) !in before;
    assert tempDir.Some? ==> RemoveTempDir(tempDir.value) !in before;
  }

  /** A workflow stopped at the confirmation has nothing to undo: at most the device query, and already `CleanedUp`. */
  lemma ConsistentWithoutCleanup(devicePath: string, paranoid: bool, image: bool, cleared: bool, fileTypes: seq<string>,
                                 info: Option<DeviceInfo>, trace: seq<Event>)
    requires Consistent(devicePath, paranoid, image, cleared, fileTypes, info, false, None, false, trace)
    requires trace == [] || trace == [QueryDevice(devicePath)]
    ensures CleanedUp(devicePath, paranoid, image, cleared, fileTypes, info, false, None, trace)
    ensures forall e | e in trace :: e == QueryDevice(devicePath)
  {
    assert trace + [] + [] == trace;
    ConsistentCleanup(devicePath, paranoid, image, cleared, fileTypes, info, false, None, false, trace, trace);
  }

}
