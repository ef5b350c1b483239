/**
 * src/sd_recovery/core/recovery.py: the recovery session, a linear workflow
 * (validate, safety check, confirmation, prepare, scan, organize, cleanup)
 * over the fields `device_info`, `was_mounted` and `temp_dir`. Everything the
 * session asks of the outside world (whether the path exists, `diskutil`
 * output, the user's answer, unmount, `mkdtemp`, the PhotoRec process and
 * the directory it fills, the organizer's directories, `rmtree`, a Ctrl-C)
 * comes from an `Env` of outcomes, and a ghost trace records the effects in
 * the order they happen.
 */
module Recovery {
  import opened Wrappers
  import opened Text
  import opened Errors
  import opened Validation
  import opened Device
  import opened PhotoRec
  import opened Organizer
  import opened Workflow

  /** The steps of `run`, for saying when a Ctrl-C arrives. */
  datatype Step = Validating | CheckingSafety | Confirming | Preparing | Scanning | Organizing

  /** The outcomes of everything outside the session. */
  datatype Env = Env(
    pathExists: bool,                 // `Path(device_path).exists()`
    diskutil: Option<string>,         // `diskutil info` output; None when it fails
    answer: Option<string>,           // what the user types at the prompt; None at end of input
    unmountOk: bool,                  // `diskutil unmountDisk` succeeds
    tempDir: Option<string>,          // `mkdtemp`'s directory; None when it raises
    process: Process,                 // the PhotoRec child process
    listing: seq<Entry>,              // the temporary directory once PhotoRec is done
    organizerReady: bool,             // the organizer could create its directories
    disk: map<string, SourceFile>,    // the recovered files as the organizer reads them
    rmtreeOk: bool,                   // `rmtree` on the temporary directory succeeds
    interruptAt: Option<Step>)        // the step during which Ctrl-C arrives, if any

  /** How `run` ends: a return value, an exception of some kind, or a re-raised `KeyboardInterrupt`. */
  datatype RunOutcome = Completed(success: bool) | Raised(kind: ErrorKind) | Interrupted

  /** Why the workflow stopped early. */
  datatype Exit = Refused | Failed(kind: ErrorKind) | Interrupt

  /** What `run` reports for the way its workflow ended (None: it went through). */
  function RunOutcomeOf(exit: Option<Exit>): RunOutcome {
    match exit
    case None => Completed(true)
    case Some(Refused) => Completed(false)
    case Some(Failed(kind)) => Raised(kind)
    case Some(Interrupt) => Interrupted
  }

  /** `get_device_info` succeeds: `diskutil info` answered, with a size `parse_size` reads. */
  predicate QueryOk(env: Env) {
    env.diskutil.Some? && DiskSize(env.diskutil.value).Some?
  }

  /** Of an earlier and a later step, the first that stops the workflow. */
  function Then(first: Option<Exit>, second: Option<Exit>): (r: Option<Exit>)
    ensures r.None? <==> first.None? && second.None?
    ensures first.Some? ==> r == first
  {
    if first.Some? then first else second
  }

  /** How step 4 stops: a Ctrl-C, or a mounted device that does not unmount. */
  function PrepareExit(mounted: bool, env: Env): Option<Exit> {
    if env.interruptAt == Some(Preparing) then Some(Interrupt)
    else if mounted && !env.unmountOk then Some(Failed(Mount))
    else None
  }

  /** How step 5 stops: a Ctrl-C, `mkdtemp` raising, or PhotoRec not running to a zero exit. */
  function ScanExit(env: Env): Option<Exit> {
    if env.interruptAt == Some(Scanning) then Some(Interrupt)
    else if env.tempDir.None? then Some(Failed(OsError))
    else if !(env.process.Ran? && env.process.exitCode == 0) then Some(Failed(PhotoRecExecution))
    else None
  }

  /** How step 6 stops: a Ctrl-C, or the organizer unable to make its directories. */
  function OrganizeExit(env: Env): Option<Exit> {
    if env.interruptAt == Some(Organizing) then Some(Interrupt)
    else if !env.organizerReady then Some(Failed(OsError))
    else None
  }

  /** How steps 4 to 6 stop: the first of them that does. */
  function OperateExit(mounted: bool, env: Env): Option<Exit> {
    Then(PrepareExit(mounted, env), Then(ScanExit(env), OrganizeExit(env)))
  }

  /**
   * Steps 4 to 6 go through exactly when no Ctrl-C arrives during them, a
   * mounted device unmounts, and `mkdtemp`, PhotoRec and the organizer succeed.
   */
  lemma OperateGoesThrough(mounted: bool, env: Env)
    ensures OperateExit(mounted, env).None? <==>
      && env.interruptAt != Some(Preparing) && env.interruptAt != Some(Scanning) && env.interruptAt != Some(Organizing)
      && (mounted ==> env.unmountOk)
      && env.tempDir.Some? && env.process.Ran? && env.process.exitCode == 0
      && env.organizerReady
  {
  }

  /** The confirmation rule: the answer, trimmed and lower-cased, is "y" or "yes". */
  predicate Accepts(answer: string) {
    var a := Lower(Strip(answer));
    a == "y" || a == "yes"
  }

  /** "y" or "yes" in any case, with any whitespace around it, is accepted. */
  lemma AcceptsPadded(pre: string, word: string, post: string)
    requires AllSpace(pre) && AllSpace(post)
    requires Lower(word) == "y" || Lower(word) == "yes"
    ensures Accepts(pre + word + post)
  {
    assert LowerChar(word[0]) == 'y';
    assert LowerChar(word[|word| - 1]) in "ys";
    StripPadded(pre, word, post);
  }

  /** An empty or blank answer takes the default, N. */
  lemma BlankRefused(answer: string)
    requires AllSpace(answer)
    ensures !Accepts(answer)
  {
    StripBlank(answer);
  }

  /** `RecoverySession`. */
  class RecoverySession {
    const devicePath: string
    const outputDir: string
    const paranoid: bool
    const validate: bool
    /** The executable the session's `PhotoRecWrapper` found. */
    const photorec: string
    /** Whether the path names a disk image (`.img`, `.dmg` or `.iso`); fixed, like the path. */
    const image: bool
    var deviceInfo: Option<DeviceInfo>
    var wasMounted: bool
    var tempDir: Option<string>
    /** Whether `temp_dir` still exists on disk. */
    var tempDirExists: bool
    ghost var trace: seq<Event>

    /** A session before `run`: nothing known, nothing done. */
    ghost predicate Fresh()
      reads this
    {
      deviceInfo.None? && !wasMounted && tempDir.None? && !tempDirExists && trace == []
    }

    constructor(devicePath: string, outputDir: string, paranoid: bool, validate: bool, photorec: string)
      ensures this.devicePath == devicePath && this.outputDir == outputDir
      ensures this.paranoid == paranoid && this.validate == validate && this.photorec == photorec
      ensures this.image == IsImageTarget(devicePath)
      ensures Fresh()
    {
      this.devicePath := devicePath;
      this.outputDir := outputDir;
      this.paranoid := paranoid;
      this.validate := validate;
      this.photorec := photorec;
      this.image := IsImageTarget(devicePath);
      deviceInfo := None;
      wasMounted := false;
      tempDir := None;
      tempDirExists := false;
      trace := [];
    }

    /**
     * `_validate_device`: the path check first; a disk image stops there
     * and leaves `device_info` alone; anything else is queried.
     */
    method ValidateDevice(env: Env) returns (err: Option<ErrorKind>)
      modifies this
      ensures wasMounted == old(wasMounted) && tempDir == old(tempDir) && tempDirExists == old(tempDirExists)
      ensures ValidateDevicePath(devicePath, env.pathExists).Failure? ==>
        err == Some(Validation) && deviceInfo == old(deviceInfo) && trace == old(trace)
      ensures ValidateDevicePath(devicePath, env.pathExists).Success? && image ==>
        err.None? && deviceInfo == old(deviceInfo) && trace == old(trace)
      ensures ValidateDevicePath(devicePath, env.pathExists).Success? && !image ==>
        && trace == old(trace) + [QueryDevice(devicePath)]
        && (err.None? <==> QueryOk(env))
        && (err.None? ==> deviceInfo.Some? && deviceInfo.value.devicePath == devicePath
                          && deviceInfo.value.rawDevicePath == RawDevicePath(devicePath)
                          && Describes(deviceInfo.value, env.diskutil.value))
        && (err.Some? ==> err == Some(ErrorKind.DeviceNotFound) && deviceInfo == old(deviceInfo))
    {
      var checked := ValidateDevicePath(devicePath, env.pathExists);
      if checked.Failure? {
        return Some(Validation);
      }
      if image {
        return None;
      }
      err := QueryInfo(env);
    }

    /** The `get_device_info` call of `_validate_device`, recorded in the trace. */
    method QueryInfo(env: Env) returns (err: Option<ErrorKind>)
      modifies this
      ensures wasMounted == old(wasMounted) && tempDir == old(tempDir) && tempDirExists == old(tempDirExists)
      ensures trace == old(trace) + [QueryDevice(devicePath)]
      ensures err.None? <==> QueryOk(env)
      ensures err.None? ==> deviceInfo.Some? && deviceInfo.value.devicePath == devicePath
                            && deviceInfo.value.rawDevicePath == RawDevicePath(devicePath)
                            && Describes(deviceInfo.value, env.diskutil.value)
      ensures err.Some? ==> err == Some(ErrorKind.DeviceNotFound) && deviceInfo == old(deviceInfo)
    {
      var info := GetDeviceInfo(devicePath, env.diskutil);
      trace := trace + [QueryDevice(devicePath)];
      if info.Failure? {
        return Some(info.error);
      }
      deviceInfo := Some(info.value);
      err := None;
    }

    /** `_check_safety`: a disk image passes; a device must pass `is_safe_device` with the default limit. */
    method CheckSafety() returns (err: Option<ErrorKind>)
      ensures err.Some? <==> deviceInfo.Some? && !IsSafeDevice(deviceInfo.value, DefaultMaxSizeGb).safe
      ensures err.Some? ==> err.value == UnsafeDevice
    {
      if deviceInfo.None? {
        return None;
      }
      var verdict := IsSafeDevice(deviceInfo.value, DefaultMaxSizeGb);
      if !verdict.safe {
        return Some(UnsafeDevice);
      }
      return None;
    }

    /** `_prepare_device`: a mounted device is marked as such before the unmount is attempted. */
    method PrepareDevice(env: Env) returns (err: Option<ErrorKind>)
      requires Sound() && Cleared() && !wasMounted && tempDir.None? && forall e | e in trace :: e.QueryDevice?
      modifies this
      ensures deviceInfo == old(deviceInfo) && tempDir == old(tempDir) && tempDirExists == old(tempDirExists)
      ensures deviceInfo.None? ==> err.None? && wasMounted == old(wasMounted) && trace == old(trace)
      ensures deviceInfo.Some? ==> (wasMounted <==> IsMounted(deviceInfo.value))
      ensures deviceInfo.Some? && IsMounted(deviceInfo.value) ==>
        trace == old(trace) + [Unmount(devicePath)] && err == (if env.unmountOk then None else Some(Mount))
      ensures deviceInfo.Some? && !IsMounted(deviceInfo.value) ==> err.None? && trace == old(trace)
      ensures Sound() && Reached(trace, 1)
    {
      if deviceInfo.None? {
        return None;
      }
      if deviceInfo.value.mountPoint.Some? && deviceInfo.value.mountPoint.value != "" {
        ConsistentAfterPrepare(devicePath, paranoid, image, ["jpg"], deviceInfo, trace, true);
        wasMounted := true;
        trace := trace + [Unmount(devicePath)];
        if !env.unmountOk {
          return Some(Mount);
        }
      } else {
        ConsistentAfterPrepare(devicePath, paranoid, image, ["jpg"], deviceInfo, trace, false);
        wasMounted := false;
      }
      err := None;
    }

    /** The part of `_run_photorec` before PhotoRec starts: the new temporary directory, and the device to scan. */
    method BeginScan(dir: string) returns (target: string)
      requires Sound() && Cleared() && tempDir.None? && Reached(trace, 1)
      requires image || deviceInfo.Some?
      modifies this
      ensures target == ScanTarget(devicePath, deviceInfo)
      ensures deviceInfo == old(deviceInfo) && wasMounted == old(wasMounted)
      ensures tempDir == Some(dir) && tempDirExists
      ensures trace == old(trace) + [MakeTempDir(dir)] + [Scan(target, dir, paranoid, ["jpg"])]
      ensures Sound() && Reached(trace, 3)
    {
      ConsistentAfterMakeTempDir(devicePath, paranoid, image, ["jpg"], deviceInfo, wasMounted, trace, dir);
      tempDir, tempDirExists := Some(dir), true;
      trace := trace + [MakeTempDir(dir)];
      target := devicePath;
      if deviceInfo.Some? && deviceInfo.value.rawDevicePath != "" {
        target := deviceInfo.value.rawDevicePath;
      }
      ConsistentAfterScan(devicePath, paranoid, image, ["jpg"], deviceInfo, wasMounted, trace, dir);
      trace := trace + [Scan(target, dir, paranoid, ["jpg"])];
    }

    /**
     * `_run_photorec`: a fresh temporary directory, then PhotoRec on the
     * scan target for JPEG only, reporting progress lines to a callback.
     */
    method RunPhotoRec(env: Env) returns (err: Option<ErrorKind>, result: Option<PhotoRecResult>)
      requires Sound() && Cleared() && tempDir.None? && Reached(trace, 1)
      requires image || deviceInfo.Some?
      modifies this
      ensures deviceInfo == old(deviceInfo) && wasMounted == old(wasMounted)
      ensures err.None? <==> result.Some?
      ensures env.tempDir.None? ==>
        err == Some(OsError) && tempDir == old(tempDir) && tempDirExists == old(tempDirExists) && trace == old(trace)
      ensures env.tempDir.Some? ==>
        && tempDir == env.tempDir && tempDirExists
        && trace == old(trace) + [MakeTempDir(env.tempDir.value)]
                            + [Scan(ScanTarget(devicePath, deviceInfo), env.tempDir.value, paranoid, ["jpg"])]
        && (err.Some? ==> err.value == PhotoRecExecution)
        && (result.Some? <==> env.process.Ran? && env.process.exitCode == 0)
        && (result.Some? ==> ParsedFrom(result.value, env.tempDir.value, env.listing, Captured(env.process.stdout)))
      ensures result.Some? ==> |trace| >= 2 && trace[|trace| - 1].Scan?
      ensures Sound() && Reached(trace, 3)
    {
      if env.tempDir.None? {
        return Some(OsError), None;
      }
      var dir := env.tempDir.value;
      var target := BeginScan(dir);
      var launched, r, delivered := Execute(photorec, target, dir, paranoid, Some(["jpg"]), true,
                                            env.process, env.listing, true);
      if r.Failure? {
        return Some(KindOf(r.error)), None;
      }
      return None, Some(r.value);
    }

    /** `_organize_output`: the organizer over the output directory, fed the files PhotoRec recovered. */
    method OrganizeOutput(env: Env, scanned: PhotoRecResult) returns (err: Option<ErrorKind>, records: seq<RecoveredFile>)
      requires Sound() && Reached(trace, 3)
      modifies this
      ensures deviceInfo == old(deviceInfo) && wasMounted == old(wasMounted)
      ensures tempDir == old(tempDir) && tempDirExists == old(tempDirExists)
      ensures !env.organizerReady ==> err == Some(OsError) && trace == old(trace)
      ensures env.organizerReady ==>
        && err.None?
        && records == Records(PathJoin(outputDir, "images"), scanned.recoveredFiles, env.disk, validate)
        && trace == old(trace) + [Organize(outputDir, |records|)]
      ensures Sound()
    {
      if !env.organizerReady {
        return Some(OsError), [];
      }
      var organizer := new RecoveryOrganizer(outputDir, map[], map[], map[]);
      records := organizer.Organize(scanned.recoveredFiles, env.disk, validate);
      ConsistentAfterOrganize(devicePath, paranoid, image, Cleared(), ["jpg"], deviceInfo,
                              wasMounted, tempDir, tempDirExists, old(trace), outputDir, |records|);
      trace := trace + [Organize(outputDir, |records|)];
      err := None;
    }

    /**
     * `_cleanup`: remount what was unmounted, remove the temporary directory
     * if it is still there; neither failure escapes. A second cleanup after
     * a successful removal removes nothing.
     */
    method Cleanup(env: Env)
      modifies this
      ensures deviceInfo == old(deviceInfo) && wasMounted == old(wasMounted) && tempDir == old(tempDir)
      ensures trace == old(trace)
        + (if deviceInfo.Some? && wasMounted then [Remount(devicePath)] else [])
        + (if tempDir.Some? && old(tempDirExists) then [RemoveTempDir(tempDir.value)] else [])
      ensures tempDirExists == (old(tempDirExists) && !(tempDir.Some? && env.rmtreeOk))
    {
      if deviceInfo.Some? && wasMounted {
        trace := trace + [Remount(devicePath)];
      }
      if tempDir.Some? && tempDirExists {
        trace := trace + [RemoveTempDir(tempDir.value)];
        if env.rmtreeOk {
          tempDirExists := false;
        }
      }
    }

    /** A disk image, or a device that passes `is_safe_device` with the default limit. */
    predicate Cleared()
      reads this`deviceInfo
    {
      deviceInfo.None? || IsSafeDevice(deviceInfo.value, DefaultMaxSizeGb).safe
    }

    /** The workflow invariant, `Consistent`, over this session's fields. */
    ghost predicate Sound()
      reads this
    {
      Consistent(devicePath, paranoid, image, Cleared(), ["jpg"],
                 deviceInfo, wasMounted, tempDir, tempDirExists, trace)
    }

    /** Whether the device record says the device is mounted. */
    predicate Mounted()
      reads this`deviceInfo
    {
      deviceInfo.Some? && IsMounted(deviceInfo.value)
    }

    /** Step 1 asks `diskutil`: no Ctrl-C first, a valid path, and not a disk image. */
    predicate Queried(env: Env) {
      env.interruptAt != Some(Validating) && ValidateDevicePath(devicePath, env.pathExists).Success? && !image
    }

    /**
     * How steps 1 to 3 stop, given the device record step 1 left: a Ctrl-C,
     * an invalid path, a failed query, an unsafe device, end of input at the
     * prompt, or an answer other than yes.
     */
    function InspectExit(skipConfirmation: bool, env: Env): Option<Exit>
      reads this`deviceInfo
    {
      if env.interruptAt == Some(Validating) then Some(Interrupt)
      else if ValidateDevicePath(devicePath, env.pathExists).Failure? then Some(Failed(Validation))
      else if !image && !QueryOk(env) then Some(Failed(ErrorKind.DeviceNotFound))
      else if env.interruptAt == Some(CheckingSafety) then Some(Interrupt)
      else if !Cleared() then Some(Failed(UnsafeDevice))
      else if skipConfirmation then None
      else if env.interruptAt == Some(Confirming) then Some(Interrupt)
      else if env.answer.None? then Some(Failed(OsError))
      else if !Accepts(env.answer.value) then Some(Refused)
      else None
    }

    /** How the workflow of `run` stops: the first of steps 1 to 6 that does. */
    function Expected(skipConfirmation: bool, env: Env): Option<Exit>
      reads this`deviceInfo
    {
      Then(InspectExit(skipConfirmation, env), OperateExit(Mounted(), env))
    }

    /**
     * `run` returns True exactly when every step goes through: no Ctrl-C, a
     * valid path, a device `diskutil` describes and that passes the safety
     * check (or a disk image), a yes at the prompt unless it is skipped, a
     * mounted device that unmounts, and `mkdtemp`, PhotoRec and the organizer
     * succeeding.
     */
    lemma GoesThrough(skipConfirmation: bool, env: Env)
      ensures Expected(skipConfirmation, env).None? <==>
        && (env.interruptAt.None? || (skipConfirmation && env.interruptAt == Some(Confirming)))
        && ValidateDevicePath(devicePath, env.pathExists).Success?
        && (image || QueryOk(env))
        && Cleared()
        && (skipConfirmation || (env.answer.Some? && Accepts(env.answer.value)))
        && (Mounted() ==> env.unmountOk)
        && env.tempDir.Some? && env.process.Ran? && env.process.exitCode == 0
        && env.organizerReady
    {
      InspectGoesThrough(skipConfirmation, env);
      OperateGoesThrough(Mounted(), env);
      if env.interruptAt.Some? {
        match env.interruptAt.value
        case Validating =>
        case CheckingSafety =>
        case Confirming =>
        case Preparing =>
        case Scanning =>
        case Organizing =>
      }
    }

    /**
     * Steps 1 to 3 go through exactly when no Ctrl-C arrives during them, the
     * path is valid, a device is described by `diskutil` and passes the
     * safety check (or is a disk image), and, unless skipped, the prompt gets a yes.
     */
    lemma InspectGoesThrough(skipConfirmation: bool, env: Env)
      ensures InspectExit(skipConfirmation, env).None? <==>
        && env.interruptAt != Some(Validating) && env.interruptAt != Some(CheckingSafety)
        && (skipConfirmation || env.interruptAt != Some(Confirming))
        && ValidateDevicePath(devicePath, env.pathExists).Success?
        && (image || QueryOk(env))
        && Cleared()
        && (skipConfirmation || (env.answer.Some? && Accepts(env.answer.value)))
    {
    }

    /** Steps 1 to 3 of `run`: validate, safety check, confirmation. */
    method Inspect(skipConfirmation: bool, env: Env) returns (exit: Option<Exit>)
      requires Fresh()
      modifies this
      ensures Sound()
      ensures trace == [] || trace == [QueryDevice(devicePath)]
      ensures !wasMounted && tempDir.None? && !tempDirExists
      ensures exit.None? ==> Cleared()
      ensures deviceInfo.Some? && !IsSafeDevice(deviceInfo.value, DefaultMaxSizeGb).safe ==>
        trace == [QueryDevice(devicePath)] &&
        exit == Some(if env.interruptAt == Some(CheckingSafety) then Interrupt else Failed(UnsafeDevice))
      ensures exit == Some(Refused) ==> !skipConfirmation && env.answer.Some? && !Accepts(env.answer.value)
      ensures exit.Some? && exit.value.Failed? ==> exit.value.kind in {Validation, ErrorKind.DeviceNotFound, UnsafeDevice, OsError}
      ensures exit == InspectExit(skipConfirmation, env)
      ensures trace == (if Queried(env) then [QueryDevice(devicePath)] else [])
      ensures deviceInfo.Some? <==> Queried(env) && QueryOk(env)
      ensures deviceInfo.Some? ==> env.diskutil.Some? && Describes(deviceInfo.value, env.diskutil.value)
    {
      exit := None;
      // Step 1
      if env.interruptAt == Some(Validating) {
        exit := Some(Interrupt);
      } else {
        var err := ValidateDevice(env);
        if err.Some? {
          exit := Some(Failed(err.value));
        } else if env.interruptAt == Some(CheckingSafety) {
          // Step 2
          exit := Some(Interrupt);
        } else {
          err := CheckSafety();
          if err.Some? {
            exit := Some(Failed(err.value));
          } else if !skipConfirmation {
            // Step 3
            if env.interruptAt == Some(Confirming) {
              exit := Some(Interrupt);
            } else if env.answer.None? {
              exit := Some(Failed(OsError));
            } else if !Accepts(env.answer.value) {
              exit := Some(Refused);
            }
          }
        }
      }
      ConsistentAfterInspect(devicePath, paranoid, image, Cleared(), ["jpg"], deviceInfo, trace);
    }

    /** Step 6 of `run`: organize what the scan recovered. */
    method OrganizeStep(env: Env, scanned: PhotoRecResult) returns (exit: Option<Exit>)
      requires Sound() && Reached(trace, 3)
      requires |trace| >= 2 && trace[|trace| - 1].Scan?
      modifies this
      ensures Sound() && deviceInfo == old(deviceInfo) && wasMounted == old(wasMounted)
      ensures exit in {None, Some(Interrupt), Some(Failed(OsError))}
      ensures exit == OrganizeExit(env)
      ensures exit.None? ==> |trace| >= 3 && trace[|trace| - 2].Scan? && trace[|trace| - 1].Organize?
    {
      if env.interruptAt == Some(Organizing) {
        return Some(Interrupt);
      }
      ghost var before := trace;
      var err, records := OrganizeOutput(env, scanned);
      if err.Some? {
        return Some(Failed(err.value));
      }
      assert trace[|trace| - 2] == before[|before| - 1];
      return None;
    }

    /** Step 5 of `run`: scan, unless interrupted first. */
    method ScanStep(env: Env) returns (exit: Option<Exit>, scanned: PhotoRecResult)
      requires Sound() && Cleared() && tempDir.None? && Reached(trace, 1)
      requires image || deviceInfo.Some?
      modifies this
      ensures Sound() && deviceInfo == old(deviceInfo) && wasMounted == old(wasMounted)
      ensures exit in {None, Some(Interrupt), Some(Failed(OsError)), Some(Failed(PhotoRecExecution))}
      ensures exit == ScanExit(env)
      ensures exit.None? ==> Reached(trace, 3) && |trace| >= 2 && trace[|trace| - 1].Scan?
    {
      scanned := PhotoRecResult(outputDir, [], 0, [], []);
      if env.interruptAt == Some(Scanning) {
        return Some(Interrupt), scanned;
      }
      var err, result := RunPhotoRec(env);
      if err.Some? {
        return Some(Failed(err.value)), scanned;
      }
      return None, result.value;
    }

    /** Steps 5 and 6 of `run`: scan, then organize what the scan recovered. */
    method ScanAndOrganize(env: Env) returns (exit: Option<Exit>)
      requires Sound() && Cleared() && tempDir.None? && Reached(trace, 1)
      requires image || deviceInfo.Some?
      modifies this
      ensures Sound() && deviceInfo == old(deviceInfo) && wasMounted == old(wasMounted)
      ensures exit in {None, Some(Interrupt), Some(Failed(OsError)), Some(Failed(PhotoRecExecution))}
      ensures exit == Then(ScanExit(env), OrganizeExit(env))
      ensures exit.None? ==> |trace| >= 3 && trace[|trace| - 2].Scan? && trace[|trace| - 1].Organize?
    {
      var scanned;
      exit, scanned := ScanStep(env);
      if exit.Some? {
        return;
      }
      // Step 6
      exit := OrganizeStep(env, scanned);
    }

    /** Steps 4 to 6 of `run`: prepare the device, scan, organize. */
    method Operate(env: Env) returns (exit: Option<Exit>)
      requires Sound()
      requires trace == [] || trace == [QueryDevice(devicePath)]
      requires !wasMounted && tempDir.None?
      requires Cleared() && (image || deviceInfo.Some?)
      modifies this
      ensures Sound() && deviceInfo == old(deviceInfo)
      ensures exit == OperateExit(Mounted(), env)
      ensures exit != Some(Refused)
      ensures exit == Some(Failed(Mount)) ==> wasMounted
      ensures exit.None? ==> |trace| >= 3 && trace[|trace| - 2].Scan? && trace[|trace| - 1].Organize?
    {
      // Step 4
      if env.interruptAt == Some(Preparing) {
        return Some(Interrupt);
      }
      var err := PrepareDevice(env);
      if err.Some? {
        return Some(Failed(err.value));
      }
      exit := ScanAndOrganize(env);
    }

    /**
     * The part of `run` after the confirmation: steps 4 to 6 when steps 1 to
     * 3 let them run, then `_cleanup` whatever happened, reporting what ended
     * the workflow. A workflow stopped before step 4 has nothing to undo.
     */
    method Conclude(exit: Option<Exit>, env: Env) returns (r: RunOutcome)
      requires Sound()
      requires trace == [] || trace == [QueryDevice(devicePath)]
      requires !wasMounted && tempDir.None?
      requires exit != Some(Refused) && (exit.None? ==> Cleared() && (image || deviceInfo.Some?))
      requires exit.Some? && exit.value.Failed? ==> exit.value.kind != Mount
      modifies this
      ensures deviceInfo == old(deviceInfo)
      ensures CleanedUp(devicePath, paranoid, image, Cleared(), ["jpg"],
                        deviceInfo, wasMounted, tempDir, trace)
      ensures r != Completed(false)
      ensures r == Completed(true) ==>
        (exists e | e in trace :: e.Scan?) && (exists e | e in trace :: e.Organize?)
      ensures exit.Some? ==> r == RunOutcomeOf(exit) && trace == old(trace)
      ensures r == RunOutcomeOf(Then(exit, OperateExit(Mounted(), env)))
      ensures r == Raised(Mount) ==> Remount(devicePath) in trace
      ensures tempDirExists <==> tempDir.Some? && !env.rmtreeOk
    {
      var last := exit;
      if last.None? {
        last := Operate(env);
      }
      ghost var before, existed := trace, tempDirExists;
      Cleanup(env);
      ConsistentCleanup(devicePath, paranoid, image, Cleared(), ["jpg"], deviceInfo,
                        wasMounted, tempDir, existed, before, trace);
      r := RunOutcomeOf(last);
      if last.None? {
        assert before[|before| - 2].Scan? && before[|before| - 2] in trace;
        assert before[|before| - 1].Organize? && before[|before| - 1] in trace;
      }
    }

    /**
     * `run`: the workflow, then cleanup on success, on any exception and on
     * Ctrl-C, re-raising what was caught; a refusal returns False with
     * nothing to undo.
     */
    method Run(skipConfirmation: bool, env: Env) returns (r: RunOutcome)
      requires Fresh()
      modifies this
      ensures CleanedUp(devicePath, paranoid, image, Cleared(), ["jpg"],
                        deviceInfo, wasMounted, tempDir, trace)
      ensures r == Completed(true) ==>
        (exists e | e in trace :: e.Scan?) && (exists e | e in trace :: e.Organize?)
      ensures skipConfirmation ==> r != Completed(false)
      ensures r == Completed(false) ==>
        env.answer.Some? && !Accepts(env.answer.value) && forall e | e in trace :: e.QueryDevice?
      ensures deviceInfo.Some? && !IsSafeDevice(deviceInfo.value, DefaultMaxSizeGb).safe ==>
        trace == [QueryDevice(devicePath)] &&
        r == (if env.interruptAt == Some(CheckingSafety) then Interrupted else Raised(UnsafeDevice))
      ensures r == Raised(Mount) ==> Remount(devicePath) in trace
      ensures tempDirExists <==> tempDir.Some? && !env.rmtreeOk
      ensures r == RunOutcomeOf(Expected(skipConfirmation, env))
      ensures deviceInfo.Some? <==> Queried(env) && QueryOk(env)
      ensures deviceInfo.Some? ==> env.diskutil.Some? && Describes(deviceInfo.value, env.diskutil.value)
      ensures InspectExit(skipConfirmation, env).Some? ==>
        trace == (if Queried(env) then [QueryDevice(devicePath)] else [])
    {
      var exit := Inspect(skipConfirmation, env);
      if exit == Some(Refused) {
        ConsistentWithoutCleanup(devicePath, paranoid, image, Cleared(), ["jpg"], deviceInfo, trace);
        return Completed(false);
      }
      r := Conclude(exit, env);
    }
  }

  /**
   * `recover`: the session's PhotoRec wrapper looks for the executable
   * first (`which` stands for what `shutil.which` finds), so a missing
   * PhotoRec is reported before anything is touched; `force` only skips the
   * confirmation.
   */
  method Recover(devicePath: string, outputDir: string, paranoid: bool, validate: bool, force: bool,
                 which: Option<string>, env: Env)
    returns (r: RunOutcome, session: RecoverySession?)
    ensures FindPhotoRec(None, which).Failure? ==> r == Raised(PhotoRecNotFound) && session == null
    ensures FindPhotoRec(None, which).Success? ==>
      && session != null && fresh(session)
      && session.devicePath == devicePath && session.photorec == FindPhotoRec(None, which).value
      && (force ==> r != Completed(false))
      && (session.deviceInfo.Some? && !IsSafeDevice(session.deviceInfo.value, DefaultMaxSizeGb).safe ==>
            && (forall e | e in session.trace :: e == QueryDevice(devicePath))
            && r == (if env.interruptAt == Some(CheckingSafety) then Interrupted else Raised(UnsafeDevice)))
      && r == RunOutcomeOf(session.Expected(force, env))
      && (session.deviceInfo.Some? <==> session.Queried(env) && QueryOk(env))
  {
    var found := FindPhotoRec(None, which);
    if found.Failure? {
      return Raised(found.error), null;
    }
    session := new RecoverySession(devicePath, outputDir, paranoid, validate, found.value);
    r := session.Run(force, env);
    assert r == RunOutcomeOf(session.Expected(force, env));
    assert session.deviceInfo.Some? && !IsSafeDevice(session.deviceInfo.value, DefaultMaxSizeGb).safe ==>
      session.trace == [QueryDevice(devicePath)];
  }
}
