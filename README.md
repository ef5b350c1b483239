# sd-image-recovery in Dafny

A model of the core of sd-image-recovery, a front-end to PhotoRec for
recovering deleted JPEG images from SD cards and disk images on macOS.
The model covers:

- the device-path check and the JPEG validator (`utils/validation.py`);
- the device record, the `diskutil info` reader, the size parser and the
  safety decision table (`core/device.py`);
- locating PhotoRec, its version, its command line, running it and reading
  back what it recovered (`core/photorec_wrapper.py`);
- copying the recovered files into a sequentially named image directory,
  validating and linking each, and the three reports (`core/organizer.py`);
- the recovery session: validate, safety check, confirmation, prepare,
  scan, organize and cleanup (`core/recovery.py`).

The modules are:

| file | module | models |
|---|---|---|
| `wrappers.dfy` | `Wrappers` | `Option` and `Result`, for `None` and raised exceptions |
| `errors.dfy` | `Errors` | the exception classes of `utils/errors.py` as one `ErrorKind` |
| `text.dfy` | `Text` | the Python `str` operations the code uses (ASCII only) |
| `validation.dfy` | `Validation` | `validate_jpeg`, `is_suspicious_jpeg`, `validate_device_path` |
| `device.dfy` | `Device` | `DeviceInfo`, `get_device_info`, `is_safe_device`, `parse_size` |
| `photorec.dfy` | `PhotoRec` | `PhotoRecWrapper` and `PhotoRecResult` |
| `organizer.dfy` | `Organizer` | `RecoveredFile` and the `RecoveryOrganizer` class |
| `workflow.dfy` | `Workflow` | the session's effects, their order, and the invariant each step keeps |
| `recovery.dfy` | `Recovery` | the `RecoverySession` class and `recover` |

Everything the code asks of the outside world is an input:

- `diskutil` output, `shutil.which`, the PhotoRec child process and the
  directory it fills;
- the image library's decoding, `stat`, `mkdtemp`, unmount and `rmtree`
  outcomes;
- the user's answer (or the end of input), and the step a Ctrl-C arrives in.

The organizer's directories are maps held by the `RecoveryOrganizer`
class and updated in place. The recovery session is a class whose methods
update `device_info`, `was_mounted` and `temp_dir`. A ghost trace records
its effects on the outside world in order: query, unmount, temporary
directory, scan, organize, remount and removal.

Where the code and its documentation disagree, the model follows the
code:

- `--force` and `recover(force=True)` only skip the confirmation (the help
  text at `src/sd_recovery/cli.py:126` and the docstring at
  `src/sd_recovery/core/recovery.py:295` say they also skip the safety
  checks). `Recovery.Recover` proves that an unsafe device is never
  unmounted or scanned, even with `force`.
- `validate_device_path` demands the `/dev/` prefix before looking at the
  suffix. A disk image outside `/dev` is therefore refused, as
  `Validation.ImageOutsideDevRefused` shows, although the messages present
  image files as an alternative to devices.

## Model

| member | source | states |
|---|---|---|
| Validation.ValidateJpeg | src/sd_recovery/utils/validation.py:13-67 | valid exactly when the file opened, its format is JPEG/JPG, its size could be read and `verify()` passed; metadata present exactly then, with the image's dimensions, format and size; `has_exif` iff a non-empty tag map was read; DateTime/Make/Model present iff EXIF and the tag is there, with the tag's value |
| Validation.RatioAboveTen | src/sd_recovery/utils/validation.py:91-95 | with a positive denominator, a quotient exceeds 10 iff the numerator exceeds ten denominators |
| Validation.IsSuspicious | src/sd_recovery/utils/validation.py:70-97 | suspicious when metadata is absent, a side is under 10, or the size is under 1024 bytes; otherwise iff one side is more than ten times the other (exactly 10:1 passes) |
| Validation.BaseName | src/sd_recovery/utils/validation.py:119 | the last path component: holds no `/` and ends the path |
| Validation.SuffixIsExtension | src/sd_recovery/utils/validation.py:119 | a dotted three-letter extension is the path's suffix iff the name is longer than it and ends with it |
| Validation.ImageTargetByName | src/sd_recovery/core/recovery.py:126 | a path is treated as a disk image iff its name is longer than four characters and ends in `.img`, `.dmg` or `.iso` |
| Validation.ValidateDevicePath | src/sd_recovery/utils/validation.py:100-128 | succeeds, returning the path, iff it starts with `/dev/` and exists; no `/dev/` prefix gives "not a valid device path" first; a missing path gives "disk image not found" for an image suffix and "device not found" otherwise |
| Validation.ImageOutsideDevRefused | src/sd_recovery/utils/validation.py:115-122 | an existing `name.img` without the `/dev/` prefix is refused as not a device path |
| Device.IsSafeDevice | src/sd_recovery/core/device.py:154-181 | safe iff device number >= 2, not internal, size <= max_size_gb GiB and removable; otherwise no reason is missing, and the reason is the first rule that fails, in the code's order |
| Device.FindSizeToken | src/sd_recovery/core/device.py:254 | a token found has a non-empty run of digits and dots as its number and one of B, KB, MB, GB, TB or PB as its unit |
| Device.FindSizeTokenNone | src/sd_recovery/core/device.py:254-256 | the search finds nothing exactly when no position from the start on begins a `number unit` match |
| Device.FindSizeTokenLeftmost | src/sd_recovery/core/device.py:254 | the search returns the match beginning at the leftmost position that begins one |
| Device.DecimalOf | src/sd_recovery/core/device.py:258 | a numeral of digits only reads as its integer value with no decimal places |
| Device.ParseSize | src/sd_recovery/core/device.py:242-270 | when no position of the cleaned text begins a `number unit` match, the size is 0; otherwise it is the value of the match at the leftmost position that begins one, and None when `float` refuses its number |
| Device.CleanedKeepsPrefix | src/sd_recovery/core/device.py:252 | removing the parentheses and stripping keeps a leading word that has no parenthesis and no surrounding whitespace |
| Device.TokenAtReading | src/sd_recovery/core/device.py:254 | `number unit` at the start of the text is matched there, capturing the number and the unit |
| Device.ParseSizeOfReading | src/sd_recovery/core/device.py:252-270 | text starting with `number unit` has the size of that token, whatever follows |
| Device.TokenSizeWhole | src/sd_recovery/core/device.py:258-270 | a whole-number token is worth its value times the unit's factor |
| Device.ParseSizeRoundTrip | src/sd_recovery/core/device.py:242-270 | parsing `str(n) + " " + unit` gives n times the unit's factor, for every unit, with the numeral read exactly; for n below 2^53 this is what Python computes |
| Device.DecimalOfFraction | src/sd_recovery/core/device.py:258 | `whole.fraction` reads as the digits of both over ten to the length of the fraction |
| Device.ParseSizeDecimal | src/sd_recovery/core/device.py:252-270 | a decimal reading is the digits times the unit over the scale, truncated to whole bytes |
| Device.TrailingZeroValue | src/sd_recovery/core/device.py:258 | a trailing zero multiplies a numeral's value by ten |
| Device.ParseSizeDiskutilLine | src/sd_recovery/core/device.py:124-125 | diskutil's `N.0 GB (… Bytes)` reads as N GiB |
| Device.TenthsOfGigabyte | src/sd_recovery/core/device.py:258-270 | a reading of `v.0 GB`, taken as 10v tenths of a gigabyte, is exactly v GiB |
| Device.NoNumberNoToken | src/sd_recovery/core/device.py:254-256 | text without digits or dots has no match from any position |
| Device.ParseSizeWithoutNumber | src/sd_recovery/core/device.py:254-256 | a size text without digits or dots parses as 0 |
| Device.Pairs | src/sd_recovery/core/device.py:103-107 | at most one pair per line |
| Device.PairsStep | src/sd_recovery/core/device.py:103-107 | one more line adds its pair, if it holds a `:`, after the pairs so far |
| Device.AssocSnoc | src/sd_recovery/core/device.py:107 | one more pair overwrites its key and keeps the rest of the dictionary |
| Device.AssocLastWins | src/sd_recovery/core/device.py:103-107 | a key is in the dictionary iff some line's pair carries it, and its value is that of the last such line |
| Device.ParseInfo | src/sd_recovery/core/device.py:102-107 | the loop builds the dictionary of the lines' stripped key/value pairs, later lines winning |
| Device.DeviceNumber | src/sd_recovery/core/device.py:110-111 | -1 exactly when no position of the path begins `disk<digits>`; otherwise the value of the digits at the leftmost position that does |
| Device.FindDiskNumberNone | src/sd_recovery/core/device.py:110 | the search finds nothing exactly when no position from the start on begins `disk<digits>` |
| Device.FindDiskNumberLeftmost | src/sd_recovery/core/device.py:110 | the search returns the number at the leftmost position that begins `disk<digits>` |
| Device.FindDiskNumberSkips | src/sd_recovery/core/device.py:110 | the search passes over positions where no `disk<digits>` starts |
| Device.DeviceNumberOfDiskPath | src/sd_recovery/core/device.py:110-111 | `/dev/diskN` and `/dev/rdiskN` have device number N |
| Device.RawPathOfDiskPath | src/sd_recovery/core/device.py:133 | `/dev/diskN` becomes `/dev/rdiskN` |
| Device.RawPathHasNoDiskPath | src/sd_recovery/core/device.py:133 | `/dev/rdiskN` does not contain `/dev/disk` |
| Device.RawPathOfRawPath | src/sd_recovery/core/device.py:133 | a raw path is its own raw path |
| Device.GetDeviceInfo | src/sd_recovery/core/device.py:82-151 | failing `diskutil`, or a size `float` refuses, gives DeviceNotFound and nothing else fails; on success the record keeps the path, the raw path of the replacement, the size of "Disk Size" (default "0 B"), the number of the path, USB forcing removable and not internal (else the location and removable fields, case-insensitive), the file system, mount point and volume name |
| PhotoRec.FindPhotoRec | src/sd_recovery/core/photorec_wrapper.py:19-41 | found iff a non-empty path was given or `which` found one; a given path wins; otherwise PhotoRecNotFound |
| PhotoRec.FindVersion | src/sd_recovery/core/photorec_wrapper.py:60 | a captured version is a non-empty run of digits and dots |
| PhotoRec.FindVersionNone | src/sd_recovery/core/photorec_wrapper.py:60 | the search finds nothing exactly when no position from the start on begins a match |
| PhotoRec.FindVersionLeftmost | src/sd_recovery/core/photorec_wrapper.py:60 | the search returns the version at the leftmost position that begins a match |
| PhotoRec.VersionOf | src/sd_recovery/core/photorec_wrapper.py:60-63 | "unknown" exactly when no position of the output begins `PhotoRec`, whitespace and a run of digits and dots; otherwise the run at the leftmost position that does, a non-empty run of digits and dots |
| PhotoRec.VersionOfBanner | src/sd_recovery/core/photorec_wrapper.py:60-62 | output opening with `PhotoRec <version>` reports that version |
| PhotoRec.CheckVersion | src/sd_recovery/core/photorec_wrapper.py:43-66 | a failing `/version` run is PhotoRecExecution; otherwise the version of its output |
| PhotoRec.EnableOptions | src/sd_recovery/core/photorec_wrapper.py:99-100 | one `fileopt,<type>,enable` per file type, in order |
| PhotoRec.OptionsLayout | src/sd_recovery/core/photorec_wrapper.py:93-107 | the options are everything disabled first, then each type's enable in order, then `options,paranoid` only when paranoid, and `search` last |
| PhotoRec.DefaultOptions | src/sd_recovery/core/photorec_wrapper.py:86-87 | with no type list the options are disable-all, enable jpg, search |
| PhotoRec.BuildCommand | src/sd_recovery/core/photorec_wrapper.py:68-117 | the command is the executable, `/d` and the output directory, `/cmd` and the device, then every option in one comma-joined argument |
| PhotoRec.RecupEntries | src/sd_recovery/core/photorec_wrapper.py:198 | no more entries than the listing |
| PhotoRec.RecupEntriesSelects | src/sd_recovery/core/photorec_wrapper.py:198 | an entry is kept iff it is in the listing and its name starts with `recup_dir.` |
| PhotoRec.Paths | src/sd_recovery/core/photorec_wrapper.py:198 | one path per entry |
| PhotoRec.PathsJoin | src/sd_recovery/core/photorec_wrapper.py:198 | each path is the output directory joined with the entry's name |
| PhotoRec.Glob | src/sd_recovery/core/photorec_wrapper.py:204-205 | no more matches than names |
| PhotoRec.GlobMatches | src/sd_recovery/core/photorec_wrapper.py:204-205 | every match is the path of a name with the extension, and every such name's path is matched |
| PhotoRec.RecoveredFilesFromRecup | src/sd_recovery/core/photorec_wrapper.py:198-205 | every recovered file comes from a recup entry that is a directory, and every `*.jpg` or `*.JPG` name in such a directory is recovered |
| PhotoRec.CollectFiles | src/sd_recovery/core/photorec_wrapper.py:201-205 | the loop collects, directory by directory, the `*.jpg` then the `*.JPG` files of each recup entry that is a directory |
| PhotoRec.SummaryWords | src/sd_recovery/core/photorec_wrapper.py:213 | where the words of `<digits> files recovered` sit |
| PhotoRec.SummaryRuns | src/sd_recovery/core/photorec_wrapper.py:213 | where the runs of digits and spaces of `<digits> files recovered` end |
| PhotoRec.CountAtSummary | src/sd_recovery/core/photorec_wrapper.py:213 | digits followed by ` files recovered` match at the start and capture the digits |
| PhotoRec.ReportedCountOfSummary | src/sd_recovery/core/photorec_wrapper.py:211-215 | the line `str(n) files recovered` reports n |
| PhotoRec.LargestCount | src/sd_recovery/core/photorec_wrapper.py:208-215 | the count is at least the files found and at least every reported count, and it equals one of them |
| PhotoRec.ParseResults | src/sd_recovery/core/photorec_wrapper.py:187-223 | the result keeps the directory and the lines; its recup directories and files are those of the listing; its count is the largest of the files found and every reported count |
| PhotoRec.Tail | src/sd_recovery/core/photorec_wrapper.py:175 | the last min(20, n) lines, in order |
| PhotoRec.Captured | src/sd_recovery/core/photorec_wrapper.py:158-162 | one captured line per printed line |
| PhotoRec.StreamOutput | src/sd_recovery/core/photorec_wrapper.py:157-167 | every line is right-stripped and kept in order; the callback gets exactly those lines when there is one, and nothing otherwise |
| PhotoRec.Execute | src/sd_recovery/core/photorec_wrapper.py:119-185 | a failed directory creation escapes before launch; otherwise the built command is launched; a failed launch is a PhotoRec error; a non-zero exit keeps the last 20 lines and parses nothing; exit 0 gives the parsed result of the captured lines |
| Organizer.ImageNameInjective | src/sd_recovery/core/organizer.py:119 | distinct positions get distinct `image_{index:05d}.jpg` names, beyond 99999 too |
| Organizer.RecordOfFields | src/sd_recovery/core/organizer.py:119-159 | the record's name and path follow its position; without validation it is neither valid nor suspicious and has no metadata; with it, validity is the validator's; suspicion implies validity; a valid record carries the validator's metadata and its suspicion verdict |
| Organizer.ClearPhotoIsValid | src/sd_recovery/core/organizer.py:133-159 | a validated 640x480 JPEG of at least 1 KiB is valid, not suspicious and keeps its dimensions |
| Organizer.Outcomes | src/sd_recovery/core/organizer.py:78-89 | one outcome per source |
| Organizer.RecordsOf | src/sd_recovery/core/organizer.py:86-87 | no more records than outcomes |
| Organizer.KeptOf | src/sd_recovery/core/organizer.py:86-87 | every kept position is a position of the batch |
| Organizer.RecordsAtKept | src/sd_recovery/core/organizer.py:78-89 | the k-th record is the record produced at the k-th kept position |
| Organizer.KeptIncreasing | src/sd_recovery/core/organizer.py:78-89 | kept positions are strictly increasing, so records keep source order |
| Organizer.KeptExactly | src/sd_recovery/core/organizer.py:78-89 | a position is kept iff processing it produced a record |
| Organizer.RecordsArePositional | src/sd_recovery/core/organizer.py:78-89 | the three facts above together |
| Organizer.RecordsComeFromOutcomes | src/sd_recovery/core/organizer.py:86-87 | every record was produced by some file of the batch |
| Organizer.OutcomeNamed | src/sd_recovery/core/organizer.py:78-84 | the record of the i-th source is named for position i + 1 and keeps its source; suspicion implies validity; without validation it is neither |
| Organizer.AllRecorded | src/sd_recovery/core/organizer.py:86-87 | with no failure there is one record per file, in order |
| Organizer.SequentialWhenAllSucceed | src/sd_recovery/core/organizer.py:78-89 | when every copy and `stat` succeeds the names run image_00001.jpg, image_00002.jpg, … without gaps |
| Organizer.UnvalidatedRecordsAreNeutral | src/sd_recovery/core/organizer.py:133-140 | with validation off no record is valid or suspicious |
| Organizer.SuspiciousRecordsAreValid | src/sd_recovery/core/organizer.py:133-140 | every suspicious record is valid |
| Organizer.RecordNamesDiffer | src/sd_recovery/core/organizer.py:78-89 | two records of a batch have different names |
| Organizer.DistinctRecordNames | src/sd_recovery/core/organizer.py:78-89 | the record names of a batch are pairwise distinct |
| Organizer.ImagesHoldSource | src/sd_recovery/core/organizer.py:119-127 | after the batch, a readable source is in the image directory under its position's name |
| Organizer.ImagesHoldSources | src/sd_recovery/core/organizer.py:119-127 | the same for every readable source at once |
| Organizer.ImagesKeepOthers | src/sd_recovery/core/organizer.py:119-127 | a name no position of the batch uses keeps its content |
| Organizer.ImagesHoldCopies | src/sd_recovery/core/organizer.py:119-127 | both facts about the image directory together |
| Organizer.ImagesSnoc | src/sd_recovery/core/organizer.py:123-127 | one more source adds its copy under its position's name, if it could be copied |
| Organizer.OutcomeSnoc | src/sd_recovery/core/organizer.py:78-89 | one more outcome adds its record, if any, to the records, and its link to its category |
| Organizer.LinksKeepBase | src/sd_recovery/core/organizer.py:175-184 | an existing link is never replaced |
| Organizer.LinksComeFromRecords | src/sd_recovery/core/organizer.py:175-184 | every link existed before or belongs to a record of that category |
| Organizer.LastNameIsNew | src/sd_recovery/core/organizer.py:175-184 | among distinctly named records the last is named unlike every earlier one |
| Organizer.LinksOfNewNames | src/sd_recovery/core/organizer.py:175-184 | a new name is linked iff its record is of the category, and the link points at the record's copy |
| Organizer.OneLinkPerRecord | src/sd_recovery/core/organizer.py:166-186 | each record is linked under `valid` iff valid and not suspicious and under `suspicious` otherwise; existing links stay and nothing else appears |
| Organizer.CountWhere | src/sd_recovery/core/organizer.py:199-200 | a count is at most the number of records |
| Organizer.CountComplement | src/sd_recovery/core/organizer.py:263-265 | the records satisfying a test and those failing it add up to all records |
| Organizer.CountMonotone | src/sd_recovery/core/organizer.py:199-200 | a weaker test counts at least as many records |
| Organizer.ManifestOf | src/sd_recovery/core/organizer.py:196-202 | the manifest lists every record, in order; its valid and suspicious counts are at most the total |
| Organizer.ManifestSuspiciousAmongValid | src/sd_recovery/core/organizer.py:196-202 | in an organized batch's manifest the suspicious count is at most the valid count |
| Organizer.Row | src/sd_recovery/core/organizer.py:237-251 | twelve cells under the twelve header columns: name, size, validity, suspicion, EXIF flag and path in their columns |
| Organizer.CameraKey | src/sd_recovery/core/organizer.py:288-290 | a record counts for a camera iff it has EXIF and a non-empty make and model; the camera is `make model` |
| Organizer.MapTotalRemove | src/sd_recovery/core/organizer.py:287-291 | the total of the camera counts does not depend on the order of the keys |
| Organizer.MapTotalBump | src/sd_recovery/core/organizer.py:291 | counting one more image for a camera raises the total by one |
| Organizer.CameraTallyTotal | src/sd_recovery/core/organizer.py:283-291 | the camera counts add up to the records with a camera, so at most to the EXIF files |
| Organizer.SummaryOf | src/sd_recovery/core/organizer.py:263-291 | the total is the number of records; valid plus invalid is the total; the valid, suspicious and EXIF counts are those of the records; camera counts fit in the EXIF files |
| Organizer.CountCameras | src/sd_recovery/core/organizer.py:286-291 | the loop builds the per-camera counts of the summary |
| Organizer.RecoveryOrganizer.constructor | src/sd_recovery/core/organizer.py:38-58 | the image directory is `<base>/images`; existing directory contents stay; no report yet |
| Organizer.RecoveryOrganizer.CreateSymlinks | src/sd_recovery/core/organizer.py:166-186 | valid and not suspicious: a link under `valid`, unless the name is taken; otherwise one under `suspicious`; nothing else changes |
| Organizer.RecoveryOrganizer.ProcessFile | src/sd_recovery/core/organizer.py:102-164 | the copy lands under the position's name if the source is readable; a failed copy or `stat` gives no record; otherwise the record of `RecordOf`, linked in its category |
| Organizer.RecoveryOrganizer.GenerateCsv | src/sd_recovery/core/organizer.py:209-253 | the header, then one row per record in record order |
| Organizer.RecoveryOrganizer.GenerateSummary | src/sd_recovery/core/organizer.py:255-304 | the summary of the records |
| Organizer.RecoveryOrganizer.ProcessAll | src/sd_recovery/core/organizer.py:76-91 | each source in order at its 1-based position; the records, image directory and links are those of the whole batch |
| Organizer.RecoveryOrganizer.Organize | src/sd_recovery/core/organizer.py:60-100 | the batch, then the manifest, CSV and summary of exactly the records kept |
| Workflow.OrderedIsStrict | src/sd_recovery/core/recovery.py:75-108 | effects in adjacent step order are in total step order, so none repeats |
| Workflow.OrderedSnoc | src/sd_recovery/core/recovery.py:75-108 | an effect of a later step keeps the trace ordered |
| Workflow.ReachedBoundsAll | src/sd_recovery/core/recovery.py:75-108 | an ordered trace that has reached step k holds no effect of a later step |
| Workflow.ScanTargetOfDisk | src/sd_recovery/core/recovery.py:219-221 | a queried `/dev/diskN` is scanned as `/dev/rdiskN` |
| Workflow.ScanTargetOfImage | src/sd_recovery/core/recovery.py:219 | a disk image is scanned under its own path |
| Workflow.ConsistentAfterInspect | src/sd_recovery/core/recovery.py:76-89 | steps 1 to 3, which at most query a device that is not an image, establish the session invariant |
| Workflow.ConsistentAfterPrepare | src/sd_recovery/core/recovery.py:188-200 | marking a mounted device and unmounting it keeps the invariant |
| Workflow.ConsistentAfterMakeTempDir | src/sd_recovery/core/recovery.py:209 | making the temporary directory keeps the invariant |
| Workflow.ConsistentAfterScan | src/sd_recovery/core/recovery.py:219-231 | scanning the scan target into the temporary directory keeps the invariant, for a disk image or a device with a record |
| Workflow.ConsistentAfterOrganize | src/sd_recovery/core/recovery.py:236-249 | organizing keeps the invariant |
| Workflow.OrderedAfterCleanup | src/sd_recovery/core/recovery.py:261-278 | a remount and then a removal after the workflow keep the trace ordered |
| Workflow.CleanupOrder | src/sd_recovery/core/recovery.py:261-278 | cleanup effects come after every workflow effect |
| Workflow.ConsistentCleanup | src/sd_recovery/core/recovery.py:261-278 | cleanup after a consistent workflow leaves the session cleaned up: remount iff unmounted, temporary directory removed iff made |
| Workflow.ConsistentWithoutCleanup | src/sd_recovery/core/recovery.py:85-89 | a session stopped at the confirmation is cleaned up with nothing to undo: at most the device query |
| Recovery.AcceptsPadded | src/sd_recovery/core/recovery.py:185-186 | "y" or "yes" in any case, surrounded by any whitespace, is accepted |
| Recovery.BlankRefused | src/sd_recovery/core/recovery.py:185-186 | an empty or blank answer is a refusal |
| Recovery.RecoverySession.constructor | src/sd_recovery/core/recovery.py:33-61 | the parameters are kept, the image flag follows the suffix, and nothing is known or done |
| Recovery.RecoverySession.ValidateDevice | src/sd_recovery/core/recovery.py:120-133 | a bad path is a validation error; a disk image stops there without a query; anything else is queried and succeeds exactly when `get_device_info` does, recording the device `diskutil` describes under its path and raw path |
| Recovery.RecoverySession.QueryInfo | src/sd_recovery/core/recovery.py:132 | the query is recorded; it succeeds exactly when `diskutil` answers with a readable size, setting the device record to what `diskutil` describes; failure is DeviceNotFound and keeps the old record |
| Recovery.RecoverySession.CheckSafety | src/sd_recovery/core/recovery.py:135-149 | fails, with UnsafeDevice, iff there is a device record that `is_safe_device` refuses at 512 GB |
| Recovery.RecoverySession.PrepareDevice | src/sd_recovery/core/recovery.py:188-200 | a disk image is left alone; `was_mounted` iff the device has a mount point; a mounted device is marked before the unmount, which may fail with a mount error |
| Recovery.RecoverySession.BeginScan | src/sd_recovery/core/recovery.py:209-231 | the new temporary directory is recorded, then the scan of the raw path (or the given path) into it, keeping the invariant |
| Recovery.RecoverySession.RunPhotoRec | src/sd_recovery/core/recovery.py:202-234 | a failing `mkdtemp` is an OS error with nothing done; otherwise the temporary directory and the JPEG-only scan are recorded, and the result is the parsed output iff PhotoRec ran and exited 0 |
| Recovery.RecoverySession.OrganizeOutput | src/sd_recovery/core/recovery.py:236-258 | the records are those the organizer produces from the recovered files under `<output>/images`, recorded as the organize effect |
| Recovery.RecoverySession.Cleanup | src/sd_recovery/core/recovery.py:261-278 | remount iff a device was marked mounted; removal iff the temporary directory still exists, which it no longer does after a successful removal; no failure escapes |
| Recovery.RecoverySession.Inspect | src/sd_recovery/core/recovery.py:75-89 | steps 1 to 3 stop at the first of: a Ctrl-C, Validation for a bad path, DeviceNotFound when `diskutil` fails for a device, UnsafeDevice, an OS error at end of input, a refusal for any answer but yes; the query is recorded exactly when a valid device path is reached; the device record exists exactly when the query succeeds, and is what `diskutil` describes; the invariant holds |
| Recovery.RecoverySession.ScanStep | src/sd_recovery/core/recovery.py:95-97 | step 5 stops with a Ctrl-C, with an OS error when `mkdtemp` fails, or with a PhotoRec error unless PhotoRec ran and exited 0; otherwise it ends in the scan |
| Recovery.RecoverySession.OrganizeStep | src/sd_recovery/core/recovery.py:99-101 | step 6 stops with a Ctrl-C, or with an OS error when the organizer cannot make its directories; otherwise the organize effect follows the scan |
| Recovery.RecoverySession.ScanAndOrganize | src/sd_recovery/core/recovery.py:95-101 | steps 5 and 6 stop as the first of them that stops; otherwise a scan is followed by the organize effect |
| Recovery.RecoverySession.Operate | src/sd_recovery/core/recovery.py:91-101 | steps 4 to 6 stop at the first of: a Ctrl-C at step 4, a mount error when a mounted device does not unmount (after marking it), then steps 5 and 6; success ends in a scan and then the organize effect |
| Recovery.RecoverySession.Conclude | src/sd_recovery/core/recovery.py:91-118 | the outcome is that of the first step to stop, running steps 4 to 6 only when steps 1 to 3 let them; after cleanup, whatever happened, the session is cleaned up; success means a scan and an organize happened; a mount error is followed by a remount attempt |
| Recovery.RecoverySession.Run | src/sd_recovery/core/recovery.py:63-118 | the outcome is that of the first step to stop: its exception or the interrupt, False for a refusal, True when every step goes through; a stop in steps 1 to 3 leaves at most the device query; the device record exists exactly when `diskutil` described the device; an unsafe device is only queried, then UnsafeDevice; skipping confirmation never returns False; the session is cleaned up however `run` ends |
| Recovery.RecoverySession.InspectGoesThrough | src/sd_recovery/core/recovery.py:75-89 | steps 1 to 3 go through exactly when no Ctrl-C comes, the path is valid, a device is described by `diskutil` and is safe (or it is a disk image), and the prompt, unless skipped, gets a yes |
| Recovery.OperateGoesThrough | src/sd_recovery/core/recovery.py:91-101 | steps 4 to 6 go through exactly when no Ctrl-C comes during them, a mounted device unmounts, and `mkdtemp`, PhotoRec and the organizer succeed |
| Recovery.RecoverySession.GoesThrough | src/sd_recovery/core/recovery.py:63-108 | `run` returns True exactly when all of steps 1 to 6 go through |
| Recovery.Recover | src/sd_recovery/core/recovery.py:281-309 | a missing PhotoRec is reported before any session exists; otherwise the session runs with `force` as its confirmation skip and ends as its workflow says: never False with `force`, and an unsafe device is only queried, then UnsafeDevice (or the interrupt) |
| Text.RStripIsPrefix | src/sd_recovery/core/photorec_wrapper.py:161 | `rstrip` keeps a prefix of its input |
| Text.LStripIsSuffix | src/sd_recovery/core/device.py:107 | `lstrip` keeps a suffix of its input |
| Text.SplitOn | src/sd_recovery/core/device.py:103 | a split has at least one part and no part holds the separator |
| Text.SplitJoin | src/sd_recovery/core/device.py:103 | joining a split's parts with the separator gives the string back |
| Text.ReplaceAbsent | src/sd_recovery/core/device.py:133 | replacing a pattern a string does not contain changes nothing |
| Text.StripPadded | src/sd_recovery/core/recovery.py:185 | `strip` gives back a word surrounded by whitespace |
| Text.StripBlank | src/sd_recovery/core/recovery.py:185 | a blank string strips to nothing |
| Text.Decimal | src/sd_recovery/core/organizer.py:119 | `str(n)` is a non-empty numeral whose value is n |
| Text.ZeroPad | src/sd_recovery/core/organizer.py:119 | zero-padding to a width keeps the value and gives the longer of the width and the numeral |

## Left out

- Running `diskutil`, PhotoRec and `shutil.which`, and the image library's decoding, become inputs (captured output, an abstract `Decoded` outcome). So do the filesystem's `exists`, `stat`, copy, `mkdtemp`, `mkdir`, `symlink` and `rmtree`.
- Copying is modelled as recording which source a name holds. File contents are not modelled.
- A symlink that fails to be created is not modelled: the model always links a name that is free. The code swallows that failure.
- `get_all_devices`, `format_device_info`, `format_size` and `size_human` are left out: they enumerate devices or build display strings. CSV cells for human sizes stay symbolic (`HumanSize`).
- `unmount_device` and `mount_device` are modelled by their outcome only. The unmount either succeeds or raises a mount error; a failed remount is caught by `_cleanup`.
- The confirmation banner, progress printing, the progress callback's filter and logging are left out: they are output only.
- `check_version`, like `_find_photorec`, has no caller in the session. It is modelled on its own (`PhotoRec.CheckVersion`).
- `cleanup_source` and `PhotoRecResult.__str__` are left out: the workflow does not call them.
- JSON, CSV and text serialisation of the reports are left out. So are the dates they carry and the sorting of camera names when printed. The reports are modelled as the values written (`Manifest`, rows of `Cell`, `Summary`).
- The temporary directory's name and the timestamped default output directory are left out. `Recover` takes an output directory and `mkdtemp`'s directory is an input.
- Directory listings are taken in the order given. The sort of `sorted(glob('recup_dir.*'))` and the order `glob` returns files in within a directory are not modelled.
- Device.ParseSize: `float()` followed by `int()` is modelled as the exact decimal value truncated to whole bytes. A numeral `float()` refuses (two dots, a lone dot) gives None, which `get_device_info` turns into DeviceNotFound. Binary floating-point rounding is not modelled: above 2^53 `float()` rounds an integral numeral, so `Device.ParseSizeRoundTrip` matches Python only for n below 2^53.
- String handling is ASCII only: `str.isspace`, `str.lower`, `\d`, `\s` and `re.IGNORECASE` are not extended to other Unicode characters.
- Paths are strings: `pathlib` normalisation (repeated or trailing slashes, `.` components) is not modelled.
- Recovery.RecoverySession.OrganizeOutput: `organizerReady` stands for the organizer's `mkdir` calls succeeding. The organizer is modelled over fresh, empty directories.
- Recovery.RecoverySession.OrganizeOutput: a failure writing the manifest, the CSV or the summary (`src/sd_recovery/core/organizer.py:204`, `:217`, `:269`) after the files are copied is not modelled. Organizing either fails before any file is copied or completes.
- A Ctrl-C is modelled at the start of a step only. An interrupt inside a step, after some of its effects, is not modelled.
- Recovery.RecoverySession.Run covers one call of `run` on a fresh session.
- Recovery.RecoverySession.QueryInfo records the device query whether or not `diskutil` succeeded. The effects of a failed query are not distinguished.
- The session's image flag is computed once, from the suffix, at construction. The code recomputes it in `_validate_device`, to the same value.
- PhotoRec.CheckVersion: any failure of the `/version` run, not only `CalledProcessError`, is modelled as PhotoRecExecution.
- PhotoRec.Execute: the output directory is created by `build_command` outside the `try`, so its failure escapes as an OS error. The model reports it as `OutputDirUnavailable`.
- Concurrency, signals other than Ctrl-C, and PhotoRec's own recovery algorithm are outside the core.
