/**
 * src/sd_recovery/core/organizer.py: copying recovered files into a flat,
 * sequentially named image directory, validating them, linking each into
 * `validation/valid` or `validation/suspicious`, and the three reports. The
 * filesystem is modelled as maps: the image directory maps a file name to
 * the source it was copied from, a link directory maps a link name to its
 * target. The source files are a map from path to what reading them gives.
 */
module Organizer {
  import opened Wrappers
  import opened Text
  import opened Validation

  /** `RecoveredFile`. */
  datatype RecoveredFile = RecoveredFile(
    originalPath: string,
    newPath: string,
    newFilename: string,
    isValid: bool,
    isSuspicious: bool,
    sizeBytes: nat,
    width: Option<nat>,
    height: Option<nat>,
    hasExif: bool,
    cameraMake: Option<string>,
    cameraModel: Option<string>,
    datetime: Option<string>)

  /** A readable source file: its size as `stat` reports it on the copy (None when that raises) and how it decodes. */
  datatype SourceFile = SourceFile(size: Option<nat>, decoded: Decoded)

  // ------------------------------------------------------------------ naming

  /** `f"image_{index:05d}.jpg"`. */
  function ImageName(index: nat): string {
    "image_" + ZeroPad(Decimal(index), 5) + ".jpg"
  }

  /** Distinct positions get distinct names, however many files there are. */
  lemma ImageNameInjective(i: nat, j: nat)
    requires ImageName(i) == ImageName(j)
    ensures i == j
  {
    var zi, zj := ZeroPad(Decimal(i), 5), ZeroPad(Decimal(j), 5);
    var ni, nj := ImageName(i), ImageName(j);
    assert ni[6..|ni| - 4] == zi;
    assert nj[6..|nj| - 4] == zj;
    assert DigitsValue(zi) == i && DigitsValue(zj) == j;
  }

  // ----------------------------------------------------------- one file

  /** What `_process_file` does with one file: the copy fails, `stat` on the copy raises, or a record. */
  datatype Outcome = CopyFailed | StatFailed | Recorded(rec: RecoveredFile)

  /** Valid and not suspicious: the record is linked under `valid`, otherwise under `suspicious`. */
  predicate IsGood(r: RecoveredFile) {
    r.isValid && !r.isSuspicious
  }

  /**
   * The record for a file copied to position `index`. Without validation it
   * is neither valid nor suspicious; with it, suspicion is judged only when
   * the validator returned metadata, and the metadata fills the optional
   * fields.
   */
  function RecordOf(imagesDir: string, source: string, index: nat, size: nat, decoded: Decoded,
                    validate: bool): RecoveredFile
  {
    var name := ImageName(index);
    var checked := if validate then ValidateJpeg(decoded, Some(size)) else (false, None);
    var base := RecoveredFile(source, PathJoin(imagesDir, name), name, checked.0,
                              checked.1.Some? && IsSuspicious(checked.1), size,
                              None, None, false, None, None, None);
    match checked.1
    case None => base
    case Some(m) =>
      base.(width := Some(m.width), height := Some(m.height), hasExif := m.hasExif,
            cameraMake := m.cameraMake, cameraModel := m.cameraModel, datetime := m.datetime)
  }

  /**
   * The record's name and path follow its position; validation decides
   * validity, suspicion needs validity, and a valid record carries the
   * validator's metadata.
   */
  lemma RecordOfFields(imagesDir: string, source: string, index: nat, size: nat, decoded: Decoded, validate: bool)
    ensures var r := RecordOf(imagesDir, source, index, size, decoded, validate);
      && r.newFilename == ImageName(index) && r.newPath == PathJoin(imagesDir, ImageName(index))
      && r.originalPath == source && r.sizeBytes == size
      && (!validate ==> !r.isValid && !r.isSuspicious && !r.hasExif && r.width.None?)
      && (validate ==> r.isValid == ValidateJpeg(decoded, Some(size)).0)
      && (r.isSuspicious ==> r.isValid)
      && (r.isValid ==>
            var m := ValidateJpeg(decoded, Some(size)).1.value;
            && r.isSuspicious == IsSuspicious(Some(m))
            && r.width == Some(m.width) && r.height == Some(m.height) && r.hasExif == m.hasExif
            && r.cameraMake == m.cameraMake && r.cameraModel == m.cameraModel && r.datetime == m.datetime)
  {
  }

  /** What processing the source at 1-based position `index` yields. */
  function OutcomeOf(imagesDir: string, source: string, index: nat, disk: map<string, SourceFile>,
                     validate: bool): Outcome
  {
    if source !in disk then CopyFailed
    else if disk[source].size.None? then StatFailed
    else Recorded(RecordOf(imagesDir, source, index, disk[source].size.value, disk[source].decoded, validate))
  }

  /** A 640x480 JPEG of at least 1 KiB, validated, is valid, not suspicious and keeps its dimensions. */
  lemma ClearPhotoIsValid(imagesDir: string, source: string, index: nat, size: nat, exif: ExifRead)
    requires size >= 1024
    ensures var r := RecordOf(imagesDir, source, index, size, Opened("JPEG", 640, 480, "RGB", exif, true), true);
      r.isValid && !r.isSuspicious && r.width == Some(640) && r.height == Some(480)
  {
    RecordOfFields(imagesDir, source, index, size, Opened("JPEG", 640, 480, "RGB", exif, true), true);
  }

  // ------------------------------------------------------------- the batch

  /** What processing each source of a batch yields; the i-th source is processed at position i + 1. */
  function Outcomes(imagesDir: string, sources: seq<string>, disk: map<string, SourceFile>,
                    validate: bool): (os: seq<Outcome>)
    ensures |os| == |sources|
  {
    seq(|sources|, i requires 0 <= i < |sources| => OutcomeOf(imagesDir, sources[i], i + 1, disk, validate))
  }

  /** The records among a sequence of outcomes, in order. */
  function RecordsOf(os: seq<Outcome>): (rs: seq<RecoveredFile>)
    ensures |rs| <= |os|
    decreases |os|
  {
    if os == [] then []
    else
      var earlier := RecordsOf(os[..|os| - 1]);
      match os[|os| - 1]
      case Recorded(r) => earlier + [r]
      case _ => earlier
  }

  /** The records `organize` keeps from a batch. */
  function Records(imagesDir: string, sources: seq<string>, disk: map<string, SourceFile>,
                   validate: bool): seq<RecoveredFile>
  {
    RecordsOf(Outcomes(imagesDir, sources, disk, validate))
  }

  /** The positions whose outcome is a record, in increasing order. */
  function KeptOf(os: seq<Outcome>): (ps: seq<nat>)
    ensures forall k | 0 <= k < |ps| :: ps[k] < |os|
    decreases |os|
  {
    if os == [] then []
    else
      var earlier := KeptOf(os[..|os| - 1]);
      if os[|os| - 1].Recorded? then earlier + [|os| - 1] else earlier
  }

  /** The k-th record is the record of the k-th kept position. */
  lemma {:induction false} RecordsAtKept(os: seq<Outcome>)
    ensures |RecordsOf(os)| == |KeptOf(os)|
    ensures forall k | 0 <= k < |KeptOf(os)| :: os[KeptOf(os)[k]] == Recorded(RecordsOf(os)[k])
    decreases |os|
  {
    if os != [] {
      var init := os[..|os| - 1];
      RecordsAtKept(init);
      assert forall i | 0 <= i < |init| :: os[i] == init[i];
    }
  }

  /** Kept positions strictly increase. */
  lemma {:induction false} KeptIncreasing(os: seq<Outcome>)
    ensures forall k, l | 0 <= k < l < |KeptOf(os)| :: KeptOf(os)[k] < KeptOf(os)[l]
    decreases |os|
  {
    if os != [] {
      KeptIncreasing(os[..|os| - 1]);
    }
  }

  /** A position is kept exactly when its outcome is a record. */
  lemma {:induction false} KeptExactly(os: seq<Outcome>)
    ensures forall i | 0 <= i < |os| :: os[i].Recorded? <==> i in KeptOf(os)
    decreases |os|
  {
    if os != [] {
      var init := os[..|os| - 1];
      KeptExactly(init);
      assert forall i | 0 <= i < |init| :: os[i] == init[i];
    }
  }

  /**
   * The records are the outcomes in order minus the failures: the k-th
   * record comes from the k-th kept position, kept positions increase, and a
   * position is kept exactly when its outcome is a record.
   */
  lemma RecordsArePositional(os: seq<Outcome>)
    ensures var rs, ps := RecordsOf(os), KeptOf(os);
      && |rs| == |ps|
      && (forall k | 0 <= k < |ps| :: os[ps[k]] == Recorded(rs[k]))
      && (forall k, l | 0 <= k < l < |ps| :: ps[k] < ps[l])
      && (forall i | 0 <= i < |os| :: os[i].Recorded? <==> i in ps)
  {
    RecordsAtKept(os);
    KeptIncreasing(os);
    KeptExactly(os);
  }

  /** Every record comes from some outcome. */
  lemma RecordsComeFromOutcomes(os: seq<Outcome>)
    ensures forall r | r in RecordsOf(os) :: Recorded(r) in os
  {
    RecordsArePositional(os);
    var rs, ps := RecordsOf(os), KeptOf(os);
    forall r | r in rs ensures Recorded(r) in os {
      var k :| 0 <= k < |rs| && rs[k] == r;
      assert os[ps[k]] == Recorded(r);
    }
  }

  /**
   * A record produced at position `index` carries that position's name and
   * source; it is suspicious only if valid, and neither without validation.
   */
  lemma OutcomeNamed(imagesDir: string, sources: seq<string>, disk: map<string, SourceFile>, validate: bool)
    ensures var os := Outcomes(imagesDir, sources, disk, validate);
      forall i | 0 <= i < |os| && os[i].Recorded? ::
        && os[i].rec.newFilename == ImageName(i + 1) && os[i].rec.originalPath == sources[i]
        && (os[i].rec.isSuspicious ==> os[i].rec.isValid)
        && (!validate ==> !os[i].rec.isValid && !os[i].rec.isSuspicious)
  {
    var os := Outcomes(imagesDir, sources, disk, validate);
    forall i | 0 <= i < |os| && os[i].Recorded?
      ensures os[i].rec.newFilename == ImageName(i + 1) && os[i].rec.originalPath == sources[i]
      ensures os[i].rec.isSuspicious ==> os[i].rec.isValid
      ensures !validate ==> !os[i].rec.isValid && !os[i].rec.isSuspicious
    {
      var f := disk[sources[i]];
      RecordOfFields(imagesDir, sources[i], i + 1, f.size.value, f.decoded, validate);
    }
  }

  /** When no outcome is a failure there is one record per outcome, in order. */
  lemma {:induction false} AllRecorded(os: seq<Outcome>)
    requires forall i | 0 <= i < |os| :: os[i].Recorded?
    ensures |RecordsOf(os)| == |os| && forall k | 0 <= k < |os| :: RecordsOf(os)[k] == os[k].rec
    decreases |os|
  {
    if os != [] {
      var init := os[..|os| - 1];
      AllRecorded(init);
      assert forall k | 0 <= k < |init| :: init[k] == os[k];
    }
  }

  /** When every copy and `stat` succeeds the names run image_00001.jpg, image_00002.jpg, ... without gaps. */
  lemma SequentialWhenAllSucceed(imagesDir: string, sources: seq<string>, disk: map<string, SourceFile>,
                                 validate: bool)
    requires forall i | 0 <= i < |sources| :: sources[i] in disk && disk[sources[i]].size.Some?
    ensures var rs := Records(imagesDir, sources, disk, validate);
      |rs| == |sources| && forall k | 0 <= k < |rs| :: rs[k].newFilename == ImageName(k + 1)
  {
    var os := Outcomes(imagesDir, sources, disk, validate);
    OutcomeNamed(imagesDir, sources, disk, validate);
    AllRecorded(os);
  }

  /** With validation off no record is valid or suspicious. */
  lemma UnvalidatedRecordsAreNeutral(imagesDir: string, sources: seq<string>, disk: map<string, SourceFile>)
    ensures forall r | r in Records(imagesDir, sources, disk, false) :: !r.isValid && !r.isSuspicious
  {
    var os := Outcomes(imagesDir, sources, disk, false);
    RecordsComeFromOutcomes(os);
    OutcomeNamed(imagesDir, sources, disk, false);
    forall r | r in RecordsOf(os) ensures !r.isValid && !r.isSuspicious {
      var i :| 0 <= i < |os| && os[i] == Recorded(r);
    }
  }

  /** A suspicious record is always a valid one: suspicion is judged only on metadata, which only valid files have. */
  lemma SuspiciousRecordsAreValid(imagesDir: string, sources: seq<string>, disk: map<string, SourceFile>,
                                  validate: bool)
    ensures forall r | r in Records(imagesDir, sources, disk, validate) :: r.isSuspicious ==> r.isValid
  {
    var os := Outcomes(imagesDir, sources, disk, validate);
    RecordsComeFromOutcomes(os);
    OutcomeNamed(imagesDir, sources, disk, validate);
    forall r | r in RecordsOf(os) ensures r.isSuspicious ==> r.isValid {
      var i :| 0 <= i < |os| && os[i] == Recorded(r);
    }
  }

  /** Two records of a batch, at different places in the record list, have different names. */
  lemma RecordNamesDiffer(imagesDir: string, sources: seq<string>, disk: map<string, SourceFile>,
                          validate: bool, k: nat, l: nat)
    requires k < l < |Records(imagesDir, sources, disk, validate)|
    ensures var rs := Records(imagesDir, sources, disk, validate);
      rs[k].newFilename != rs[l].newFilename
  {
    var os := Outcomes(imagesDir, sources, disk, validate);
    RecordsArePositional(os);
    OutcomeNamed(imagesDir, sources, disk, validate);
    var rs, ps := RecordsOf(os), KeptOf(os);
    assert os[ps[k]] == Recorded(rs[k]) && os[ps[l]] == Recorded(rs[l]);
    assert ps[k] < ps[l];
    if ImageName(ps[k] + 1) == ImageName(ps[l] + 1) {
      ImageNameInjective(ps[k] + 1, ps[l] + 1);
    }
  }

  /** Record names are pairwise distinct, so no record's link can shadow another's. */
  lemma DistinctRecordNames(imagesDir: string, sources: seq<string>, disk: map<string, SourceFile>,
                            validate: bool)
    ensures var rs := Records(imagesDir, sources, disk, validate);
      forall k, l | 0 <= k < l < |rs| :: rs[k].newFilename != rs[l].newFilename
  {
    var rs := Records(imagesDir, sources, disk, validate);
    forall k, l | 0 <= k < l < |rs| ensures rs[k].newFilename != rs[l].newFilename {
      RecordNamesDiffer(imagesDir, sources, disk, validate, k, l);
    }
  }

  // ------------------------------------------------------ directory contents

  /** The image directory after copying a batch: each readable source lands under its position's name. */
  function Images(base: map<string, string>, sources: seq<string>, disk: map<string, SourceFile>): map<string, string>
    decreases |sources|
  {
    if sources == [] then base
    else
      var n := |sources|;
      var earlier := Images(base, sources[..n - 1], disk);
      if sources[n - 1] in disk then earlier[ImageName(n) := sources[n - 1]] else earlier
  }

  /** After a batch, the readable source at position `i` is in the image directory under that position's name. */
  lemma {:induction false} ImagesHoldSource(base: map<string, string>, sources: seq<string>,
                                            disk: map<string, SourceFile>, i: nat)
    requires i < |sources| && sources[i] in disk
    ensures ImageName(i + 1) in Images(base, sources, disk)
    ensures Images(base, sources, disk)[ImageName(i + 1)] == sources[i]
    decreases |sources|
  {
    var n := |sources|;
    if i < n - 1 {
      var init := sources[..n - 1];
      assert init[i] == sources[i];
      ImagesHoldSource(base, init, disk, i);
      if ImageName(i + 1) == ImageName(n) {
        ImageNameInjective(i + 1, n);
      }
    }
  }

  /** After a batch, every readable source is in the image directory under its position's name. */
  lemma ImagesHoldSources(base: map<string, string>, sources: seq<string>, disk: map<string, SourceFile>)
    ensures forall i | 0 <= i < |sources| && sources[i] in disk ::
      ImageName(i + 1) in Images(base, sources, disk) && Images(base, sources, disk)[ImageName(i + 1)] == sources[i]
  {
    forall i | 0 <= i < |sources| && sources[i] in disk
      ensures ImageName(i + 1) in Images(base, sources, disk) && Images(base, sources, disk)[ImageName(i + 1)] == sources[i]
    {
      ImagesHoldSource(base, sources, disk, i);
    }
  }

  /** A name no position of the batch uses keeps what it held before. */
  lemma {:induction false} ImagesKeepOthers(base: map<string, string>, sources: seq<string>,
                                            disk: map<string, SourceFile>)
    ensures forall name | name in base && name !in BatchNames(|sources|) ::
      name in Images(base, sources, disk) && Images(base, sources, disk)[name] == base[name]
    decreases |sources|
  {
    if sources != [] {
      ImagesKeepOthers(base, sources[..|sources| - 1], disk);
    }
  }

  /**
   * After a batch, every readable source is in the image directory under its
   * position's name, and a name no position of the batch uses keeps what it
   * held before.
   */
  lemma ImagesHoldCopies(base: map<string, string>, sources: seq<string>, disk: map<string, SourceFile>)
    ensures forall i | 0 <= i < |sources| && sources[i] in disk ::
      ImageName(i + 1) in Images(base, sources, disk) && Images(base, sources, disk)[ImageName(i + 1)] == sources[i]
    ensures forall name | name in base && name !in BatchNames(|sources|) ::
      name in Images(base, sources, disk) && Images(base, sources, disk)[name] == base[name]
  {
    ImagesHoldSources(base, sources, disk);
    ImagesKeepOthers(base, sources, disk);
  }

  /** The names a batch of `n` files can use: image_00001.jpg up to the n-th. */
  function BatchNames(n: nat): set<string> {
    set i | 1 <= i <= n :: ImageName(i)
  }

  /** A link is made only under a name not already present. */
  function AddLink(links: map<string, string>, name: string, target: string): map<string, string> {
    if name in links then links else links[name := target]
  }

  /** A link directory after linking the records of one category. */
  function Links(base: map<string, string>, records: seq<RecoveredFile>, good: bool): map<string, string>
    decreases |records|
  {
    if records == [] then base
    else
      var r := records[|records| - 1];
      var earlier := Links(base, records[..|records| - 1], good);
      if IsGood(r) == good then AddLink(earlier, r.newFilename, r.newPath) else earlier
  }

  /** A link directory after the outcome of one file: its link, if it was recorded in this category. */
  function Linked(links: map<string, string>, o: Outcome, good: bool): map<string, string> {
    if o.Recorded? && IsGood(o.rec) == good then AddLink(links, o.rec.newFilename, o.rec.newPath) else links
  }

  /** One more outcome adds its record, if any, to the records so far, and its link to its category. */
  lemma OutcomeSnoc(os: seq<Outcome>, i: nat, base: map<string, string>, good: bool)
    requires i < |os|
    ensures RecordsOf(os[..i + 1]) == RecordsOf(os[..i]) + (if os[i].Recorded? then [os[i].rec] else [])
    ensures Links(base, RecordsOf(os[..i + 1]), good) == Linked(Links(base, RecordsOf(os[..i]), good), os[i], good)
  {
    assert os[..i + 1][..i] == os[..i];
    if os[i].Recorded? {
      var rs := RecordsOf(os[..i]) + [os[i].rec];
      assert rs[..|rs| - 1] == RecordsOf(os[..i]);
    }
  }

  /** One more source copies into the image map under its position's name, if it is on the disk. */
  lemma ImagesSnoc(base: map<string, string>, sources: seq<string>, i: nat, disk: map<string, SourceFile>)
    requires i < |sources|
    ensures Images(base, sources[..i + 1], disk)
      == if sources[i] in disk then Images(base, sources[..i], disk)[ImageName(i + 1) := sources[i]]
         else Images(base, sources[..i], disk)
  {
    assert sources[..i + 1][..i] == sources[..i];
  }


  /** Links already present are never replaced. */
  lemma {:induction false} LinksKeepBase(base: map<string, string>, records: seq<RecoveredFile>, good: bool)
    ensures forall name | name in base :: name in Links(base, records, good) && Links(base, records, good)[name] == base[name]
    decreases |records|
  {
    if records != [] {
      LinksKeepBase(base, records[..|records| - 1], good);
    }
  }

  /** Every link is one that was there before or the link of a record of this category. */
  lemma {:induction false} LinksComeFromRecords(base: map<string, string>, records: seq<RecoveredFile>, good: bool)
    ensures forall name | name in Links(base, records, good) ::
      name in base || exists r | r in records :: r.newFilename == name && IsGood(r) == good
    decreases |records|
  {
    if records != [] {
      var init := records[..|records| - 1];
      LinksComeFromRecords(base, init, good);
      assert records == init + [records[|records| - 1]];
    }
  }

  /** The last of pairwise differently named records is named unlike every earlier one, and the rest stay distinct. */
  lemma LastNameIsNew(records: seq<RecoveredFile>)
    requires records != []
    requires forall k, l | 0 <= k < l < |records| :: records[k].newFilename != records[l].newFilename
    ensures forall x | x in records[..|records| - 1] :: x.newFilename != records[|records| - 1].newFilename
    ensures forall x | x in records :: x in records[..|records| - 1] || x == records[|records| - 1]
  {
    var last := |records| - 1;
    var init := records[..last];
    forall x | x in init ensures x.newFilename != records[last].newFilename {
      var k :| 0 <= k < |init| && init[k] == x;
      assert records[k] == x;
    }
    forall x | x in records ensures x in init || x == records[last] {
      var k :| 0 <= k < |records| && records[k] == x;
      if k < last {
        assert init[k] == x;
      }
    }
  }

  /** A new name gets a link exactly when its record is of this category, and the link points at the record's copy. */
  lemma {:induction false} LinksOfNewNames(base: map<string, string>, records: seq<RecoveredFile>, good: bool)
    requires forall k, l | 0 <= k < l < |records| :: records[k].newFilename != records[l].newFilename
    ensures forall r | r in records && r.newFilename !in base ::
      (r.newFilename in Links(base, records, good) <==> IsGood(r) == good)
    ensures forall r | r in records && r.newFilename !in base && IsGood(r) == good ::
      Links(base, records, good)[r.newFilename] == r.newPath
    decreases |records|
  {
    if records != [] {
      var init := records[..|records| - 1];
      LinksOfNewNames(base, init, good);
      LinksComeFromRecords(base, init, good);
      LastNameIsNew(records);
    }
  }

  /**
   * Each record is linked in exactly one directory: in the valid one iff it
   * is valid and not suspicious, in the suspicious one otherwise; links
   * that were already there are left untouched and nothing else appears.
   */
  lemma OneLinkPerRecord(base: map<string, string>, records: seq<RecoveredFile>, good: bool)
    requires forall k, l | 0 <= k < l < |records| :: records[k].newFilename != records[l].newFilename
    ensures forall name | name in base :: name in Links(base, records, good) && Links(base, records, good)[name] == base[name]
    ensures forall r | r in records && r.newFilename !in base ::
      (r.newFilename in Links(base, records, good) <==> IsGood(r) == good)
    ensures forall r | r in records && r.newFilename !in base && IsGood(r) == good ::
      Links(base, records, good)[r.newFilename] == r.newPath
    ensures forall name | name in Links(base, records, good) ::
      name in base || exists r | r in records :: r.newFilename == name && IsGood(r) == good
  {
    LinksKeepBase(base, records, good);
    LinksOfNewNames(base, records, good);
    LinksComeFromRecords(base, records, good);
  }

  // ----------------------------------------------------------------- reports

  /** How many records satisfy `p`. */
  function CountWhere(records: seq<RecoveredFile>, p: RecoveredFile -> bool): (n: nat)
    ensures n <= |records|
    decreases |records|
  {
    if records == [] then 0
    else CountWhere(records[..|records| - 1], p) + if p(records[|records| - 1]) then 1 else 0
  }

  /** Counts of a property and of its negation add up to the total. */
  lemma {:induction false} CountComplement(records: seq<RecoveredFile>, p: RecoveredFile -> bool,
                                          q: RecoveredFile -> bool)
    requires forall r :: q(r) == !p(r)
    ensures CountWhere(records, p) + CountWhere(records, q) == |records|
    decreases |records|
  {
    if records != [] {
      CountComplement(records[..|records| - 1], p, q);
    }
  }

  /** A property implied by another is counted at least as often. */
  lemma {:induction false} CountMonotone(records: seq<RecoveredFile>, p: RecoveredFile -> bool,
                                        q: RecoveredFile -> bool)
    requires forall r | r in records :: p(r) ==> q(r)
    ensures CountWhere(records, p) <= CountWhere(records, q)
    decreases |records|
  {
    if records != [] {
      assert forall r | r in records[..|records| - 1] :: r in records;
      CountMonotone(records[..|records| - 1], p, q);
    }
  }

  predicate IsValidRecord(r: RecoveredFile) { r.isValid }
  predicate IsSuspiciousRecord(r: RecoveredFile) { r.isSuspicious }
  predicate IsInvalidRecord(r: RecoveredFile) { !r.isValid }
  predicate HasExifRecord(r: RecoveredFile) { r.hasExif }

  /** `manifest.json` without its date. */
  datatype Manifest = Manifest(totalFiles: nat, validFiles: nat, suspiciousFiles: nat, files: seq<RecoveredFile>)

  function ManifestOf(records: seq<RecoveredFile>): (m: Manifest)
    ensures m.totalFiles == |records| && m.files == records
    ensures m.validFiles <= m.totalFiles && m.suspiciousFiles <= m.totalFiles
  {
    Manifest(|records|, CountWhere(records, IsValidRecord), CountWhere(records, IsSuspiciousRecord), records)
  }

  /** In the manifest of an organized batch the suspicious files are among the valid ones. */
  lemma ManifestSuspiciousAmongValid(imagesDir: string, sources: seq<string>, disk: map<string, SourceFile>,
                                     validate: bool)
    ensures var m := ManifestOf(Records(imagesDir, sources, disk, validate));
      m.suspiciousFiles <= m.validFiles
  {
    var rs := Records(imagesDir, sources, disk, validate);
    SuspiciousRecordsAreValid(imagesDir, sources, disk, validate);
    CountMonotone(rs, IsSuspiciousRecord, IsValidRecord);
  }

  /** A CSV cell; `HumanSize(n)` stands for `format_size(n)`. */
  datatype Cell = Text(text: string) | Int(value: int) | Bool(flag: bool) | HumanSize(bytes: nat)

  const Header: seq<Cell> := [
    Text("filename"), Text("size_bytes"), Text("size_human"), Text("is_valid"),
    Text("is_suspicious"), Text("width"), Text("height"), Text("has_exif"),
    Text("camera_make"), Text("camera_model"), Text("datetime"), Text("path")]

  /** `value or ''` for an optional dimension: absent and 0 both print as empty. */
  function DimensionCell(d: Option<nat>): Cell {
    if d.Some? && d.value != 0 then Int(d.value) else Text("")
  }

  /** `value or ''` for an optional string. */
  function TextCell(s: Option<string>): Cell {
    if s.Some? then Text(s.value) else Text("")
  }

  /** The data row of one record, column for column under the header. */
  function Row(r: RecoveredFile): (row: seq<Cell>)
    ensures |row| == |Header| == 12
    ensures row[0] == Text(r.newFilename) && row[1] == Int(r.sizeBytes) && row[11] == Text(r.newPath)
    ensures row[3] == Bool(r.isValid) && row[4] == Bool(r.isSuspicious) && row[7] == Bool(r.hasExif)
  {
    [Text(r.newFilename), Int(r.sizeBytes), HumanSize(r.sizeBytes), Bool(r.isValid),
     Bool(r.isSuspicious), DimensionCell(r.width), DimensionCell(r.height), Bool(r.hasExif),
     TextCell(r.cameraMake), TextCell(r.cameraModel), TextCell(r.datetime), Text(r.newPath)]
  }

  /** The camera a record counts for: EXIF present and both make and model non-empty. */
  function CameraKey(r: RecoveredFile): (key: Option<string>)
    ensures key.Some? <==> r.hasExif && r.cameraMake.Some? && r.cameraMake.value != ""
                            && r.cameraModel.Some? && r.cameraModel.value != ""
    ensures key.Some? ==> key.value == r.cameraMake.value + " " + r.cameraModel.value
  {
    if r.hasExif && r.cameraMake.Some? && r.cameraMake.value != "" && r.cameraModel.Some? && r.cameraModel.value != ""
    then Some(r.cameraMake.value + " " + r.cameraModel.value)
    else None
  }

  predicate HasCamera(r: RecoveredFile) { CameraKey(r).Some? }

  /** The camera dictionary of the summary: how many records count for each camera. */
  function CameraTally(records: seq<RecoveredFile>): map<string, nat>
    decreases |records|
  {
    if records == [] then map[]
    else
      var m := CameraTally(records[..|records| - 1]);
      match CameraKey(records[|records| - 1])
      case None => m
      case Some(c) => m[c := (if c in m then m[c] else 0) + 1]
  }

  /** The sum of a dictionary's counts. */
  ghost function MapTotal(m: map<string, nat>): nat
    decreases |m.Keys|
  {
    if m == map[] then 0
    else
      var k :| k in m;
      assert (m - {k}).Keys == m.Keys - {k};
      m[k] + MapTotal(m - {k})
  }

  /** The total does not depend on which key is taken first. */
  lemma {:induction false} MapTotalRemove(m: map<string, nat>, k: string)
    requires k in m
    ensures MapTotal(m) == m[k] + MapTotal(m - {k})
    decreases |m.Keys|
  {
    var j :| j in m && MapTotal(m) == m[j] + MapTotal(m - {j});
    if j != k {
      assert (m - {j}).Keys == m.Keys - {j};
      assert (m - {k}).Keys == m.Keys - {k};
      MapTotalRemove(m - {j}, k);
      MapTotalRemove(m - {k}, j);
      assert (m - {j}) - {k} == (m - {k}) - {j};
    }
  }

  /** Counting one more image for a camera raises the total by one. */
  lemma MapTotalBump(m: map<string, nat>, c: string)
    ensures MapTotal(m[c := (if c in m then m[c] else 0) + 1]) == MapTotal(m) + 1
  {
    var m' := m[c := (if c in m then m[c] else 0) + 1];
    MapTotalRemove(m', c);
    assert m' - {c} == m - {c};
    if c in m {
      MapTotalRemove(m, c);
    } else {
      assert m - {c} == m;
    }
  }

  /** The camera counts add up to the records with a camera, hence to at most the EXIF files. */
  lemma {:induction false} CameraTallyTotal(records: seq<RecoveredFile>)
    ensures MapTotal(CameraTally(records)) == CountWhere(records, HasCamera)
    ensures MapTotal(CameraTally(records)) <= CountWhere(records, HasExifRecord)
    decreases |records|
  {
    if records != [] {
      var init := records[..|records| - 1];
      CameraTallyTotal(init);
      var key := CameraKey(records[|records| - 1]);
      if key.Some? {
        MapTotalBump(CameraTally(init), key.value);
      }
    }
    CountMonotone(records, HasCamera, HasExifRecord);
  }

  /** The statistics of `recovery_log.txt`. */
  datatype Summary = Summary(
    totalFiles: nat, validFiles: nat, suspiciousFiles: nat, invalidFiles: nat,
    totalSize: nat, exifFiles: nat, cameras: map<string, nat>)

  function TotalSize(records: seq<RecoveredFile>): nat
    decreases |records|
  {
    if records == [] then 0 else TotalSize(records[..|records| - 1]) + records[|records| - 1].sizeBytes
  }

  /** The summary's counts: valid and invalid partition the total, and the camera counts fit in the EXIF files. */
  function SummaryOf(records: seq<RecoveredFile>): (s: Summary)
    ensures s.totalFiles == |records|
    ensures s.validFiles + s.invalidFiles == s.totalFiles
    ensures s.validFiles == CountWhere(records, IsValidRecord)
    ensures s.suspiciousFiles == CountWhere(records, IsSuspiciousRecord)
    ensures s.exifFiles == CountWhere(records, HasExifRecord)
    ensures MapTotal(s.cameras) <= s.exifFiles
  {
    CountComplement(records, IsValidRecord, IsInvalidRecord);
    CameraTallyTotal(records);
    Summary(|records|, CountWhere(records, IsValidRecord), CountWhere(records, IsSuspiciousRecord),
            CountWhere(records, IsInvalidRecord), TotalSize(records), CountWhere(records, HasExifRecord),
            CameraTally(records))
  }

  /** The camera loop of `_generate_summary`. */
  method CountCameras(records: seq<RecoveredFile>) returns (cameras: map<string, nat>)
    ensures cameras == CameraTally(records)
  {
    cameras := map[];
    for i := 0 to |records|
      invariant cameras == CameraTally(records[..i])
    {
      assert records[..i + 1][..i] == records[..i];
      var key := CameraKey(records[i]);
      if key.Some? {
        cameras := cameras[key.value := (if key.value in cameras then cameras[key.value] else 0) + 1];
      }
    }
    assert records[..|records|] == records;
  }

  // ---------------------------------------------------------------- organizer

  /** `RecoveryOrganizer` over an output directory whose contents are the fields. */
  class RecoveryOrganizer {
    const outputBase: string
    const imagesDir: string
    /** `images/`: file name to the source it was copied from. */
    var images: map<string, string>
    /** `validation/valid/`: link name to target. */
    var validLinks: map<string, string>
    /** `validation/suspicious/`: link name to target. */
    var suspiciousLinks: map<string, string>
    /** `metadata/manifest.json`, `metadata/file_details.csv`, `metadata/recovery_log.txt`. */
    var manifest: Option<Manifest>
    var csv: seq<seq<Cell>>
    var summary: Option<Summary>

    /** The directories exist afterwards; whatever they already held stays. */
    constructor(outputBase: string, images: map<string, string>, validLinks: map<string, string>,
                suspiciousLinks: map<string, string>)
      ensures this.outputBase == outputBase && this.imagesDir == PathJoin(outputBase, "images")
      ensures this.images == images && this.validLinks == validLinks && this.suspiciousLinks == suspiciousLinks
      ensures manifest.None? && csv == [] && summary.None?
    {
      this.outputBase := outputBase;
      this.imagesDir := PathJoin(outputBase, "images");
      this.images := images;
      this.validLinks := validLinks;
      this.suspiciousLinks := suspiciousLinks;
      manifest := None;
      csv := [];
      summary := None;
    }

    /** `_create_symlinks`: one link, in the category's directory, unless the name is taken. */
    method CreateSymlinks(r: RecoveredFile)
      modifies this
      ensures IsGood(r) ==> validLinks == AddLink(old(validLinks), r.newFilename, r.newPath)
      ensures IsGood(r) ==> suspiciousLinks == old(suspiciousLinks)
      ensures !IsGood(r) ==> suspiciousLinks == AddLink(old(suspiciousLinks), r.newFilename, r.newPath)
      ensures !IsGood(r) ==> validLinks == old(validLinks)
      ensures images == old(images) && manifest == old(manifest) && csv == old(csv) && summary == old(summary)
    {
      if r.isValid && !r.isSuspicious {
        if r.newFilename !in validLinks {
          validLinks := validLinks[r.newFilename := r.newPath];
        }
      } else if r.isSuspicious || !r.isValid {
        if r.newFilename !in suspiciousLinks {
          suspiciousLinks := suspiciousLinks[r.newFilename := r.newPath];
        }
      }
    }

    /**
     * `_process_file` for the source at 1-based position `index`: copy under
     * the position's name, read the size, validate, fill the record from the
     * metadata, link it.
     */
    method ProcessFile(source: string, index: nat, disk: map<string, SourceFile>, validate: bool)
      returns (outcome: Outcome)
      modifies this
      ensures outcome == OutcomeOf(imagesDir, source, index, disk, validate)
      ensures images == if source in disk then old(images)[ImageName(index) := source] else old(images)
      ensures validLinks == Linked(old(validLinks), outcome, true)
      ensures suspiciousLinks == Linked(old(suspiciousLinks), outcome, false)
      ensures manifest == old(manifest) && csv == old(csv) && summary == old(summary)
    {
      var newFilename := ImageName(index);
      var newPath := PathJoin(imagesDir, newFilename);
      if source !in disk {
        return CopyFailed;
      }
      images := images[newFilename := source];
      if disk[source].size.None? {
        return StatFailed;
      }
      var sizeBytes := disk[source].size.value;
      var isValid := false;
      var isSuspicious := false;
      var metadata: Option<Metadata> := None;
      if validate {
        var checked := ValidateJpeg(disk[source].decoded, Some(sizeBytes));
        isValid, metadata := checked.0, checked.1;
        if metadata.Some? {
          isSuspicious := IsSuspicious(metadata);
        }
      }
      var recovered := RecoveredFile(source, newPath, newFilename, isValid, isSuspicious, sizeBytes,
                                     None, None, false, None, None, None);
      if metadata.Some? {
        var m := metadata.value;
        recovered := recovered.(width := Some(m.width), height := Some(m.height), hasExif := m.hasExif,
                                cameraMake := m.cameraMake, cameraModel := m.cameraModel, datetime := m.datetime);
      }
      CreateSymlinks(recovered);
      outcome := Recorded(recovered);
    }

    /** `_generate_csv`: the header, then one row per record in record order. */
    method GenerateCsv(records: seq<RecoveredFile>)
      modifies this
      ensures |csv| == |records| + 1 && csv[0] == Header
      ensures forall k | 0 <= k < |records| :: csv[k + 1] == Row(records[k])
      ensures images == old(images) && validLinks == old(validLinks) && suspiciousLinks == old(suspiciousLinks)
      ensures manifest == old(manifest) && summary == old(summary)
    {
      csv := [Header];
      for i := 0 to |records|
        invariant |csv| == i + 1 && csv[0] == Header
        invariant forall k | 0 <= k < i :: csv[k + 1] == Row(records[k])
        invariant images == old(images) && validLinks == old(validLinks) && suspiciousLinks == old(suspiciousLinks)
        invariant manifest == old(manifest) && summary == old(summary)
      {
        csv := csv + [Row(records[i])];
      }
    }

    /** `_generate_summary`. */
    method GenerateSummary(records: seq<RecoveredFile>)
      modifies this
      ensures summary == Some(SummaryOf(records))
      ensures images == old(images) && validLinks == old(validLinks) && suspiciousLinks == old(suspiciousLinks)
      ensures manifest == old(manifest) && csv == old(csv)
    {
      var cameras := CountCameras(records);
      summary := Some(Summary(|records|, CountWhere(records, IsValidRecord), CountWhere(records, IsSuspiciousRecord),
                              CountWhere(records, IsInvalidRecord), TotalSize(records),
                              CountWhere(records, HasExifRecord), cameras));
    }

    /** The loop of `organize`: each source in order, numbered from 1, keeping the records of the files processed. */
    method ProcessAll(sources: seq<string>, disk: map<string, SourceFile>, validate: bool)
      returns (records: seq<RecoveredFile>)
      modifies this
      ensures records == Records(imagesDir, sources, disk, validate)
      ensures images == Images(old(images), sources, disk)
      ensures validLinks == Links(old(validLinks), records, true)
      ensures suspiciousLinks == Links(old(suspiciousLinks), records, false)
      ensures manifest == old(manifest) && csv == old(csv) && summary == old(summary)
    {
      ghost var os := Outcomes(imagesDir, sources, disk, validate);
      records := [];
      for i := 0 to |sources|
        invariant records == RecordsOf(os[..i])
        invariant images == Images(old(images), sources[..i], disk)
        invariant validLinks == Links(old(validLinks), records, true)
        invariant suspiciousLinks == Links(old(suspiciousLinks), records, false)
        invariant manifest == old(manifest) && csv == old(csv) && summary == old(summary)
      {
        var outcome := ProcessFile(sources[i], i + 1, disk, validate);
        OutcomeSnoc(os, i, old(validLinks), true);
        OutcomeSnoc(os, i, old(suspiciousLinks), false);
        ImagesSnoc(old(images), sources, i, disk);
        if outcome.Recorded? {
          records := records + [outcome.rec];
        }
      }
      assert sources[..|sources|] == sources;
      assert os[..|os|] == os;
    }

    /**
     * `organize`: every source in order under its position's name, a failure
     * containing itself to its own file, then the three reports over the
     * records kept.
     */
    method Organize(sources: seq<string>, disk: map<string, SourceFile>, validate: bool)
      returns (records: seq<RecoveredFile>)
      modifies this
      ensures records == Records(imagesDir, sources, disk, validate)
      ensures images == Images(old(images), sources, disk)
      ensures validLinks == Links(old(validLinks), records, true)
      ensures suspiciousLinks == Links(old(suspiciousLinks), records, false)
      ensures manifest == Some(ManifestOf(records))
      ensures |csv| == |records| + 1 && csv[0] == Header
      ensures forall k | 0 <= k < |records| :: csv[k + 1] == Row(records[k])
      ensures summary == Some(SummaryOf(records))
    {
      records := ProcessAll(sources, disk, validate);
      manifest := Some(ManifestOf(records));
      GenerateCsv(records);
      GenerateSummary(records);
    }
  }
}
