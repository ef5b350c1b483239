/**
 * src/sd_recovery/core/device.py: the device record, the safety decision
 * table, the size parser and the part of `get_device_info` that turns the
 * text printed by `diskutil info` into a device record. Running `diskutil`
 * is replaced by its captured standard output (None when it failed).
 */
module Device {
  import opened Wrappers
  import opened Text
  import opened Errors

  /** `DeviceInfo` without `size_human`, which is only a display string. */
  datatype DeviceInfo = DeviceInfo(
    devicePath: string,
    rawDevicePath: string,
    sizeBytes: nat,
    filesystem: Option<string>,
    mountPoint: Option<string>,
    deviceNumber: int,
    isInternal: bool,
    isRemovable: bool,
    volumeName: Option<string>)

  const GiB: nat := 1024 * 1024 * 1024

  /** The default `max_size_gb` of `is_safe_device`. */
  const DefaultMaxSizeGb: int := 512

  /** Why a device was refused, one per rule of the decision table. */
  datatype UnsafeReason =
    | PrimaryDisk            // "appears to be an internal disk (disk0/disk1)"
    | MarkedInternal         // "is marked as internal"
    | TooLarge(maxSizeGb: int) // "is larger than <max>GB"
    | NotRemovable           // "is not marked as removable"

  /** The `(is_safe, reason)` pair. */
  datatype Verdict = Verdict(safe: bool, reason: Option<UnsafeReason>)

  /**
   * `is_safe_device`: four rules in order, the first one that fails gives the
   * reason. Safe exactly when the number is at least 2, the device is not
   * internal, its size is within the limit (equal passes) and it is removable.
   */
  function IsSafeDevice(d: DeviceInfo, maxSizeGb: int): (v: Verdict)
    ensures v.safe <==>
      d.deviceNumber >= 2 && !d.isInternal && d.sizeBytes <= maxSizeGb * GiB && d.isRemovable
    ensures v.reason.None? <==> v.safe
    ensures d.deviceNumber <= 1 ==> v.reason == Some(PrimaryDisk)
    ensures d.deviceNumber >= 2 && d.isInternal ==> v.reason == Some(MarkedInternal)
    ensures d.deviceNumber >= 2 && !d.isInternal && d.sizeBytes > maxSizeGb * GiB ==>
      v.reason == Some(TooLarge(maxSizeGb))
    ensures d.deviceNumber >= 2 && !d.isInternal && d.sizeBytes <= maxSizeGb * GiB && !d.isRemovable ==>
      v.reason == Some(NotRemovable)
  {
    if d.deviceNumber <= 1 then Verdict(false, Some(PrimaryDisk))
    else if d.isInternal then Verdict(false, Some(MarkedInternal))
    else if d.sizeBytes > maxSizeGb * 1024 * 1024 * 1024 then Verdict(false, Some(TooLarge(maxSizeGb)))
    else if !d.isRemovable then Verdict(false, Some(NotRemovable))
    else Verdict(true, None)
  }

  // ---------------------------------------------------------------- parse_size

  predicate IsNumberChar(c: char) {
    IsDigit(c) || c == '.'
  }

  predicate IsUnitPrefix(c: char) {
    LowerChar(c) in "kmgtp"
  }

  predicate IsByteLetter(c: char) {
    c == 'B' || c == 'b'
  }

  /** What `([\d.]+)\s*([KMGTP]?B)` captured: the numeral and the unit, upper-cased. */
  datatype SizeToken = SizeToken(number: string, unit: string)

  predicate WellFormedToken(t: SizeToken) {
    |t.number| > 0 && (forall i | 0 <= i < |t.number| :: IsNumberChar(t.number[i]))
  }

  /** The upper-cased unit prefix letter. */
  function UpperPrefix(c: char): char
    requires IsUnitPrefix(c)
  {
    if 'a' <= c <= 'z' then (c as int - 32) as char else c
  }

  /** The match of the size pattern starting exactly at `i`, if any. */
  function SizeTokenAt(s: string, i: nat): (r: Option<SizeToken>)
    requires i <= |s|
    ensures r.Some? ==> WellFormedToken(r.value) && IsUnit(r.value.unit)
  {
    if i == |s| || !IsNumberChar(s[i]) then None
    else
      var j := RunEnd(s, i, NumberChars);
      var k := RunEnd(s, j, Spaces);
      if k + 1 < |s| && IsUnitPrefix(s[k]) && IsByteLetter(s[k + 1]) then
        PrefixedUnit(s[k]);
        Some(SizeToken(s[i..j], [UpperPrefix(s[k]), 'B']))
      else if k < |s| && IsByteLetter(s[k]) then
        Some(SizeToken(s[i..j], "B"))
      else None
  }

  /** A unit prefix letter followed by `B` is one of the multiples of a byte. */
  lemma PrefixedUnit(c: char)
    requires IsUnitPrefix(c)
    ensures IsUnit([UpperPrefix(c), 'B'])
  {
    var l := LowerChar(c);
    assert l == 'k' || l == 'm' || l == 'g' || l == 't' || l == 'p';
  }

  /** `re.search`: the leftmost match at or after `i`. */
  function FindSizeToken(s: string, i: nat): (r: Option<SizeToken>)
    requires i <= |s|
    ensures r.Some? ==> WellFormedToken(r.value) && IsUnit(r.value.unit)
    decreases |s| - i
  {
    if i == |s| then None
    else if SizeTokenAt(s, i).Some? then SizeTokenAt(s, i)
    else FindSizeToken(s, i + 1)
  }

  /** The search finds nothing exactly when no position from `i` on starts a match. */
  lemma {:induction false} FindSizeTokenNone(s: string, i: nat)
    requires i <= |s|
    ensures FindSizeToken(s, i).None? <==> forall k | i <= k <= |s| :: SizeTokenAt(s, k).None?
    decreases |s| - i
  {
    if i < |s| {
      FindSizeTokenNone(s, i + 1);
    }
  }

  /** The search returns the match at the leftmost position from `i` on that starts one. */
  lemma {:induction false} FindSizeTokenLeftmost(s: string, i: nat)
    requires i <= |s|
    ensures forall k | i <= k <= |s| && SizeTokenAt(s, k).Some? && (forall j | i <= j < k :: SizeTokenAt(s, j).None?) ::
      FindSizeToken(s, i) == SizeTokenAt(s, k)
    decreases |s| - i
  {
    if i < |s| {
      FindSizeTokenLeftmost(s, i + 1);
    }
  }

  /** The multiplier of a unit; the lookup's default 1 covers anything else. */
  function UnitFactor(unit: string): nat {
    if unit == "KB" then 1024
    else if unit == "MB" then 1024 * 1024
    else if unit == "GB" then 1024 * 1024 * 1024
    else if unit == "TB" then 1024 * 1024 * 1024 * 1024
    else if unit == "PB" then 1024 * 1024 * 1024 * 1024 * 1024
    else 1
  }

  function Pow10(n: nat): (p: nat)
    ensures p >= 1
  {
    if n == 0 then 1 else 10 * Pow10(n - 1)
  }

  /**
   * `float(numeral)` for a run of digits and dots, as the exact fraction
   * digits / 10^scale; None when `float` raises (no digit, or two dots).
   */
  function DecimalOf(numeral: string): (r: Option<(nat, nat)>)
    requires forall i | 0 <= i < |numeral| :: IsNumberChar(numeral[i])
    ensures AllDigits(numeral) && numeral != [] ==> r == Some((DigitsValue(numeral), 0))
  {
    if '.' !in numeral then
      assert AllDigits(numeral) by {
        forall i | 0 <= i < |numeral| ensures IsDigit(numeral[i]) {
          assert numeral[i] in numeral;
          assert numeral[i] != '.';
          assert IsNumberChar(numeral[i]);
        }
      }
      if numeral == [] then None else Some((DigitsValue(numeral), 0))
    else
      var d := IndexOf(numeral, '.');
      var whole, fraction := numeral[..d], numeral[d + 1..];
      if '.' in fraction || (whole == [] && fraction == []) then None
      else
        var both := whole + fraction;
        assert AllDigits(both) by {
          forall i | 0 <= i < |both| ensures IsDigit(both[i]) {
            if i < |whole| {
              assert both[i] == numeral[i] && numeral[i] in numeral[..d];
              assert IsNumberChar(numeral[i]) && numeral[i] != '.';
            } else {
              var k := i - |whole|;
              assert both[i] == fraction[k] && fraction[k] in fraction;
              assert fraction[k] == numeral[d + 1 + k];
              assert IsNumberChar(numeral[d + 1 + k]) && fraction[k] != '.';
            }
          }
        }
        Some((DigitsValue(both), |fraction|))
  }

  /** The size a matched token denotes, truncated; None when its numeral is not a number. */
  function TokenSize(token: SizeToken): Option<nat>
    requires WellFormedToken(token)
  {
    match DecimalOf(token.number)
    case None => None
    case Some((digits, scale)) =>
      var product: nat := digits * UnitFactor(token.unit);
      DivisionOfNat(product, Pow10(scale));
      Some(product / Pow10(scale))
  }

  /** Truncating division keeps a natural number natural. */
  lemma DivisionOfNat(a: nat, b: nat)
    requires b >= 1
    ensures 0 <= a / b <= a
  {
  }

  /** The text the size pattern is searched in: parentheses removed, then stripped. */
  function Cleaned(s: string): string {
    Strip(ReplaceAll(ReplaceAll(s, "(", ""), ")", ""))
  }

  /**
   * `parse_size`: drop parentheses, strip, take the leftmost size match and
   * scale its number by the unit, truncating. No match gives 0; a numeral
   * that `float` refuses raises, which is `None` here.
   */
  function ParseSize(s: string): (r: Option<nat>)
    ensures (forall k | 0 <= k <= |Cleaned(s)| :: SizeTokenAt(Cleaned(s), k).None?) ==> r == Some(0)
    ensures forall k | 0 <= k <= |Cleaned(s)| && SizeTokenAt(Cleaned(s), k).Some? &&
                       (forall j | 0 <= j < k :: SizeTokenAt(Cleaned(s), j).None?) ::
      r == TokenSize(SizeTokenAt(Cleaned(s), k).value)
  {
    FindSizeTokenNone(Cleaned(s), 0);
    FindSizeTokenLeftmost(Cleaned(s), 0);
    match FindSizeToken(Cleaned(s), 0)
    case None => Some(0)
    case Some(token) => TokenSize(token)
  }

  /** The units diskutil prints and `parse_size` knows. */
  predicate IsUnit(unit: string) {
    unit in {"B", "KB", "MB", "GB", "TB", "PB"}
  }

  /** Cleaning keeps a parenthesis-free prefix that neither starts nor ends with whitespace. */
  lemma CleanedKeepsPrefix(x: string, rest: string)
    requires x != [] && !IsSpace(x[0]) && !IsSpace(x[|x| - 1])
    requires '(' !in x && ')' !in x
    ensures x <= Cleaned(x + rest)
  {
    ReplaceAllKeepsPrefix(x, rest, '(', "");
    var r1 := ReplaceAll(rest, "(", "");
    ReplaceAllKeepsPrefix(x, r1, ')', "");
    StripKeepsPrefix(x, ReplaceAll(r1, ")", ""));
  }

  /** A text that starts with `<number> <unit>` has that reading as its match at position 0. */
  lemma TokenAtReading(c: string, number: string, unit: string)
    requires number != [] && forall i | 0 <= i < |number| :: IsNumberChar(number[i])
    requires IsUnit(unit)
    requires number + " " + unit <= c
    ensures SizeTokenAt(c, 0) == Some(SizeToken(number, unit))
  {
    var x := number + " " + unit;
    forall k | 0 <= k < |number| ensures IsNumberChar(c[k]) {
      assert c[k] == x[k] == number[k];
    }
    assert c[|number|] == x[|number|] == ' ';
    var j := RunEnd(c, 0, NumberChars);
    assert j == |number|;
    assert c[j + 1] == x[j + 1] == unit[0];
    var k := RunEnd(c, j, Spaces);
    assert k == j + 1;
    assert c[0..j] == number;
    if |unit| == 2 {
      assert c[k + 1] == x[k + 1] == unit[1];
      assert [UpperPrefix(c[k]), 'B'] == unit;
    } else {
      assert unit == "B" && c[k] == 'B';
    }
  }

  /**
   * A reading `<number> <unit>` at the front of the text is the match, and
   * its size is what the number scales to, whatever follows the reading.
   */
  lemma ParseSizeOfReading(number: string, unit: string, rest: string)
    requires number != [] && forall i | 0 <= i < |number| :: IsNumberChar(number[i])
    requires IsUnit(unit)
    ensures WellFormedToken(SizeToken(number, unit))
    ensures ParseSize(number + " " + unit + rest) == TokenSize(SizeToken(number, unit))
  {
    var x := number + " " + unit;
    forall i | 0 <= i < |x| ensures x[i] != '(' && x[i] != ')' {
      if i < |number| {
        assert x[i] == number[i] && IsNumberChar(number[i]);
      }
    }
    assert x[0] == number[0] && IsNumberChar(number[0]);
    CleanedKeepsPrefix(x, rest);
    TokenAtReading(Cleaned(x + rest), number, unit);
  }

  /** A whole-number token scales exactly. */
  lemma TokenSizeWhole(number: string, unit: string)
    requires number != [] && AllDigits(number)
    ensures WellFormedToken(SizeToken(number, unit))
    ensures TokenSize(SizeToken(number, unit)) == Some(DigitsValue(number) * UnitFactor(unit))
  {
    assert DecimalOf(number) == Some((DigitsValue(number), 0));
  }

  /** Reading back a whole number printed with a unit gives the number times the unit. */
  lemma ParseSizeRoundTrip(n: nat, unit: string)
    requires IsUnit(unit)
    ensures ParseSize(Decimal(n) + " " + unit) == Some(n * UnitFactor(unit))
  {
    var number := Decimal(n);
    ParseSizeOfReading(number, unit, []);
    assert number + " " + unit + [] == number + " " + unit;
    TokenSizeWhole(number, unit);
  }

  /** `float` of a numeral with one decimal point: the digits on both sides, scaled by the digits after the point. */
  lemma DecimalOfFraction(whole: string, fraction: string)
    requires AllDigits(whole) && AllDigits(fraction) && (whole != [] || fraction != [])
    ensures forall i | 0 <= i < |whole + "." + fraction| :: IsNumberChar((whole + "." + fraction)[i])
    ensures DecimalOf(whole + "." + fraction) == Some((DigitsValue(whole + fraction), |fraction|))
  {
    var numeral := whole + "." + fraction;
    forall i | 0 <= i < |numeral| ensures IsNumberChar(numeral[i]) {
      if i < |whole| {
        assert numeral[i] == whole[i];
      } else if i > |whole| {
        assert numeral[i] == fraction[i - |whole| - 1];
      }
    }
    assert '.' !in whole by {
      forall i | 0 <= i < |whole| ensures whole[i] != '.' { assert IsDigit(whole[i]); }
    }
    assert '.' !in fraction by {
      forall i | 0 <= i < |fraction| ensures fraction[i] != '.' { assert IsDigit(fraction[i]); }
    }
    assert numeral[|whole|] == '.';
    assert '.' !in numeral[..|whole|] by { assert numeral[..|whole|] == whole; }
    assert IndexOf(numeral, '.') == |whole|;
    assert numeral[..|whole|] == whole && numeral[|whole| + 1..] == fraction;
  }

  /**
   * A reading with a decimal point ("1.5 GB", or diskutil's "32.0 GB (… Bytes)"):
   * the digits times the unit, divided by the scale and truncated to whole bytes.
   */
  lemma ParseSizeDecimal(whole: string, fraction: string, unit: string, rest: string)
    requires whole != [] && AllDigits(whole) && AllDigits(fraction)
    requires IsUnit(unit)
    ensures ParseSize(whole + "." + fraction + " " + unit + rest)
      == Some(DigitsValue(whole + fraction) * UnitFactor(unit) / Pow10(|fraction|))
  {
    DecimalOfFraction(whole, fraction);
    ParseSizeOfReading(whole + "." + fraction, unit, rest);
  }

  /** A trailing zero multiplies the value of a numeral by ten. */
  lemma TrailingZeroValue(s: string)
    requires AllDigits(s)
    ensures AllDigits(s + "0") && DigitsValue(s + "0") == DigitsValue(s) * 10
  {
    var t := s + "0";
    assert t[..|t| - 1] == s;
  }

  /**
   * diskutil's "Disk Size" line ("32.0 GB (34359738368 Bytes)"): the reading in front
   * wins over the byte count in parentheses after it.
   */
  lemma ParseSizeDiskutilLine(whole: string, bytes: string)
    requires whole != [] && AllDigits(whole)
    ensures ParseSize(whole + ".0 GB (" + bytes + " Bytes)") == Some(DigitsValue(whole) * GiB)
  {
    var rest := " (" + bytes + " Bytes)";
    assert whole + ".0 GB (" + bytes + " Bytes)" == whole + "." + "0" + " " + "GB" + rest;
    GigabyteIsUnit();
    ParseSizeDecimal(whole, "0", "GB", rest);
    TrailingZeroValue(whole);
    TenthsOfGigabyte(DigitsValue(whole));
  }

  lemma GigabyteIsUnit()
    ensures IsUnit("GB")
  {
  }

  /** A reading with one zero decimal scales back to whole gigabytes. */
  lemma TenthsOfGigabyte(v: nat)
    ensures v * 10 * UnitFactor("GB") / Pow10(1) == v * GiB
  {
    var m := v * GiB;
    assert UnitFactor("GB") == GiB && Pow10(1) == 10;
    assert v * 10 * GiB == m * 10;
    assert m * 10 / 10 == m;
  }

  /** The search finds nothing in a text without digits or dots. */
  lemma {:induction false} NoNumberNoToken(s: string, i: nat)
    requires i <= |s|
    requires forall k | 0 <= k < |s| :: !IsNumberChar(s[k])
    ensures FindSizeToken(s, i).None?
    decreases |s| - i
  {
    if i < |s| {
      NoNumberNoToken(s, i + 1);
    }
  }

  /** A text without a digit or a dot has size 0. */
  lemma ParseSizeWithoutNumber(s: string)
    requires forall k | 0 <= k < |s| :: !IsNumberChar(s[k])
    ensures ParseSize(s) == Some(0)
  {
    var r1 := ReplaceAll(s, "(", "");
    DeleteAllIntroducesNothing(s, '(');
    DeleteAllIntroducesNothing(r1, ')');
    StripIntroducesNothing(ReplaceAll(r1, ")", ""));
    var c := Cleaned(s);
    forall k | 0 <= k < |c| ensures !IsNumberChar(c[k]) {
      assert c[k] in ReplaceAll(r1, ")", "");
      var m :| 0 <= m < |ReplaceAll(r1, ")", "")| && ReplaceAll(r1, ")", "")[m] == c[k];
      assert c[k] in r1;
      var m2 :| 0 <= m2 < |r1| && r1[m2] == c[k];
      assert c[k] in s;
    }
    NoNumberNoToken(c, 0);
  }

  // ------------------------------------------------------ diskutil info parsing

  /** The key of a `key: value` line: the text before the first ':', stripped. */
  function KeyOf(line: string): string
    requires ':' in line
  {
    Strip(line[..IndexOf(line, ':')])
  }

  /** The value of a `key: value` line: the text after the first ':', stripped. */
  function ValueOf(line: string): string
    requires ':' in line
  {
    Strip(line[IndexOf(line, ':') + 1..])
  }

  /** The `(key, value)` pairs of the lines that hold a ':', in order. */
  function Pairs(lines: seq<string>): (ps: seq<(string, string)>)
    ensures |ps| <= |lines|
    decreases |lines|
  {
    if lines == [] then []
    else
      Pairs(lines[..|lines| - 1]) + PairOf(lines[|lines| - 1])
  }

  /** The pair a single line contributes: none without a ':'. */
  function PairOf(line: string): (ps: seq<(string, string)>)
    ensures |ps| <= 1
  {
    if ':' in line then [(KeyOf(line), ValueOf(line))] else []
  }

  lemma PairsStep(lines: seq<string>, i: nat)
    requires i < |lines|
    ensures Pairs(lines[..i + 1]) == Pairs(lines[..i]) + PairOf(lines[i])
  {
    assert lines[..i + 1][..i] == lines[..i];
  }

  lemma AssocSnoc<K, V>(pairs: seq<(K, V)>, k: K, v: V)
    ensures Assoc(pairs + [(k, v)]) == Assoc(pairs)[k := v]
  {
    assert (pairs + [(k, v)])[..|pairs|] == pairs;
  }

  /** A dictionary filled from pairs in order, a later pair overwriting an earlier one with the same key. */
  function Assoc<K, V>(pairs: seq<(K, V)>): map<K, V>
    decreases |pairs|
  {
    if pairs == [] then map[]
    else Assoc(pairs[..|pairs| - 1])[pairs[|pairs| - 1].0 := pairs[|pairs| - 1].1]
  }

  /** The dictionary the line loop of `get_device_info` builds. */
  function InfoMap(lines: seq<string>): map<string, string> {
    Assoc(Pairs(lines))
  }

  /**
   * A key is in the dictionary exactly when some pair carries it, and its
   * value is the one of the last such pair.
   */
  lemma {:induction false} AssocLastWins<K, V>(pairs: seq<(K, V)>, key: K)
    ensures key in Assoc(pairs) <==> exists i | 0 <= i < |pairs| :: pairs[i].0 == key
    ensures key in Assoc(pairs) ==>
      exists i | 0 <= i < |pairs| ::
        && pairs[i] == (key, Assoc(pairs)[key])
        && forall j | i < j < |pairs| :: pairs[j].0 != key
    decreases |pairs|
  {
    if pairs != [] {
      var last := |pairs| - 1;
      var init := pairs[..last];
      AssocLastWins(init, key);
      if pairs[last].0 == key {
        assert pairs[last] == (key, Assoc(pairs)[key]);
      } else {
        if key in Assoc(init) {
          var i :| 0 <= i < |init| && init[i] == (key, Assoc(init)[key])
            && forall j | i < j < |init| :: init[j].0 != key;
          assert pairs[i] == init[i];
          forall j | i < j < |pairs| ensures pairs[j].0 != key {
            if j < last {
              assert pairs[j] == init[j];
            }
          }
        }
        if exists i | 0 <= i < |pairs| :: pairs[i].0 == key {
          var i :| 0 <= i < |pairs| && pairs[i].0 == key;
          assert init[i] == pairs[i];
        }
      }
    }
  }

  /** The loop at the top of `get_device_info`, over the lines of the captured text. */
  method ParseInfo(lines: seq<string>) returns (info: map<string, string>)
    ensures info == InfoMap(lines)
  {
    info := map[];
    var i := 0;
    assert lines[..0] == [];
    assert Pairs(lines[..0]) == [];
    while i < |lines|
      invariant 0 <= i <= |lines|
      invariant info == Assoc(Pairs(lines[..i]))
    {
      var line := lines[i];
      ghost var before := Pairs(lines[..i]);
      PairsStep(lines, i);
      if ':' in line {
        AssocSnoc(before, KeyOf(line), ValueOf(line));
        assert PairOf(line) == [(KeyOf(line), ValueOf(line))];
        info := info[KeyOf(line) := ValueOf(line)];
      } else {
        assert PairOf(line) == [];
        assert before + PairOf(line) == before;
      }
      i := i + 1;
    }
    assert lines[..i] == lines;
  }

  function Lookup(info: map<string, string>, key: string): Option<string> {
    if key in info then Some(info[key]) else None
  }

  /** `dict.get(key, default)`. */
  function Get(info: map<string, string>, key: string, default: string): string {
    if key in info then info[key] else default
  }

  /** `get('File System Personality') or get('Type (Bundle)')`: an empty personality falls through. */
  function FileSystemOf(info: map<string, string>): Option<string> {
    if Get(info, "File System Personality", "") != "" then Some(info["File System Personality"])
    else Lookup(info, "Type (Bundle)")
  }

  /** The digits captured by `disk(\d+)` when the match starts exactly at `i`. */
  function DiskNumberAt(path: string, i: nat): Option<nat>
    requires i <= |path|
  {
    if i + 4 < |path| && path[i..i + 4] == "disk" && IsDigit(path[i + 4]) then
      var j := RunEnd(path, i + 4, Digits);
      Some(DigitsValue(path[i + 4..j]))
    else None
  }

  function FindDiskNumber(path: string, i: nat): Option<nat>
    requires i <= |path|
    decreases |path| - i
  {
    if i == |path| then None
    else if DiskNumberAt(path, i).Some? then DiskNumberAt(path, i)
    else FindDiskNumber(path, i + 1)
  }

  /** The search finds nothing exactly when no position from `i` on starts `disk<digits>`. */
  lemma {:induction false} FindDiskNumberNone(path: string, i: nat)
    requires i <= |path|
    ensures FindDiskNumber(path, i).None? <==> forall k | i <= k <= |path| :: DiskNumberAt(path, k).None?
    decreases |path| - i
  {
    if i < |path| {
      FindDiskNumberNone(path, i + 1);
    }
  }

  /** The search returns the number at the leftmost position from `i` on that starts one. */
  lemma {:induction false} FindDiskNumberLeftmost(path: string, i: nat)
    requires i <= |path|
    ensures forall k | i <= k <= |path| && DiskNumberAt(path, k).Some? && (forall j | i <= j < k :: DiskNumberAt(path, j).None?) ::
      FindDiskNumber(path, i) == DiskNumberAt(path, k)
    decreases |path| - i
  {
    if i < |path| {
      FindDiskNumberLeftmost(path, i + 1);
    }
  }

  /** The device number: the digits of the leftmost `disk<digits>`, or -1. */
  function DeviceNumber(path: string): (n: int)
    ensures n >= -1
    ensures n == -1 <==> forall k | 0 <= k <= |path| :: DiskNumberAt(path, k).None?
    ensures forall k | 0 <= k <= |path| && DiskNumberAt(path, k).Some? && (forall j | 0 <= j < k :: DiskNumberAt(path, j).None?) ::
      n == DiskNumberAt(path, k).value
  {
    FindDiskNumberNone(path, 0);
    FindDiskNumberLeftmost(path, 0);
    match FindDiskNumber(path, 0)
    case Some(n) => n
    case None => -1
  }

  /** `device_path.replace('/dev/disk', '/dev/rdisk')`. */
  function RawDevicePath(path: string): string {
    ReplaceAll(path, "/dev/disk", "/dev/rdisk")
  }

  /** The search passes over positions where no match starts. */
  lemma {:induction false} FindDiskNumberSkips(path: string, i: nat, at: nat)
    requires i <= at <= |path|
    requires forall k | i <= k < at :: DiskNumberAt(path, k).None?
    ensures FindDiskNumber(path, i) == FindDiskNumber(path, at)
    decreases at - i
  {
    if i < at {
      FindDiskNumberSkips(path, i + 1, at);
    }
  }

  /** The disk number of `/dev/disk<n>` and of `/dev/rdisk<n>` is `n`. */
  lemma DeviceNumberOfDiskPath(n: nat, prefix: string)
    requires prefix == "/dev/disk" || prefix == "/dev/rdisk"
    ensures DeviceNumber(prefix + Decimal(n)) == n
  {
    var digits := Decimal(n);
    var path := prefix + digits;
    var at := |prefix| - 4;
    assert path[at..at + 4] == prefix[at..];
    assert path[at + 4..] == digits;
    forall k | at + 4 <= k < |path| ensures IsDigit(path[k]) {
      assert path[k] == digits[k - (at + 4)];
    }
    var j := RunEnd(path, at + 4, Digits);
    assert path[at + 4..j] == digits;
    assert DiskNumberAt(path, at) == Some(n);
    forall k | 0 <= k < at
      ensures DiskNumberAt(path, k).None?
    {
      assert path[k] == prefix[k] && path[k + 1] == prefix[k + 1];
      assert path[k..k + 4][0] == path[k] && path[k..k + 4][1] == path[k + 1];
    }
    FindDiskNumberSkips(path, 0, at);
  }

  /** The raw path of `/dev/disk<n>` is `/dev/rdisk<n>`. */
  lemma RawPathOfDiskPath(n: nat)
    ensures RawDevicePath("/dev/disk" + Decimal(n)) == "/dev/rdisk" + Decimal(n)
  {
    var digits := Decimal(n);
    var pattern := "/dev/disk";
    forall k | 0 <= k < |digits| ensures digits[k] != '/' {
      assert IsDigit(digits[k]);
    }
    AbsentFirstChar(digits, pattern);
    ReplaceAbsent(digits, pattern, "/dev/rdisk");
    var p := pattern + digits;
    assert pattern <= p;
    assert p[|pattern|..] == digits;
  }

  /** `/dev/rdisk<n>` holds no `/dev/disk`. */
  lemma RawPathHasNoDiskPath(n: nat)
    ensures !Contains("/dev/rdisk" + Decimal(n), "/dev/disk")
  {
    var digits := Decimal(n);
    var pattern := "/dev/disk";
    var raw := "/dev/rdisk" + digits;
    assert "rdisk" + digits == raw[5..];
    forall k | 0 <= k < |"rdisk" + digits| ensures ("rdisk" + digits)[k] != '/' {
      if k >= 5 {
        assert ("rdisk" + digits)[k] == digits[k - 5];
        assert IsDigit(digits[k - 5]);
      }
    }
    AbsentFirstChar("rdisk" + digits, pattern);
    assert raw[4..][1..] == raw[5..];
    assert raw[4..][1] == 'r';
    assert !Contains(raw[4..], pattern);
    assert raw[3..][1..] == raw[4..] && raw[3..][0] != '/';
    assert !Contains(raw[3..], pattern);
    assert raw[2..][1..] == raw[3..] && raw[2..][0] != '/';
    assert !Contains(raw[2..], pattern);
    assert raw[1..][1..] == raw[2..] && raw[1..][0] != '/';
    assert !Contains(raw[1..], pattern);
    assert raw[5] != pattern[5];
  }

  /** A raw path `/dev/rdisk<n>` is left as it is. */
  lemma RawPathOfRawPath(n: nat)
    ensures RawDevicePath("/dev/rdisk" + Decimal(n)) == "/dev/rdisk" + Decimal(n)
  {
    RawPathHasNoDiskPath(n);
    ReplaceAbsent("/dev/rdisk" + Decimal(n), "/dev/disk", "/dev/rdisk");
  }

  /** The size `parse_size` reads from the "Disk Size" entry of `diskutil` output (default "0 B"). */
  function DiskSize(output: string): Option<nat> {
    ParseSize(Get(InfoMap(SplitOn(output, '\n')), "Disk Size", "0 B"))
  }

  /**
   * What `get_device_info` reads from `diskutil` output: the size, a USB
   * protocol forcing removable and not internal, otherwise the location and
   * removable fields compared case-insensitively, the file system, mount
   * point, volume name and the disk number of the path.
   */
  ghost predicate Describes(d: DeviceInfo, output: string) {
    var info := InfoMap(SplitOn(output, '\n'));
    var usb := Contains(Lower(Get(info, "Protocol", "")), "usb");
    && DiskSize(output) == Some(d.sizeBytes)
    && d.deviceNumber == DeviceNumber(d.devicePath)
    && (usb ==> d.isRemovable && !d.isInternal)
    && (!usb ==>
      && (d.isInternal <==> Lower(Get(info, "Device Location", "")) == "internal")
      && (d.isRemovable <==> Lower(Get(info, "Removable Media", "")) == "removable"))
    && d.filesystem == FileSystemOf(info)
    && d.mountPoint == Lookup(info, "Mount Point")
    && d.volumeName == Lookup(info, "Volume Name")
  }

  /**
   * `get_device_info` without the `diskutil` call: `diskutil` is its captured
   * output, None when the command failed. Every failure, including a size
   * numeral that `float` refuses, becomes DeviceNotFound. A USB protocol
   * forces removable and not internal; otherwise the location and removable
   * fields decide, compared case-insensitively.
   */
  method GetDeviceInfo(devicePath: string, diskutil: Option<string>) returns (r: Result<DeviceInfo, ErrorKind>)
    ensures diskutil.None? ==> r == Failure(DeviceNotFound)
    ensures r.Failure? ==> r.error == DeviceNotFound
    ensures r.Success? ==> r.value.devicePath == devicePath && r.value.rawDevicePath == RawDevicePath(devicePath)
    ensures diskutil.Some? ==> (r.Success? <==> DiskSize(diskutil.value).Some?)
    ensures r.Success? ==> diskutil.Some? && Describes(r.value, diskutil.value)
  {
    if diskutil.None? {
      return Failure(DeviceNotFound);
    }
    var info := ParseInfo(SplitOn(diskutil.value, '\n'));
    var deviceNumber := DeviceNumber(devicePath);
    var isInternal := Lower(Get(info, "Device Location", "")) == "internal";
    var isRemovable := Lower(Get(info, "Removable Media", "")) == "removable";
    var protocol := Lower(Get(info, "Protocol", ""));
    if Contains(protocol, "usb") {
      isRemovable := true;
      isInternal := false;
    }
    var size := ParseSize(Get(info, "Disk Size", "0 B"));
    if size.None? {
      return Failure(DeviceNotFound);
    }
    r := Success(DeviceInfo(
      devicePath, RawDevicePath(devicePath), size.value,
      FileSystemOf(info), Lookup(info, "Mount Point"),
      deviceNumber, isInternal, isRemovable, Lookup(info, "Volume Name")));
  }
}
