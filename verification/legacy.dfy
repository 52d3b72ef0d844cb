/** The older scheme still wired into the command-line entry point
    (src/main.rs): `directory_tones` does not sort the glob's entries and
    derives identities from each entry's position in the glob iterator
    instead of hashing the file name, and the `Write` and `Validate`
    commands scan before they look at the catalog file. */
module Legacy {
  import opened Wrappers
  import opened Data
  import opened Decimal
  import Identity
  import Scanner
  import opened Differ
  import opened Catalog

  /** The first PID handed out, to the glob's first entry. */
  const PidBase: nat := 4918251813855823052

  /** The fixed text every legacy GUID starts with. */
  const GuidPrefix: string := "B9753FD82AE718E"

  /** Why the legacy scan stops: the pattern is malformed, a matched file's
      duration cannot be read, or adding the entry's index to the PID base
      overflows a `u64` (a panic in a checked build). */
  datatype LegacyScanError = PatternFailed | ReadFailed(fileName: string) | PidOverflow(index: nat)

  /** The PID of the entry at `index`, absent when `u64` addition overflows. */
  function LegacyPid(index: nat): (r: Option<U64>)
    ensures r.Some? <==> index <= U64_MAX - PidBase
    ensures r.Some? ==> r.value - index == PidBase
  {
    if PidBase + index <= U64_MAX then Some(PidBase + index) else None
  }

  /** The GUID of the entry at `index`: the prefix, then `2 + index` in
      decimal. */
  function LegacyGuid(index: nat): (guid: string)
    ensures |guid| > |GuidPrefix| && guid[..|GuidPrefix|] == GuidPrefix
    ensures IsDigits(guid[|GuidPrefix|..]) && DecimalValue(guid[|GuidPrefix|..]) == 2 + index
  {
    var suffix := DecimalText(2 + index);
    DecimalRoundTrip(2 + index);
    assert (GuidPrefix + suffix)[|GuidPrefix|..] == suffix;
    GuidPrefix + suffix
  }

  /** Distinct positions get distinct GUIDs. */
  lemma LegacyGuidInjective(i: nat, j: nat)
    ensures LegacyGuid(i) == LegacyGuid(j) <==> i == j
  {
    if LegacyGuid(i) == LegacyGuid(j) {
      assert DecimalText(2 + i) == LegacyGuid(i)[|GuidPrefix|..];
      assert DecimalText(2 + j) == LegacyGuid(j)[|GuidPrefix|..];
      DecimalTextInjective(2 + i, 2 + j);
    }
  }

  /** Only the first eight positions get a 16-character GUID like the hashed
      scheme's; later ones are longer. */
  lemma LegacyGuidLength(i: nat)
    ensures |LegacyGuid(i)| == 16 <==> i < 8
  {
    DecimalTextSingleDigit(2 + i);
  }

  /** The record `directory_tones` builds for the entry at `index`. */
  function LegacyTone(fileName: string, duration: real, threshold: U16, index: nat): (t: Tone)
    requires index <= U64_MAX - PidBase
    ensures LegacyPid(index) == Some(t.pid)
    ensures |t.guid| > |GuidPrefix| && t.guid[..|GuidPrefix|] == GuidPrefix
    ensures IsDigits(t.guid[|GuidPrefix|..])
    ensures DecimalValue(t.guid[|GuidPrefix|..]) == t.pid - PidBase + 2
    ensures !t.protectedContent && t.totalTime == duration
    ensures t.mediaKind == MediaKind.Tone <==> duration < threshold as real
  {
    Tone.Tone(
      name := Scanner.FileStem(fileName),
      totalTime := duration,
      mediaKind := Scanner.Classify(duration, threshold),
      protectedContent := false,
      pid := PidBase + index,
      guid := LegacyGuid(index))
  }

  /** Whether the entry at position `i` of `entries` (glob index `start + i`)
      stops the scan: a match that cannot be read or whose PID overflows. */
  predicate Fails(entries: seq<Scanner.GlobEntry>, start: nat, durations: map<string, real>, i: int)
    requires 0 <= i < |entries|
  {
    entries[i].Match? && (entries[i].fileName !in durations || LegacyPid(start + i).None?)
  }

  /** Position `i` is the first that stops the scan. */
  predicate FirstFailure(entries: seq<Scanner.GlobEntry>, start: nat, durations: map<string, real>, i: int)
  {
    && 0 <= i < |entries|
    && Fails(entries, start, durations, i)
    && forall j :: 0 <= j < i ==> !Fails(entries, start, durations, j)
  }

  /** The error the scan reports at a failing position: an unreadable file
      is reported before its PID is computed. */
  function FailureAt(entries: seq<Scanner.GlobEntry>, start: nat, durations: map<string, real>, i: int)
    : LegacyScanError
    requires 0 <= i < |entries| && entries[i].Match?
  {
    if entries[i].fileName !in durations then ReadFailed(entries[i].fileName) else PidOverflow(start + i)
  }

  /** The enumerated loop of `directory_tones` over `entries`, whose first
      element has glob index `start`. Every entry, error or not, advances the
      index; matches are read, classified and inserted in glob order. */
  function DirectoryTones(entries: seq<Scanner.GlobEntry>, start: nat, acc: map<string, Tone>,
                          threshold: U16, durations: map<string, real>)
    : (r: Result<map<string, Tone>, LegacyScanError>)
    ensures r.Success? <==> forall i :: 0 <= i < |entries| ==> !Fails(entries, start, durations, i)
    ensures r.Failure? ==>
              exists i :: FirstFailure(entries, start, durations, i)
                          && r.error == FailureAt(entries, start, durations, i)
  {
    if entries == [] then Success(acc)
    else
      assert forall i :: 0 < i < |entries| ==>
               (Fails(entries, start, durations, i) <==> Fails(entries[1..], start + 1, durations, i - 1));
      match entries[0]
      case EntryError =>
        var r := DirectoryTones(entries[1..], start + 1, acc, threshold, durations);
        if r.Failure? then
          var i :| FirstFailure(entries[1..], start + 1, durations, i)
                   && r.error == FailureAt(entries[1..], start + 1, durations, i);
          assert FirstFailure(entries, start, durations, i + 1);
          r
        else
          r
      case Match(n) =>
        if n !in durations then
          assert FirstFailure(entries, start, durations, 0);
          Failure(ReadFailed(n))
        else if LegacyPid(start).None? then
          assert FirstFailure(entries, start, durations, 0);
          Failure(PidOverflow(start))
        else
          var r := DirectoryTones(entries[1..], start + 1, acc[n := LegacyTone(n, durations[n], threshold, start)],
                                  threshold, durations);
          if r.Failure? then
            var i :| FirstFailure(entries[1..], start + 1, durations, i)
                     && r.error == FailureAt(entries[1..], start + 1, durations, i);
            assert FirstFailure(entries, start, durations, i + 1);
            r
          else
            r
  }

  /** `entries[i]` is the last match of `name`: the insert that wins. */
  predicate LastMatch(entries: seq<Scanner.GlobEntry>, name: string, i: int)
  {
    && 0 <= i < |entries|
    && entries[i] == Scanner.Match(name)
    && forall j :: i < j < |entries| ==> entries[j] != Scanner.Match(name)
  }

  /** The accumulator after consuming the first entry. */
  function StepAcc(entries: seq<Scanner.GlobEntry>, start: nat, acc: map<string, Tone>,
                   threshold: U16, durations: map<string, real>): map<string, Tone>
    requires entries != [] && !Fails(entries, start, durations, 0)
  {
    match entries[0]
    case EntryError => acc
    case Match(n) => acc[n := LegacyTone(n, durations[n], threshold, start)]
  }

  lemma DirectoryTonesStep(entries: seq<Scanner.GlobEntry>, start: nat, acc: map<string, Tone>,
                           threshold: U16, durations: map<string, real>)
    requires entries != [] && DirectoryTones(entries, start, acc, threshold, durations).Success?
    ensures !Fails(entries, start, durations, 0)
    ensures DirectoryTones(entries, start, acc, threshold, durations)
              == DirectoryTones(entries[1..], start + 1, StepAcc(entries, start, acc, threshold, durations),
                                threshold, durations)
  {
  }

  /** A completed loop holds the accumulated records plus one per matched
      name, and keeps accumulated records of names it does not match. */
  lemma {:induction false} DirectoryTonesKeys(entries: seq<Scanner.GlobEntry>, start: nat, acc: map<string, Tone>,
                                              threshold: U16, durations: map<string, real>)
    requires DirectoryTones(entries, start, acc, threshold, durations).Success?
    ensures var m := DirectoryTones(entries, start, acc, threshold, durations).value;
      && m.Keys == acc.Keys + (set e | e in entries && e.Match? :: e.fileName)
      && (forall k :: k in acc && Scanner.Match(k) !in entries ==> m[k] == acc[k])
  {
    if entries != [] {
      DirectoryTonesStep(entries, start, acc, threshold, durations);
      var acc' := StepAcc(entries, start, acc, threshold, durations);
      assert forall i :: 0 < i < |entries| ==>
               (Fails(entries, start, durations, i) <==> Fails(entries[1..], start + 1, durations, i - 1));
      DirectoryTonesKeys(entries[1..], start + 1, acc', threshold, durations);
      assert forall e :: e in entries <==> e == entries[0] || e in entries[1..];
    }
  }

  /** The record of a matched name is built from the position of that
      name's last match: later inserts overwrite earlier ones. */
  lemma {:induction false} DirectoryTonesRecord(entries: seq<Scanner.GlobEntry>, start: nat, acc: map<string, Tone>,
                                                threshold: U16, durations: map<string, real>, k: string, i: int)
    requires DirectoryTones(entries, start, acc, threshold, durations).Success?
    requires LastMatch(entries, k, i)
    ensures k in durations && start + i <= U64_MAX - PidBase
    ensures var m := DirectoryTones(entries, start, acc, threshold, durations).value;
      k in m && m[k] == LegacyTone(k, durations[k], threshold, start + i)
  {
    assert !Fails(entries, start, durations, i);
    DirectoryTonesStep(entries, start, acc, threshold, durations);
    var acc' := StepAcc(entries, start, acc, threshold, durations);
    assert forall j :: 0 < j < |entries| ==>
             (Fails(entries, start, durations, j) <==> Fails(entries[1..], start + 1, durations, j - 1));
    if i > 0 {
      assert LastMatch(entries[1..], k, i - 1);
      DirectoryTonesRecord(entries[1..], start + 1, acc', threshold, durations, k, i - 1);
    } else {
      assert Scanner.Match(k) !in entries[1..] by {
        forall e | e in entries[1..] ensures e != Scanner.Match(k) {
          var j :| 0 <= j < |entries[1..]| && entries[1..][j] == e;
          assert entries[j + 1] == e;
        }
      }
      DirectoryTonesKeys(entries[1..], start + 1, acc', threshold, durations);
    }
  }

  /** `directory_tones`: the glob's entries in the glob's own order. */
  function LegacyScan(listing: Scanner.Listing, threshold: U16, durations: map<string, real>)
    : (r: Result<map<string, Tone>, LegacyScanError>)
    ensures listing.PatternError? ==> r == Failure(PatternFailed)
    ensures listing.Matches? ==>
              (r.Success? <==> forall i :: 0 <= i < |listing.entries| ==> !Fails(listing.entries, 0, durations, i))
    ensures listing.Matches? && r.Failure? ==>
              exists i :: FirstFailure(listing.entries, 0, durations, i)
                          && r.error == FailureAt(listing.entries, 0, durations, i)
  {
    match listing
    case PatternError => Failure(PatternFailed)
    case Matches(entries) => DirectoryTones(entries, 0, map[], threshold, durations)
  }

  /** Every scanned file gets its own PID and GUID, as long as the glob
      lists each file once. */
  lemma LegacyIdentitiesDistinct(listing: Scanner.Listing, threshold: U16, durations: map<string, real>,
                                 n1: string, i1: int, n2: string, i2: int)
    requires LegacyScan(listing, threshold, durations).Success?
    requires LastMatch(listing.entries, n1, i1) && LastMatch(listing.entries, n2, i2) && n1 != n2
    ensures var m := LegacyScan(listing, threshold, durations).value;
      && n1 in m && n2 in m
      && m[n1].pid != m[n2].pid
      && m[n1].guid != m[n2].guid
  {
    DirectoryTonesRecord(listing.entries, 0, map[], threshold, durations, n1, i1);
    DirectoryTonesRecord(listing.entries, 0, map[], threshold, durations, n2, i2);
    LegacyGuidInjective(i1, i2);
  }

  /** A glob error before a file shifts that file's identity: the same file
      gets PID base + 1 and GUID suffix 3 instead of base and 2. */
  lemma EntryErrorShiftsIdentity(name: string, threshold: U16, durations: map<string, real>)
    requires name in durations
    ensures var alone := LegacyScan(Scanner.Matches([Scanner.Match(name)]), threshold, durations);
            var shifted := LegacyScan(Scanner.Matches([Scanner.EntryError, Scanner.Match(name)]), threshold, durations);
      && alone.Success? && shifted.Success?
      && name in alone.value && name in shifted.value
      && alone.value[name].pid == PidBase && alone.value[name].guid == GuidPrefix + "2"
      && shifted.value[name].pid == PidBase + 1 && shifted.value[name].guid == GuidPrefix + "3"
  {
    var e1, e2 := [Scanner.Match(name)], [Scanner.EntryError, Scanner.Match(name)];
    assert !Fails(e1, 0, durations, 0);
    assert !Fails(e2, 0, durations, 0) && !Fails(e2, 0, durations, 1);
    assert LastMatch(e1, name, 0);
    assert LastMatch(e2, name, 1);
    DirectoryTonesRecord(e1, 0, map[], threshold, durations, name, 0);
    DirectoryTonesRecord(e2, 0, map[], threshold, durations, name, 1);
    assert DecimalText(2) == "2" && DecimalText(3) == "3";
  }

  /** Swapping two files in the glob order swaps their identities, whereas
      the hashed scan gives the same result for every order. */
  lemma ReorderingChangesIdentity(a: string, b: string, threshold: U16, durations: map<string, real>)
    requires a != b && a in durations && b in durations
    ensures var ab := LegacyScan(Scanner.Matches([Scanner.Match(a), Scanner.Match(b)]), threshold, durations);
            var ba := LegacyScan(Scanner.Matches([Scanner.Match(b), Scanner.Match(a)]), threshold, durations);
      && ab.Success? && ba.Success?
      && a in ab.value && b in ba.value && a in ba.value
      && b in ab.value
      && ab.value[a].pid == ba.value[b].pid && ab.value[b].pid == ba.value[a].pid
      && ab.value[a].pid != ba.value[a].pid
  {
    var e1, e2 := [Scanner.Match(a), Scanner.Match(b)], [Scanner.Match(b), Scanner.Match(a)];
    assert !Fails(e1, 0, durations, 0) && !Fails(e1, 0, durations, 1);
    assert !Fails(e2, 0, durations, 0) && !Fails(e2, 0, durations, 1);
    assert LastMatch(e1, a, 0) && LastMatch(e1, b, 1) && LastMatch(e2, b, 0) && LastMatch(e2, a, 1);
    DirectoryTonesRecord(e1, 0, map[], threshold, durations, a, 0);
    DirectoryTonesRecord(e1, 0, map[], threshold, durations, b, 1);
    DirectoryTonesRecord(e2, 0, map[], threshold, durations, b, 0);
    DirectoryTonesRecord(e2, 0, map[], threshold, durations, a, 1);
  }

  /** The legacy `Write` command: scan first, then refuse to replace an
      existing file unless `overwrite`, then write. */
  function LegacyWrite(fileExists: bool, overwrite: bool, xml: bool, writable: bool,
                       listing: Scanner.Listing, threshold: U16, durations: map<string, real>)
    : (r: Result<Written, CatalogError<LegacyScanError>>)
    ensures LegacyScan(listing, threshold, durations).Failure? ==>
              r == Failure(ScanFailed(LegacyScan(listing, threshold, durations).error))
    ensures r == Failure(CatalogExists) <==>
              LegacyScan(listing, threshold, durations).Success? && fileExists && !overwrite
    ensures r.Success? ==>
              && r.value.catalog.ringtones == LegacyScan(listing, threshold, durations).value
              && (r.value.format == Xml <==> xml)
  {
    match LegacyScan(listing, threshold, durations)
    case Failure(e) => Failure(ScanFailed(e))
    case Success(tones) =>
      if fileExists && !overwrite then Failure(CatalogExists)
      else if !writable then Failure(WriteFailed)
      else Success(Written(if xml then Xml else Binary, Ringtones(tones)))
  }

  /** The legacy `Validate` command: scan first, then require the file, read
      it, and report as the catalog differ does. */
  function LegacyValidate(fileExists: bool, listing: Scanner.Listing, threshold: U16,
                          durations: map<string, real>, stored: Option<Ringtones>,
                          renderTime: real -> string)
    : (r: Result<map<string, Report>, CatalogError<LegacyScanError>>)
    ensures LegacyScan(listing, threshold, durations).Failure? ==>
              r == Failure(ScanFailed(LegacyScan(listing, threshold, durations).error))
    ensures r == Failure(CatalogNotFound) <==>
              LegacyScan(listing, threshold, durations).Success? && !fileExists
    ensures r.Success? ==>
              && fileExists && stored.Some?
              && r.value == Diff(LegacyScan(listing, threshold, durations).value, stored.value.ringtones, renderTime)
  {
    match LegacyScan(listing, threshold, durations)
    case Failure(e) => Failure(ScanFailed(e))
    case Success(tones) =>
      if !fileExists then Failure(CatalogNotFound)
      else
        match stored
        case None => Failure(CatalogUnreadable)
        case Some(catalog) => Success(Diff(tones, catalog.ringtones, renderTime))
  }

  /** The two entry points order their checks differently: with an existing
      catalog, no `overwrite` and a malformed pattern, the library write
      reports the existing file while the legacy command reports the scan;
      with no catalog file, likewise for validation. */
  lemma CheckOrderDiffers(xml: bool, writable: bool, threshold: U16, durations: map<string, real>,
                          sha256: string -> Identity.HexDigest, stored: Option<Ringtones>,
                          renderTime: real -> string)
    ensures WriteRingtonesPlist(true, false, xml, writable, Scanner.PatternError, threshold, durations, sha256)
              == Failure(CatalogExists)
    ensures LegacyWrite(true, false, xml, writable, Scanner.PatternError, threshold, durations)
              == Failure(ScanFailed(PatternFailed))
    ensures ValidateRingtonesPlist(false, Scanner.PatternError, threshold, durations, sha256, stored, renderTime)
              == Failure(CatalogNotFound)
    ensures LegacyValidate(false, Scanner.PatternError, threshold, durations, stored, renderTime)
              == Failure(ScanFailed(PatternFailed))
  {
  }

  /** Validating a freshly written legacy catalog against an unchanged
      directory reports nothing. */
  lemma LegacyWriteThenValidate(fileExists: bool, overwrite: bool, xml: bool, writable: bool,
                                listing: Scanner.Listing, threshold: U16, durations: map<string, real>,
                                renderTime: real -> string)
    requires LegacyWrite(fileExists, overwrite, xml, writable, listing, threshold, durations).Success?
    ensures var w := LegacyWrite(fileExists, overwrite, xml, writable, listing, threshold, durations);
      LegacyValidate(true, listing, threshold, durations, Some(w.value.catalog), renderTime) == Success(map[])
  {
    DiffSelf(LegacyScan(listing, threshold, durations).value, renderTime);
  }
}
