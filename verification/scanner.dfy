/** The directory scan (`tones_in_directory` in src/list_tones.rs): glob the
    `.m4r` files, sort them, read each duration, classify, synthesize the
    identity, and collect the records keyed by file name.

    The glob, the audio reader and SHA-256 are collaborators outside the
    model: the glob's output is the `Listing` argument, the reader is the
    `durations` map (a file absent from it cannot be read), and SHA-256 is
    the `sha256` function argument. */
module Scanner {
  import opened Wrappers
  import opened Data
  import opened Identity
  import opened Ordering

  /** One item of the glob iterator: a match, named by its file name (every
      match lies in the scanned directory), or a per-entry error. */
  datatype GlobEntry = Match(fileName: string) | EntryError

  /** The glob result: a malformed pattern, or the entries it yields. */
  datatype Listing = PatternError | Matches(entries: seq<GlobEntry>)

  /** Why a scan stops: the pattern is malformed, or a matched file's
      duration cannot be read. */
  datatype ScanError = BadPattern | Unreadable(fileName: string)

  /** A tone is an alert `Tone` when strictly shorter than the threshold
      (the threshold is a `u16`, converted exactly to a float). */
  function Classify(duration: real, threshold: U16): (kind: MediaKind)
    ensures kind == Ringtone <==> threshold as real <= duration
  {
    if duration < threshold as real then MediaKind.Tone else Ringtone
  }

  /** The boundary belongs to ringtones; a longer sound never becomes an
      alert where a shorter one is not, nor a lower threshold where a
      higher one is not. */
  lemma ClassifyOrder(d1: real, d2: real, t1: U16, t2: U16)
    ensures Classify(t1 as real, t1) == Ringtone
    ensures d1 <= d2 && Classify(d2, t1) == MediaKind.Tone ==> Classify(d1, t1) == MediaKind.Tone
    ensures t1 <= t2 && Classify(d1, t1) == MediaKind.Tone ==> Classify(d1, t2) == MediaKind.Tone
  {
  }

  /** The classifications the repository's tests expect for the four example
      files (0.244 s, 1.741 s, 11.19 s, 14.943 s) at thresholds 10, 1 and 12. */
  lemma ClassifyFixtures()
    ensures [Classify(0.244, 10), Classify(1.741, 10), Classify(11.19, 10), Classify(14.943, 10)]
         == [MediaKind.Tone, MediaKind.Tone, Ringtone, Ringtone]
    ensures [Classify(0.244, 1), Classify(1.741, 1), Classify(11.19, 1), Classify(14.943, 1)]
         == [MediaKind.Tone, Ringtone, Ringtone, Ringtone]
    ensures [Classify(0.244, 12), Classify(1.741, 12), Classify(11.19, 12), Classify(14.943, 12)]
         == [MediaKind.Tone, MediaKind.Tone, MediaKind.Tone, Ringtone]
  {
  }

  /** The index of the last `.` among the first `end` characters, if any. */
  function LastDotBefore(s: string, end: nat): (r: Option<nat>)
    requires end <= |s|
    ensures r.Some? ==> r.value < end && s[r.value] == '.'
    ensures r.Some? ==> forall j :: r.value < j < end ==> s[j] != '.'
    ensures r.None? ==> forall j :: 0 <= j < end ==> s[j] != '.'
  {
    if end == 0 then None
    else if s[end - 1] == '.' then Some(end - 1)
    else LastDotBefore(s, end - 1)
  }

  /** The index of the last `.` in a file name, if any. */
  function LastDot(s: string): (r: Option<nat>)
    ensures r.Some? ==> r.value < |s| && s[r.value] == '.'
    ensures r.Some? ==> forall j :: r.value < j < |s| ==> s[j] != '.'
    ensures r.None? ==> forall j :: 0 <= j < |s| ==> s[j] != '.'
  {
    LastDotBefore(s, |s|)
  }

  /** `Path::file_stem`: the name before its last `.`; a name without a dot,
      a name whose only dot leads it (such as `.m4r`), and `..` are kept
      whole. */
  function FileStem(fileName: string): (stem: string)
    ensures stem <= fileName
    ensures |stem| < |fileName| ==>
              && 0 < |stem| && fileName[|stem|] == '.'
              && forall j :: |stem| < j < |fileName| ==> fileName[j] != '.'
    ensures stem == fileName <==> fileName == ".." || forall j :: 0 < j < |fileName| ==> fileName[j] != '.'
  {
    if fileName == ".." then fileName
    else match LastDot(fileName)
      case None => fileName
      case Some(i) => if i == 0 then fileName else fileName[..i]
  }

  /** The stem of `base.m4r` is `base`, for every non-empty `base`; the file
      named just `.m4r` keeps its whole name. */
  lemma StemOfM4r(base: string)
    ensures base != [] ==> FileStem(base + ".m4r") == base
    ensures FileStem(".m4r") == ".m4r"
  {
    var name := base + ".m4r";
    var i := |base|;
    assert name[i] == '.';
    assert forall j :: i < j < |name| ==> name[j] != '.';
    assert name[..i] == base;
    assert LastDot(".m4r") == Some(0) by {
      assert ".m4r"[0] == '.';
    }
  }

  /** The file names of the successful glob entries, in glob order. */
  function OkNames(entries: seq<GlobEntry>): (names: seq<string>)
    ensures forall n :: n in names <==> Match(n) in entries
    ensures |names| <= |entries|
  {
    if entries == [] then []
    else
      var init := entries[..|entries| - 1];
      assert entries == init + [entries[|entries| - 1]];
      match entries[|entries| - 1]
      case Match(n) => OkNames(init) + [n]
      case EntryError => OkNames(init)
  }

  /** The record the scan builds for one file. PID and GUID are derived from
      the full file name, extension included, not from the stem. */
  function MakeTone(fileName: string, duration: real, threshold: U16, sha256: string -> HexDigest): (t: Tone)
    ensures t.name <= fileName
    ensures t.mediaKind == Ringtone <==> threshold as real <= duration
    ensures |t.guid| == 16 && t.guid == sha256(fileName)[48..]
    ensures t.pid < 10_000_000_000_000_000_000
  {
    Tone.Tone(
      name := FileStem(fileName),
      totalTime := duration,
      mediaKind := Classify(duration, threshold),
      protectedContent := false,
      pid := StringToPid(fileName, sha256),
      guid := StringToGuid(fileName, sha256))
  }

  /** The fields of a scanned record: the stem, the measured duration, the
      kind by threshold, never protected, and the digest-derived identity
      (16 hex characters of GUID, a PID of at most 19 digits). */
  lemma MakeToneFields(fileName: string, duration: real, threshold: U16, sha256: string -> HexDigest)
    ensures var t := MakeTone(fileName, duration, threshold, sha256);
      && t.name == FileStem(fileName)
      && t.totalTime == duration
      && (t.mediaKind == MediaKind.Tone <==> duration < threshold as real)
      && !t.protectedContent
      && |t.guid| == 16 && t.guid == sha256(fileName)[48..]
      && Some(t.pid) == PidFromDigest(sha256(fileName))
      && t.pid < 10_000_000_000_000_000_000
  {
  }

  /** `names[i]` is the first name of `names` whose duration cannot be read. */
  predicate FirstUnreadable(names: seq<string>, durations: map<string, real>, i: int)
  {
    && 0 <= i < |names|
    && names[i] !in durations
    && forall j :: 0 <= j < i ==> names[j] in durations
  }

  /** The loop over the sorted paths: read, classify and insert each file in
      turn; the first unreadable file aborts the whole scan. */
  function InsertTones(names: seq<string>, acc: map<string, Tone>, threshold: U16,
                       durations: map<string, real>, sha256: string -> HexDigest)
    : (r: Result<map<string, Tone>, ScanError>)
    ensures r.Success? <==> forall i :: 0 <= i < |names| ==> names[i] in durations
    ensures r.Failure? ==>
              && r.error.Unreadable?
              && exists i :: FirstUnreadable(names, durations, i) && names[i] == r.error.fileName
  {
    if names == [] then Success(acc)
    else if names[0] !in durations then
      assert FirstUnreadable(names, durations, 0);
      Failure(Unreadable(names[0]))
    else
      var name := names[0];
      var r := InsertTones(names[1..], acc[name := MakeTone(name, durations[name], threshold, sha256)],
                           threshold, durations, sha256);
      if r.Failure? then
        var i :| FirstUnreadable(names[1..], durations, i) && names[1..][i] == r.error.fileName;
        assert FirstUnreadable(names, durations, i + 1);
        r
      else
        r
  }

  /** A completed loop holds the accumulator's records, overwritten by one
      freshly built record per scanned name. */
  lemma InsertTonesContents(names: seq<string>, acc: map<string, Tone>, threshold: U16,
                            durations: map<string, real>, sha256: string -> HexDigest)
    requires InsertTones(names, acc, threshold, durations, sha256).Success?
    ensures var m := InsertTones(names, acc, threshold, durations, sha256).value;
      && m.Keys == acc.Keys + (set n | n in names)
      && (forall k :: k in names ==> k in durations && m[k] == MakeTone(k, durations[k], threshold, sha256))
      && (forall k :: k in acc && k !in names ==> m[k] == acc[k])
  {
    InsertTonesKeys(names, acc, threshold, durations, sha256);
    InsertTonesRecords(names, acc, threshold, durations, sha256);
  }

  /** A successful loop reads its first name and continues with that
      name's record inserted. */
  lemma InsertTonesStep(names: seq<string>, acc: map<string, Tone>, threshold: U16,
                        durations: map<string, real>, sha256: string -> HexDigest)
    requires names != [] && InsertTones(names, acc, threshold, durations, sha256).Success?
    ensures names[0] in durations
    ensures InsertTones(names, acc, threshold, durations, sha256)
         == InsertTones(names[1..], acc[names[0] := MakeTone(names[0], durations[names[0]], threshold, sha256)],
                        threshold, durations, sha256)
  {
  }

  lemma {:induction false} InsertTonesKeys(names: seq<string>, acc: map<string, Tone>, threshold: U16,
                                           durations: map<string, real>, sha256: string -> HexDigest)
    requires InsertTones(names, acc, threshold, durations, sha256).Success?
    ensures InsertTones(names, acc, threshold, durations, sha256).value.Keys == acc.Keys + (set n | n in names)
  {
    if names != [] {
      InsertTonesStep(names, acc, threshold, durations, sha256);
      var name, rest := names[0], names[1..];
      var acc' := acc[name := MakeTone(name, durations[name], threshold, sha256)];
      InsertTonesKeys(rest, acc', threshold, durations, sha256);
      assert (set n | n in names) == {name} + (set n | n in rest) by {
        assert names == [name] + rest;
      }
    }
  }

  lemma {:induction false} InsertTonesRecords(names: seq<string>, acc: map<string, Tone>, threshold: U16,
                                              durations: map<string, real>, sha256: string -> HexDigest)
    requires InsertTones(names, acc, threshold, durations, sha256).Success?
    ensures var m := InsertTones(names, acc, threshold, durations, sha256).value;
      && (forall k :: k in names ==> k in durations && k in m && m[k] == MakeTone(k, durations[k], threshold, sha256))
      && (forall k :: k in acc && k !in names ==> k in m && m[k] == acc[k])
  {
    if names != [] {
      InsertTonesStep(names, acc, threshold, durations, sha256);
      var name, rest := names[0], names[1..];
      var acc' := acc[name := MakeTone(name, durations[name], threshold, sha256)];
      InsertTonesRecords(rest, acc', threshold, durations, sha256);
      assert forall k :: k in names <==> k == name || k in rest by {
        assert names == [name] + rest;
      }
    }
  }

  /** A scan that fails on a sorted sequence fails on the least unreadable
      name: every strictly smaller name can be read. */
  lemma FirstUnreadableIsLeast(sorted: seq<string>, durations: map<string, real>, i: int, n: string)
    requires Sorted(sorted) && FirstUnreadable(sorted, durations, i)
    requires n in sorted && StrLt(n, sorted[i])
    ensures n in durations
  {
    var j :| 0 <= j < |sorted| && sorted[j] == n;
    if j >= i {
      if j > i {
        StrLeAntisymmetric(n, sorted[i]);
      }
      assert false;
    }
  }

  lemma LeastUnreadable(sorted: seq<string>, durations: map<string, real>, name: string)
    requires Sorted(sorted)
    requires exists i :: FirstUnreadable(sorted, durations, i) && sorted[i] == name
    ensures name in sorted && name !in durations
    ensures forall n :: n in sorted && StrLt(n, name) ==> n in durations
  {
    var i :| FirstUnreadable(sorted, durations, i) && sorted[i] == name;
    forall n | n in sorted && StrLt(n, name)
      ensures n in durations
    {
      FirstUnreadableIsLeast(sorted, durations, i, n);
    }
  }

  /** Sorting keeps exactly the names it was given. */
  lemma SortKeepsMembers(names: seq<string>)
    ensures forall n :: n in Sort(names) <==> n in names
  {
    var sorted := Sort(names);
    forall n ensures n in sorted <==> n in names {
      assert n in sorted <==> n in multiset(sorted);
      assert n in names <==> n in multiset(names);
    }
  }

  /** `tones_in_directory`: the sorted `Ok` entries, each read, classified
      and keyed by its file name; `Err` entries are skipped. */
  function TonesInDirectory(listing: Listing, threshold: U16, durations: map<string, real>,
                            sha256: string -> HexDigest)
    : (r: Result<map<string, Tone>, ScanError>)
    ensures listing.PatternError? ==> r == Failure(BadPattern)
    ensures listing.Matches? ==>
              (r.Success? <==> forall n :: Match(n) in listing.entries ==> n in durations)
    ensures r.Success? ==> listing.Matches? && r.value.Keys == set e | e in listing.entries && e.Match? :: e.fileName
    ensures r.Success? ==> forall k :: k in r.value ==>
              k in durations && r.value[k] == MakeTone(k, durations[k], threshold, sha256)
    ensures listing.Matches? && r.Failure? ==>
              && r.error.Unreadable?
              && Match(r.error.fileName) in listing.entries
              && r.error.fileName !in durations
              && forall n :: Match(n) in listing.entries && StrLt(n, r.error.fileName) ==> n in durations
  {
    match listing
    case PatternError => Failure(BadPattern)
    case Matches(entries) =>
      var names := OkNames(entries);
      SortKeepsMembers(names);
      var r := InsertTones(Sort(names), map[], threshold, durations, sha256);
      if r.Failure? then
        LeastUnreadable(Sort(names), durations, r.error.fileName);
        r
      else
        InsertTonesContents(Sort(names), map[], threshold, durations, sha256);
        r
  }

  /** The scan does not depend on the order (or the errors) of the glob's
      entries: two listings with the same matched names give the same
      result, the same failing name included, because the names are sorted
      before they are read. */
  lemma ScanIgnoresGlobOrder(l1: Listing, l2: Listing, threshold: U16, durations: map<string, real>,
                             sha256: string -> HexDigest)
    requires l1.Matches? && l2.Matches?
    requires forall n :: Match(n) in l1.entries <==> Match(n) in l2.entries
    ensures TonesInDirectory(l1, threshold, durations, sha256) == TonesInDirectory(l2, threshold, durations, sha256)
  {
    var r1 := TonesInDirectory(l1, threshold, durations, sha256);
    var r2 := TonesInDirectory(l2, threshold, durations, sha256);
    if r1.Success? {
      SameRecordsSameMap(r1.value, r2.value, threshold, durations, sha256);
    } else {
      LeastUnreadableUnique(l1.entries, durations, r1.error.fileName, r2.error.fileName);
    }
  }

  /** Two maps holding the scan's record for each of the same keys agree. */
  lemma SameRecordsSameMap(m1: map<string, Tone>, m2: map<string, Tone>, threshold: U16,
                           durations: map<string, real>, sha256: string -> HexDigest)
    requires m1.Keys == m2.Keys
    requires forall k :: k in m1 ==> k in durations && m1[k] == MakeTone(k, durations[k], threshold, sha256)
    requires forall k :: k in m2 ==> k in durations && m2[k] == MakeTone(k, durations[k], threshold, sha256)
    ensures m1 == m2
  {
  }

  /** The least unreadable matched name is unique. */
  lemma LeastUnreadableUnique(entries: seq<GlobEntry>, durations: map<string, real>, n1: string, n2: string)
    requires Match(n1) in entries && n1 !in durations
    requires Match(n2) in entries && n2 !in durations
    requires forall n :: Match(n) in entries && StrLt(n, n1) ==> n in durations
    requires forall n :: Match(n) in entries && StrLt(n, n2) ==> n in durations
    ensures n1 == n2
  {
    StrLeTotal(n1, n2);
  }

  /** The four example files of the repository's tests. */
  const ExampleDurations: map<string, real> := map[
    "TP_Bottle_Pop.m4r" := 0.244,
    "SC_Strategic_Launch.m4r" := 1.741,
    "TP_HawkGrass.m4r" := 11.19,
    "OuterWilds_End_Times.m4r" := 14.943]

  /** The 10-second scan of the example directory, as the tests expect it,
      whatever order and glob errors the listing has: all four files keyed by
      file name, named by stem, alerts below ten seconds and ringtones above,
      none protected. */
  lemma ExampleScan(listing: Listing, sha256: string -> HexDigest)
    requires listing.Matches?
    requires forall n :: Match(n) in listing.entries <==> n in ExampleDurations
    ensures var r := TonesInDirectory(listing, 10, ExampleDurations, sha256);
      && r.Success?
      && r.value.Keys == ExampleDurations.Keys
      && ExampleRecords(r.value)
      && forall k :: k in r.value ==> r.value[k].totalTime == ExampleDurations[k] && !r.value[k].protectedContent
  {
    var r := TonesInDirectory(listing, 10, ExampleDurations, sha256);
    assert r.value.Keys == ExampleDurations.Keys by {
      forall n ensures n in r.value.Keys <==> n in ExampleDurations {
        assert n in r.value.Keys <==> Match(n) in listing.entries;
      }
    }
    forall k | k in r.value
      ensures r.value[k].totalTime == ExampleDurations[k] && !r.value[k].protectedContent
    {
      MakeToneFields(k, ExampleDurations[k], 10, sha256);
    }
    ExampleRecordsOf(r.value, sha256);
  }

  /** The names and kinds the 10-second test asserts for the four files. */
  predicate ExampleRecords(m: map<string, Tone>)
    requires m.Keys == ExampleDurations.Keys
  {
    && m["TP_Bottle_Pop.m4r"].name == "TP_Bottle_Pop"
    && m["TP_Bottle_Pop.m4r"].mediaKind == MediaKind.Tone
    && m["SC_Strategic_Launch.m4r"].name == "SC_Strategic_Launch"
    && m["SC_Strategic_Launch.m4r"].mediaKind == MediaKind.Tone
    && m["TP_HawkGrass.m4r"].name == "TP_HawkGrass"
    && m["TP_HawkGrass.m4r"].mediaKind == Ringtone
    && m["OuterWilds_End_Times.m4r"].name == "OuterWilds_End_Times"
    && m["OuterWilds_End_Times.m4r"].mediaKind == Ringtone
  }

  lemma ExampleRecordsOf(m: map<string, Tone>, sha256: string -> HexDigest)
    requires m.Keys == ExampleDurations.Keys
    requires forall k :: k in m ==> m[k] == MakeTone(k, ExampleDurations[k], 10, sha256)
    ensures ExampleRecords(m)
  {
    ExampleDurationValues();
    ClassifyFixtures();
    ExampleStemTPBottlePop();
    ExampleStemSCStrategicLaunch();
    ExampleStemTPHawkGrass();
    ExampleStemOuterWildsEndTimes();
  }

  lemma ExampleStemTPBottlePop()
    ensures FileStem("TP_Bottle_Pop.m4r") == "TP_Bottle_Pop"
  {
    assert "TP_Bottle_Pop" + ".m4r" == "TP_Bottle_Pop.m4r";
    StemOfM4r("TP_Bottle_Pop");
  }

  lemma ExampleStemSCStrategicLaunch()
    ensures FileStem("SC_Strategic_Launch.m4r") == "SC_Strategic_Launch"
  {
    assert "SC_Strategic_Launch" + ".m4r" == "SC_Strategic_Launch.m4r";
    StemOfM4r("SC_Strategic_Launch");
  }

  lemma ExampleStemTPHawkGrass()
    ensures FileStem("TP_HawkGrass.m4r") == "TP_HawkGrass"
  {
    assert "TP_HawkGrass" + ".m4r" == "TP_HawkGrass.m4r";
    StemOfM4r("TP_HawkGrass");
  }

  lemma ExampleStemOuterWildsEndTimes()
    ensures FileStem("OuterWilds_End_Times.m4r") == "OuterWilds_End_Times"
  {
    assert "OuterWilds_End_Times" + ".m4r" == "OuterWilds_End_Times.m4r";
    StemOfM4r("OuterWilds_End_Times");
  }

  lemma ExampleDurationValues()
    ensures ExampleDurations["TP_Bottle_Pop.m4r"] == 0.244
    ensures ExampleDurations["SC_Strategic_Launch.m4r"] == 1.741
    ensures ExampleDurations["TP_HawkGrass.m4r"] == 11.19
    ensures ExampleDurations["OuterWilds_End_Times.m4r"] == 14.943
  {
  }
}
