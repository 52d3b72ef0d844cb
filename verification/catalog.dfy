/** Writing and validating the `Ringtones.plist` catalog
    (src/ringtones_plist.rs). Both operations check the catalog file's
    existence before they scan the directory.

    The file system is reduced to what the operations observe: whether the
    catalog file exists, whether writing it succeeds, and the catalog that
    reading it yields (`None` when it cannot be read or decoded). The plist
    encoding itself is not modelled. */
module Catalog {
  import opened Wrappers
  import opened Data
  import opened Identity
  import opened Scanner
  import opened Differ

  /** The two encodings `plist` can write. */
  datatype PlistFormat = Xml | Binary

  /** Why writing or validating stops. `S` is the scan's own error. */
  datatype CatalogError<S> =
    | CatalogExists       // the file exists and overwriting was not asked for
    | CatalogNotFound     // validation needs an existing file
    | ScanFailed(cause: S)
    | CatalogUnreadable   // the existing file does not decode as a catalog
    | WriteFailed         // the file cannot be written

  /** What a successful write puts on disk. */
  datatype Written = Written(format: PlistFormat, catalog: Ringtones)

  /** `write_ringtones_plist`: refuse to replace an existing file unless
      `overwrite`, then scan, then write the catalog of the scanned tones in
      the chosen encoding. */
  function WriteRingtonesPlist(fileExists: bool, overwrite: bool, xml: bool, writable: bool,
                               listing: Listing, threshold: U16, durations: map<string, real>,
                               sha256: string -> HexDigest)
    : (r: Result<Written, CatalogError<ScanError>>)
    ensures r == Failure(CatalogExists) <==> fileExists && !overwrite
    ensures r.Success? <==>
              && (!fileExists || overwrite)
              && TonesInDirectory(listing, threshold, durations, sha256).Success?
              && writable
    ensures r.Success? ==>
              && r.value.catalog.ringtones == TonesInDirectory(listing, threshold, durations, sha256).value
              && (r.value.format == Xml <==> xml)
    ensures r.Failure? && r.error.ScanFailed? ==>
              && (!fileExists || overwrite)
              && TonesInDirectory(listing, threshold, durations, sha256) == Failure(r.error.cause)
  {
    if fileExists && !overwrite then Failure(CatalogExists)
    else
      match TonesInDirectory(listing, threshold, durations, sha256)
      case Failure(e) => Failure(ScanFailed(e))
      case Success(tones) =>
        if !writable then Failure(WriteFailed)
        else Success(Written(if xml then Xml else Binary, Ringtones(tones)))
  }

  /** `validate_ringtones_plist`: require the file, scan, read the catalog,
      then report every scanned file that is missing or differs. */
  function ValidateRingtonesPlist(fileExists: bool, listing: Listing, threshold: U16,
                                  durations: map<string, real>, sha256: string -> HexDigest,
                                  stored: Option<Ringtones>, renderTime: real -> string)
    : (r: Result<map<string, Report>, CatalogError<ScanError>>)
    ensures r == Failure(CatalogNotFound) <==> !fileExists
    ensures r.Success? <==>
              && fileExists
              && TonesInDirectory(listing, threshold, durations, sha256).Success?
              && stored.Some?
    ensures r.Success? ==>
              r.value == Diff(TonesInDirectory(listing, threshold, durations, sha256).value,
                              stored.value.ringtones, renderTime)
    ensures r.Failure? && r.error.ScanFailed? ==>
              fileExists && TonesInDirectory(listing, threshold, durations, sha256) == Failure(r.error.cause)
  {
    if !fileExists then Failure(CatalogNotFound)
    else
      match TonesInDirectory(listing, threshold, durations, sha256)
      case Failure(e) => Failure(ScanFailed(e))
      case Success(tones) =>
        match stored
        case None => Failure(CatalogUnreadable)
        case Some(catalog) => Success(Diff(tones, catalog.ringtones, renderTime))
  }

  /** Validating a freshly written catalog against the same directory
      reports nothing, whatever the float rendering. */
  lemma WriteThenValidate(fileExists: bool, overwrite: bool, xml: bool, writable: bool,
                          listing: Listing, threshold: U16, durations: map<string, real>,
                          sha256: string -> HexDigest, renderTime: real -> string)
    requires WriteRingtonesPlist(fileExists, overwrite, xml, writable, listing, threshold, durations, sha256).Success?
    ensures var w := WriteRingtonesPlist(fileExists, overwrite, xml, writable, listing, threshold, durations, sha256);
      ValidateRingtonesPlist(true, listing, threshold, durations, sha256, Some(w.value.catalog), renderTime)
        == Success(map[])
  {
    var tones := TonesInDirectory(listing, threshold, durations, sha256).value;
    DiffSelf(tones, renderTime);
  }

  /** Re-validating with another threshold reports exactly the files whose
      classification the threshold change flips, each with the single
      difference of its media kind. */
  lemma ThresholdChangeReport(fileExists: bool, overwrite: bool, xml: bool, writable: bool,
                              listing: Listing, t1: U16, t2: U16, durations: map<string, real>,
                              sha256: string -> HexDigest, renderTime: real -> string)
    requires WriteRingtonesPlist(fileExists, overwrite, xml, writable, listing, t1, durations, sha256).Success?
    ensures var catalog := WriteRingtonesPlist(fileExists, overwrite, xml, writable, listing, t1, durations, sha256)
                             .value.catalog.ringtones;
            var r := ValidateRingtonesPlist(true, listing, t2, durations, sha256, Some(Ringtones(catalog)), renderTime);
      && r.Success?
      && (forall name :: name in r.value <==>
            name in catalog && Classify(durations[name], t1) != Classify(durations[name], t2))
      && (forall name :: name in r.value ==>
            r.value[name] == Differences([Difference(Kind, DebugName(Classify(durations[name], t2)),
                                                           DebugName(Classify(durations[name], t1)))]))
  {
    var m1 := TonesInDirectory(listing, t1, durations, sha256).value;
    var m2 := TonesInDirectory(listing, t2, durations, sha256).value;
    assert m1.Keys == m2.Keys;
    forall name | name in m2
      ensures ToneDiffs(m2[name], m1[name], renderTime) != [] <==>
                Classify(durations[name], t1) != Classify(durations[name], t2)
      ensures ToneDiffs(m2[name], m1[name], renderTime) != [] ==>
                ToneDiffs(m2[name], m1[name], renderTime)
                  == [Difference(Kind, DebugName(Classify(durations[name], t2)),
                                       DebugName(Classify(durations[name], t1)))]
    {
      RethresholdedTone(name, durations[name], t1, t2, sha256, renderTime);
    }
  }

  /** One file scanned under two thresholds: the records differ at most in
      their kind, and the differ lists exactly that. */
  lemma RethresholdedTone(name: string, duration: real, t1: U16, t2: U16,
                          sha256: string -> HexDigest, renderTime: real -> string)
    ensures var a, b := MakeTone(name, duration, t2, sha256), MakeTone(name, duration, t1, sha256);
            var k1, k2 := Classify(duration, t1), Classify(duration, t2);
      && (ToneDiffs(a, b, renderTime) != [] <==> k1 != k2)
      && (k1 != k2 ==> ToneDiffs(a, b, renderTime) == [Difference(Kind, DebugName(k2), DebugName(k1))])
  {
    var a, b := MakeTone(name, duration, t2, sha256), MakeTone(name, duration, t1, sha256);
    assert a.mediaKind == Classify(duration, t2) && b.mediaKind == Classify(duration, t1);
    assert a == b.(mediaKind := a.mediaKind);
    OnlyKindDiffers(a, b, renderTime);
  }

  /** Two tones that agree on everything but the kind: the differ lists the
      kind, and only the kind, exactly when the kinds differ. */
  lemma OnlyKindDiffers(a: Tone, b: Tone, renderTime: real -> string)
    requires a == b.(mediaKind := a.mediaKind)
    ensures ToneDiffs(a, b, renderTime) != [] <==> a.mediaKind != b.mediaKind
    ensures a.mediaKind != b.mediaKind ==>
              ToneDiffs(a, b, renderTime) == [Difference(Kind, DebugName(a.mediaKind), DebugName(b.mediaKind))]
  {
    var d := ToneDiffs(a, b, renderTime);
    if a.mediaKind != b.mediaKind {
      DebugNameInjective(a.mediaKind, b.mediaKind);
      OnlyKindListed(a, b, renderTime);
      SingleField(d, Kind);
      KindEntry(d, a, b, renderTime);
    }
  }

  /** A one-entry list for the kind carries the two `Debug` names. */
  lemma KindEntry(d: seq<Difference>, a: Tone, b: Tone, renderTime: real -> string)
    requires |d| == 1 && d[0].field == Kind
    requires d[0].scanned == Render(Kind, a, renderTime) && d[0].stored == Render(Kind, b, renderTime)
    ensures d == [Difference(Kind, DebugName(a.mediaKind), DebugName(b.mediaKind))]
  {
    assert d == [d[0]];
  }

  /** Records equal except in kind list no field but the kind. */
  lemma OnlyKindListed(a: Tone, b: Tone, renderTime: real -> string)
    requires a == b.(mediaKind := a.mediaKind)
    ensures forall g :: g in FieldsOf(ToneDiffs(a, b, renderTime)) ==> g == Kind
  {
    forall g | g in FieldsOf(ToneDiffs(a, b, renderTime)) ensures g == Kind {
      if g != Kind {
        RendersAgreeOffKind(a, b, renderTime, g);
      }
    }
  }

  lemma RendersAgreeOffKind(a: Tone, b: Tone, renderTime: real -> string, g: Field)
    requires a == b.(mediaKind := a.mediaKind) && g != Kind
    ensures Render(g, a, renderTime) == Render(g, b, renderTime)
  {
  }

  /** A list in field order that lists only `f`, and lists it, has exactly
      one entry. */
  lemma {:induction false} SingleField(d: seq<Difference>, f: Field)
    requires InFieldOrder(FieldsOf(d))
    requires f in FieldsOf(d)
    requires forall g :: g in FieldsOf(d) ==> g == f
    ensures |d| == 1 && d[0].field == f
  {
    var fs := FieldsOf(d);
    assert fs[0] in fs;
    forall k | 0 <= k < |fs|
      ensures fs[k] == f
    {
      assert fs[k] in fs;
    }
    if 2 <= |d| {
      assert false;
    }
  }
}
