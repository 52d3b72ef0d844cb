/** The catalog differ of `validate_ringtones_plist` (and of the legacy
    `Validate` command): for every freshly scanned file, either the catalog
    has no entry for it, or the fields whose rendered texts differ, in the
    fixed order Name, Total Time, Media Kind, Protected Content, PID, GUID.

    Rendering a float (Rust's `Display` for `f64`) is not modelled: it is the
    `renderTime` argument. Every other field is rendered exactly. Printing is
    not modelled either: the differ yields, per file name, the report it
    would print. */
module Differ {
  import opened Wrappers
  import opened Data
  import opened Decimal

  /** The text compared for one field: the string itself for Name and GUID,
      the `Debug` name of the kind, `true`/`false`, and the decimal PID. */
  function Render(f: Field, t: Tone, renderTime: real -> string): (text: string)
    ensures f == Kind ==> text == "Tone" || text == "Ringtone"
    ensures f == ProtectedContent ==> (text == "true" <==> t.protectedContent)
    ensures f == ProtectedContent ==> (text == "false" <==> !t.protectedContent)
    ensures f == Pid ==> IsDigits(text) && DecimalValue(text) == t.pid
  {
    match f
    case Name => t.name
    case TotalTime => renderTime(t.totalTime)
    case Kind => DebugName(t.mediaKind)
    case ProtectedContent => if t.protectedContent then "true" else "false"
    case Pid => DecimalRoundTrip(t.pid); DecimalText(t.pid)
    case Guid => t.guid
  }

  /** Every field but the total time is rendered injectively: two tones
      render a field alike exactly when they agree on it. */
  lemma RenderFaithful(f: Field, a: Tone, b: Tone, renderTime: real -> string)
    requires f != TotalTime
    ensures Render(f, a, renderTime) == Render(f, b, renderTime) <==> SameField(f, a, b)
  {
    match f
    case Kind => DebugNameInjective(a.mediaKind, b.mediaKind);
    case Pid => DecimalTextInjective(a.pid, b.pid);
    case _ =>
  }

  /** One reported difference: the field and its two rendered texts. */
  datatype Difference = Difference(field: Field, scanned: string, stored: string)

  /** What validation reports for one scanned file. */
  datatype Report = NotPresent | Differences(diffs: seq<Difference>)

  /** The position of a field in the reporting order. */
  function FieldIndex(f: Field): (i: nat)
    ensures i < |Fields| && Fields[i] == f
  {
    match f
    case Name => 0
    case TotalTime => 1
    case Kind => 2
    case ProtectedContent => 3
    case Pid => 4
    case Guid => 5
  }

  /** Fields strictly increasing in reporting order. */
  predicate InFieldOrder(fields: seq<Field>)
  {
    forall i, j :: 0 <= i < j < |fields| ==> FieldIndex(fields[i]) < FieldIndex(fields[j])
  }

  /** The fields of a list of differences. */
  function FieldsOf(diffs: seq<Difference>): (fields: seq<Field>)
    ensures |fields| == |diffs|
    ensures forall i :: 0 <= i < |diffs| ==> fields[i] == diffs[i].field
  {
    if diffs == [] then [] else [diffs[0].field] + FieldsOf(diffs[1..])
  }

  /** The nested `diff` helper applied to each of `fields` in turn: one
      entry per field whose two renderings differ, carrying both texts. */
  function FieldDiffs(fields: seq<Field>, scanned: Tone, stored: Tone, renderTime: real -> string)
    : (diffs: seq<Difference>)
    ensures |diffs| <= |fields|
    ensures forall i :: 0 <= i < |diffs| ==>
              && diffs[i].field in fields
              && diffs[i].scanned == Render(diffs[i].field, scanned, renderTime)
              && diffs[i].stored == Render(diffs[i].field, stored, renderTime)
              && diffs[i].scanned != diffs[i].stored
  {
    if fields == [] then []
    else
      var f := fields[0];
      var rest := FieldDiffs(fields[1..], scanned, stored, renderTime);
      var a, b := Render(f, scanned, renderTime), Render(f, stored, renderTime);
      if a != b then [Difference(f, a, b)] + rest else rest
  }

  /** One step of the field loop, seen through the listed fields: the
      first field is listed exactly when its renderings differ. */
  lemma FieldDiffsUnfold(fields: seq<Field>, scanned: Tone, stored: Tone, renderTime: real -> string)
    requires fields != []
    ensures FieldsOf(FieldDiffs(fields, scanned, stored, renderTime))
         == (if Render(fields[0], scanned, renderTime) != Render(fields[0], stored, renderTime)
             then [fields[0]] else [])
            + FieldsOf(FieldDiffs(fields[1..], scanned, stored, renderTime))
  {
    var rest := FieldDiffs(fields[1..], scanned, stored, renderTime);
    var f := fields[0];
    if Render(f, scanned, renderTime) != Render(f, stored, renderTime) {
      FieldsOfCons(Difference(f, Render(f, scanned, renderTime), Render(f, stored, renderTime)), rest);
    }
  }

  lemma FieldsOfCons(d: Difference, rest: seq<Difference>)
    ensures FieldsOf([d] + rest) == [d.field] + FieldsOf(rest)
  {
    assert ([d] + rest)[1..] == rest;
  }

  /** Only compared fields are listed. */
  lemma FieldDiffsWithin(fields: seq<Field>, scanned: Tone, stored: Tone, renderTime: real -> string)
    ensures forall g :: g in FieldsOf(FieldDiffs(fields, scanned, stored, renderTime)) ==> g in fields
  {
    var diffs := FieldDiffs(fields, scanned, stored, renderTime);
    forall g | g in FieldsOf(diffs) ensures g in fields {
      var k :| 0 <= k < |FieldsOf(diffs)| && FieldsOf(diffs)[k] == g;
      assert diffs[k].field == g;
    }
  }

  /** No field whose renderings differ is skipped. */
  lemma {:induction false} FieldDiffsComplete(fields: seq<Field>, scanned: Tone, stored: Tone,
                                              renderTime: real -> string, f: Field)
    requires f in fields && Render(f, scanned, renderTime) != Render(f, stored, renderTime)
    ensures f in FieldsOf(FieldDiffs(fields, scanned, stored, renderTime))
  {
    FieldDiffsUnfold(fields, scanned, stored, renderTime);
    if f != fields[0] {
      FieldDiffsComplete(fields[1..], scanned, stored, renderTime, f);
    }
  }

  /** The entries keep the order of `fields`. */
  lemma {:induction false} FieldDiffsOrdered(fields: seq<Field>, scanned: Tone, stored: Tone,
                                             renderTime: real -> string)
    requires InFieldOrder(fields)
    ensures InFieldOrder(FieldsOf(FieldDiffs(fields, scanned, stored, renderTime)))
  {
    if fields != [] {
      var f, later := fields[0], fields[1..];
      assert InFieldOrder(later);
      FieldDiffsOrdered(later, scanned, stored, renderTime);
      FieldDiffsUnfold(fields, scanned, stored, renderTime);
      FieldDiffsWithin(later, scanned, stored, renderTime);
      var fs := FieldsOf(FieldDiffs(later, scanned, stored, renderTime));
      forall g | g in fs ensures FieldIndex(f) < FieldIndex(g) {
        var m :| 0 <= m < |later| && later[m] == g;
        assert fields[m + 1] == g;
      }
      OrderedPrepend(f, fs);
    }
  }

  lemma OrderedPrepend(f: Field, fs: seq<Field>)
    requires InFieldOrder(fs)
    requires forall g :: g in fs ==> FieldIndex(f) < FieldIndex(g)
    ensures InFieldOrder([f] + fs)
  {
    forall i, j | 0 <= i < j < |[f] + fs|
      ensures FieldIndex(([f] + fs)[i]) < FieldIndex(([f] + fs)[j])
    {
      assert ([f] + fs)[j] == fs[j - 1];
      if i > 0 {
        assert ([f] + fs)[i] == fs[i - 1];
      }
    }
  }

  /** The differences between a scanned tone and its catalog entry. The
      source only collects them when the two records are unequal; that
      guard never changes the outcome (see `EqualityGuardRedundant`). */
  function ToneDiffs(scanned: Tone, stored: Tone, renderTime: real -> string): (diffs: seq<Difference>)
    ensures |diffs| <= 6
    ensures InFieldOrder(FieldsOf(diffs))
    ensures forall i :: 0 <= i < |diffs| ==>
              && diffs[i].scanned == Render(diffs[i].field, scanned, renderTime)
              && diffs[i].stored == Render(diffs[i].field, stored, renderTime)
              && diffs[i].scanned != diffs[i].stored
    ensures forall f: Field :: Render(f, scanned, renderTime) != Render(f, stored, renderTime)
                               <==> f in FieldsOf(diffs)
  {
    FieldsInOrder();
    FieldDiffsOrdered(Fields, scanned, stored, renderTime);
    AllFieldsDiffed(scanned, stored, renderTime);
    if scanned == stored then
      FieldDiffsOfEqual(Fields, scanned, renderTime);
      []
    else
      FieldDiffs(Fields, scanned, stored, renderTime)
  }

  lemma FieldsInOrder()
    ensures InFieldOrder(Fields)
  {
  }

  /** Over all six fields, exactly the fields whose renderings differ are
      listed. */
  lemma AllFieldsDiffed(scanned: Tone, stored: Tone, renderTime: real -> string)
    ensures forall f: Field :: Render(f, scanned, renderTime) != Render(f, stored, renderTime)
                               <==> f in FieldsOf(FieldDiffs(Fields, scanned, stored, renderTime))
  {
    var diffs := FieldDiffs(Fields, scanned, stored, renderTime);
    forall f: Field
      ensures Render(f, scanned, renderTime) != Render(f, stored, renderTime) <==> f in FieldsOf(diffs)
    {
      if Render(f, scanned, renderTime) != Render(f, stored, renderTime) {
        assert Fields[FieldIndex(f)] == f;
        FieldDiffsComplete(Fields, scanned, stored, renderTime, f);
      }
    }
  }

  /** A tone compared with itself yields no entry. */
  lemma {:induction false} FieldDiffsOfEqual(fields: seq<Field>, t: Tone, renderTime: real -> string)
    ensures FieldDiffs(fields, t, t, renderTime) == []
  {
    if fields != [] {
      FieldDiffsOfEqual(fields[1..], t, renderTime);
    }
  }

  /** Comparing without the `tone != entry` guard gives the same list. */
  lemma EqualityGuardRedundant(scanned: Tone, stored: Tone, renderTime: real -> string)
    ensures scanned == stored ==> FieldDiffs(Fields, scanned, stored, renderTime) == []
    ensures ToneDiffs(scanned, stored, renderTime) == FieldDiffs(Fields, scanned, stored, renderTime)
  {
    if scanned == stored {
      FieldDiffsOfEqual(Fields, scanned, renderTime);
    }
  }

  /** Whether the float rendering tells apart the two total times, as
      Rust's shortest round-trip `Display` for `f64` does. */
  predicate TimesRenderedApart(a: Tone, b: Tone, renderTime: real -> string)
  {
    renderTime(a.totalTime) == renderTime(b.totalTime) ==> a.totalTime == b.totalTime
  }

  /** When the two total times render apart, a field is reported exactly
      when the two tones disagree on it. */
  lemma ReportedFieldsAreDisagreements(scanned: Tone, stored: Tone, renderTime: real -> string, f: Field)
    requires TimesRenderedApart(scanned, stored, renderTime)
    ensures f in FieldsOf(ToneDiffs(scanned, stored, renderTime)) <==> !SameField(f, scanned, stored)
  {
    if f != TotalTime {
      RenderFaithful(f, scanned, stored, renderTime);
    }
  }

  /** Validation's outcome per scanned file: absent from the catalog, or the
      non-empty list of differing fields. Files that the catalog lists but
      the scan did not find are not reported, and files whose renderings all
      agree are not reported either. */
  function Diff(scanned: map<string, Tone>, stored: map<string, Tone>, renderTime: real -> string)
    : (report: map<string, Report>)
    ensures report.Keys <= scanned.Keys
    ensures forall name :: name in scanned && name !in stored ==> name in report && report[name] == NotPresent
    ensures forall name :: name in scanned && name in stored ==>
              (name in report <==> ToneDiffs(scanned[name], stored[name], renderTime) != [])
    ensures forall name :: name in report && name in stored ==>
              report[name] == Differences(ToneDiffs(scanned[name], stored[name], renderTime))
  {
    map name | name in scanned.Keys
                 && (name !in stored || ToneDiffs(scanned[name], stored[name], renderTime) != [])
      :: if name in stored then Differences(ToneDiffs(scanned[name], stored[name], renderTime)) else NotPresent
  }

  /** A catalog compared with itself reports nothing. */
  lemma DiffSelf(m: map<string, Tone>, renderTime: real -> string)
    ensures Diff(m, m, renderTime) == map[]
  {
    var report := Diff(m, m, renderTime);
    forall name | name in m
      ensures name !in report
    {
      EqualityGuardRedundant(m[name], m[name], renderTime);
    }
  }

  /** When the file's two total times render apart, exactly the scanned
      files that are missing from the catalog or whose entry differs are
      reported. */
  lemma DiffReportsExactly(scanned: map<string, Tone>, stored: map<string, Tone>,
                           renderTime: real -> string, name: string)
    requires name in scanned && name in stored ==> TimesRenderedApart(scanned[name], stored[name], renderTime)
    ensures name in Diff(scanned, stored, renderTime)
            <==> name in scanned && (name !in stored || scanned[name] != stored[name])
  {
    if name in scanned && name in stored {
      var a, b := scanned[name], stored[name];
      ToneEqualityIsFieldwise(a, b);
      if a != b {
        var f: Field :| !SameField(f, a, b);
        ReportedFieldsAreDisagreements(a, b, renderTime, f);
      }
    }
  }

  /** A float rendering that conflates two durations hides the difference:
      the records differ but nothing is reported. */
  lemma ConflatedTimeUnreported(t: Tone, renderTime: real -> string)
    requires renderTime(t.totalTime) == renderTime(t.totalTime + 1.0)
    ensures var other := t.(totalTime := t.totalTime + 1.0);
      && other != t
      && Diff(map["x" := other], map["x" := t], renderTime) == map[]
  {
    var other := t.(totalTime := t.totalTime + 1.0);
    var d := ToneDiffs(other, t, renderTime);
    forall f: Field ensures f !in FieldsOf(d) {
      if f != TotalTime {
        RenderFaithful(f, other, t, renderTime);
      }
    }
  }

  /** The quoted key, right-aligned in a 21-character column (`{:>21}`). */
  function KeyColumn(f: Field): (column: string)
    ensures |column| == 21
    ensures |Key(f)| <= 17
    ensures column[19 - |Key(f)|..] == "\"" + Key(f) + "\""
    ensures forall i :: 0 <= i < 19 - |Key(f)| ==> column[i] == ' '
  {
    var quoted := "\"" + Key(f) + "\"";
    assert |Key(f)| <= 17;
    seq(21 - |quoted|, _ => ' ') + quoted
  }

  /** The printed line of one difference: key column, then both texts. */
  function DifferenceLine(d: Difference): (line: string)
    ensures |line| == 21 + 1 + |d.scanned| + 4 + |d.stored|
    ensures line[..21] == KeyColumn(d.field)
    ensures line[21..] == " " + d.scanned + " != " + d.stored
  {
    KeyColumn(d.field) + " " + d.scanned + " != " + d.stored
  }

  /** Distinct fields have distinct key columns, so a printed line names its
      field unambiguously. */
  lemma KeyColumnInjective(f: Field, g: Field)
    ensures KeyColumn(f) == KeyColumn(g) <==> f == g
  {
    if f != g {
      var cf, cg := KeyColumn(f), KeyColumn(g);
      var qf, qg := "\"" + Key(f) + "\"", "\"" + Key(g) + "\"";
      assert |Key(f)| <= 17 && |Key(g)| <= 17;
      assert cf[21 - |qf|..] == qf;
      assert cg[21 - |qg|..] == qg;
      KeysDistinct(f, g);
      if |qf| == |qg| {
        assert qf[1..|qf| - 1] == Key(f);
        assert qg[1..|qg| - 1] == Key(g);
      } else if |qf| < |qg| {
        assert cg[21 - |qg|] == '"' && cf[21 - |qg|] == ' ';
      } else {
        assert cf[21 - |qf|] == '"' && cg[21 - |qf|] == ' ';
      }
    }
  }
}
