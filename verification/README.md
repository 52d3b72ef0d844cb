# ioscustomringtones — tone inventory model

This project models the core of `ioscustomringtones`, a tool that builds the
`Ringtones.plist` catalog an iPhone reads for custom ringtones and alert
tones. It also checks an existing catalog against the `.m4r` files in the
tones directory. The model covers five pieces:

- **Identity synthesis** (`string_to_pid`, `string_to_guid`). Each file name
  gets a 16-character GUID and a 19-digit PID, both derived from the
  SHA-256 hex digest of the name.
- **Classification and the directory scan** (`tones_in_directory`). The
  `.m4r` matches are sorted and each is read. A file is an alert `Tone` when
  it is strictly shorter than the threshold, otherwise a `Ringtone`. The
  records are keyed by file name.
- **The catalog differ** inside `validate_ringtones_plist`. For every
  scanned file it reports either that the catalog lacks it, or the fields
  whose rendered texts differ, in the fixed field order.
- **The existence gates** of `write_ringtones_plist` and
  `validate_ringtones_plist`.
- **The legacy scheme** still wired into the command-line entry point
  (`directory_tones` and the `Write`/`Validate` commands in `src/main.rs`).
  It derives PID and GUID from the position in the glob iterator, does not
  sort, and scans before it looks at the catalog file.

Modules follow the source:

- `Data` covers `src/data.rs`.
- `Decimal` covers Rust's decimal `Display` and `parse::<u64>`.
- `Identity` covers the two identity functions.
- `Ordering` covers the path order of `sort_unstable`.
- `Scanner` covers `tones_in_directory`.
- `Differ` covers the comparison.
- `Catalog` covers `src/ringtones_plist.rs`.
- `Legacy` covers `src/main.rs`.

Collaborators that the model does not contain become parameters:

- SHA-256 (FIPS 180-4) is a function `string -> HexDigest`. It may be any
  function that yields 64 lowercase hex characters.
- The audio reader is a map from file name to duration in seconds. A file
  absent from the map cannot be read.
- Rust's `Display` for `f64` is a function `real -> string`.
- The glob is its output: a malformed pattern, or a sequence of entries,
  each a match (named by its file name) or an error.
- The file system is reduced to booleans: the catalog file exists, writing
  succeeds. The catalog read back is an `Option` (`None` when it does not
  decode).

Every `panic!`, `expect` and `unwrap` that can fire becomes an error value
of a `Result`.

The PID is built from the decimal ASCII codes of the characters of the hex
digest *text*, not from the digest's raw bytes. The characters `0`–`9` and
`a`–`c` (codes 48–57 and 97–99) contribute two digits each. The characters
`d`–`f` (codes 100–102) contribute three. The digit string of a digest
therefore has 128 to 192 digits, and the last 19 of them come from the
digest's last ten characters. Consequences:

- The PID is determined by the GUID.
- The four PID fixtures of the repository's tests follow from the four GUID
  fixtures alone, so SHA-256 never has to be evaluated.
- The `unwrap`s in `string_to_pid` cannot fail: nineteen digits are always
  available, and any 19-digit value is below 2^64.

The sort also decides which unreadable file a failing scan reports: the
least one in path order (`Scanner.TonesInDirectory`).

## Model

| member | source | states |
|---|---|---|
| `Data.KindOfCatalogName` | src/data.rs:25-31 | exactly the two serde names `tone` and `ringtone` name a media kind; every other text is rejected |
| `Data.CatalogName` | src/data.rs:25-31 | the serde name of a kind reads back as that kind |
| `Data.DebugName` | src/data.rs:25-31 | the derived `Debug` text of a kind is its serde name with the first letter capitalised (`Tone`, `Ringtone`) |
| `Data.CatalogNameRoundTrip` | src/data.rs:25-31 | kind → catalog name → kind is the identity, and a name that reads as a kind is that kind's name |
| `Data.DebugNameInjective` | src/data.rs:25 | the derived `Debug` texts `Tone`/`Ringtone` that the differ prints tell the two kinds apart |
| `Data.FieldOfKey` | src/data.rs:11-22 | a catalog key that names a field is that field's serde key |
| `Data.KeysDistinct` | src/data.rs:11-22 | the six catalog keys are pairwise distinct, and each key reads back as its own field |
| `Data.Key` | src/data.rs:11-22 | every catalog key is non-empty, starts with a capital letter, and has at most 17 characters, so its quoted form fits the differ's 21-character column |
| `Data.ToneEqualityIsFieldwise` | src/data.rs:9-23 | derived `PartialEq` on tones holds exactly when all six fields agree |
| `Data.RingtonesEquality` | src/data.rs:3-7 | two catalogs are equal exactly when they have the same file names and equal tones under each |
| `Decimal.DecimalRoundTrip` | src/list_tones.rs:82-84 | reading back the decimal text of a number yields the number |
| `Decimal.DecimalText` | src/list_tones.rs:83 | the decimal text of a number (`to_string`, also `{}` at src/ringtones_plist.rs:90-91) is non-empty, all digits, and has no leading zero unless the number is zero |
| `Decimal.DecimalTextInjective` | src/ringtones_plist.rs:87-92 | distinct PIDs have distinct decimal texts, so the PID comparison by text is exact |
| `Decimal.ParseU64` | src/list_tones.rs:88 | `parse::<u64>` succeeds only on digits or on `+` followed by digits; both forms parse to their value when it is at most 2^64−1; empty text, a lone `+` and larger values are errors |
| `Decimal.ParseDecimalText` | src/list_tones.rs:88 | the decimal text of any 64-bit value parses back to it |
| `Decimal.ParseNineteenDigits` | src/list_tones.rs:87-88 | any nineteen digits parse as a `u64`, to a value below 10^19 |
| `Identity.NthBack` | src/list_tones.rs:87 | `nth_back(n)` finds a character exactly when the text has more than `n` characters, and it is `n + 1` from the end |
| `Identity.HexCharCodeLength` | src/list_tones.rs:82-84 | a hex character's code is two decimal digits for `0`–`9` and `a`–`c`, three for `d`–`f` |
| `Identity.DigitString` | src/list_tones.rs:81-84 | the digit string is all decimal digits, at least one per character of the digest text |
| `Identity.DigitStringAppend` | src/list_tones.rs:82-84 | the digit string of a concatenation is the concatenation of the digit strings |
| `Identity.DigitStringShape` | src/list_tones.rs:81-84 | the digit string of `n` hex characters consists of digits only and has between `2n` and `3n` of them |
| `Identity.DigestDigitStringLength` | src/list_tones.rs:80-87 | a 64-character digest gives 128 to 192 digits, so `nth_back(18).unwrap()` never fails |
| `Identity.PidFromDigest` | src/list_tones.rs:86-89 | the parse of the last 19 digits always succeeds and is below 10^19 |
| `Identity.GuidFromDigest` | src/list_tones.rs:96-99 | the GUID is the digest's last 16 characters: 16 lowercase hex characters |
| `Identity.StringToPid` | src/list_tones.rs:79-90 | the PID of a file name is the digest-derived parse, never a panic, below 10^19 |
| `Identity.StringToGuid` | src/list_tones.rs:93-100 | the GUID of a file name is its digest's characters 48–63 |
| `Identity.PidIsLast19` | src/list_tones.rs:86-88 | the PID is the `u64` parse of exactly the last 19 digits of the digit string |
| `Identity.PidFromLastTen` | src/list_tones.rs:79-90 | the last 19 digits come from the digest's last ten characters alone |
| `Identity.PidDependsOnLastTen` | src/list_tones.rs:79-90 | digests agreeing on their last ten characters give equal PIDs |
| `Identity.EqualGuidsEqualPids` | src/list_tones.rs:79-100 | two file names with equal GUIDs have equal PIDs |
| `Identity.TenCharValue` | src/list_tones.rs:82-84 | the value of ten characters' digit string is their codes shifted in by two or three decimal places each |
| `Identity.PidModulo` | src/list_tones.rs:81-88 | the PID is the value of the last ten characters' digit string modulo 10^19 |
| `Identity.PidFromGuid` | src/list_tones.rs:79-100 | the PID computed from the GUID's last ten characters alone |
| `Identity.TenCodesFixtures` | src/list_tones.rs:234-237 | the code arithmetic of the four test GUIDs' tails gives the four test PIDs |
| `Identity.PidFixtureBottlePop` | src/list_tones.rs:234 | any digest ending in `9ff460f724da0761` gives PID 5550521009748555449 |
| `Identity.PidFixtureStrategicLaunch` | src/list_tones.rs:235 | any digest ending in `5231123621f82df3` gives PID 5049102565010010251 |
| `Identity.PidFixtureHawkGrass` | src/list_tones.rs:236 | any digest ending in `03461b80b136101d` gives PID 4898495154494849100 |
| `Identity.PidFixtureEndTimes` | src/list_tones.rs:237 | any digest ending in `72f93bb1f547113e` gives PID 9102535255494951101 |
| `Identity.NameFixtures` | src/list_tones.rs:228-251 | the PID and GUID tests agree: a SHA-256 giving the four test GUIDs for the four file names gives the four test PIDs |
| `Ordering.StrLeTotal` | src/list_tones.rs:25 | any two file names are comparable in path order |
| `Ordering.StrLeAntisymmetric` | src/list_tones.rs:25 | names that sort both ways are equal |
| `Ordering.StrLeTransitive` | src/list_tones.rs:25 | path order is transitive |
| `Ordering.Insert` | src/list_tones.rs:25 | inserting into a sorted sequence keeps it sorted and adds exactly that element |
| `Ordering.Sort` | src/list_tones.rs:25 | `sort_unstable` yields a sorted permutation of the paths |
| `Ordering.SortedUnique` | src/list_tones.rs:25 | two sorted permutations of the same names are equal, so the unstable sort's result is fixed |
| `Ordering.SortedHeadsEqual` | src/list_tones.rs:25 | two sorted arrangements of the same non-empty names begin with the same name |
| `Scanner.Classify` | src/list_tones.rs:34-38 | a sound is a ringtone exactly when it lasts at least the threshold, and an alert tone otherwise |
| `Scanner.ClassifyOrder` | src/list_tones.rs:34-38 | a duration equal to the threshold is a ringtone; the alert class is closed under shorter durations and higher thresholds |
| `Scanner.ClassifyFixtures` | src/list_tones.rs:107-225 | 0.244, 1.741, 11.19 and 14.943 s classify as the tests expect at thresholds 10, 1 and 12 |
| `Scanner.LastDot` | src/list_tones.rs:45 | the index found is a `.` with no `.` after it; absent exactly when there is no `.` |
| `Scanner.FileStem` | src/list_tones.rs:45 | the stem is a prefix of the file name; when shorter, it is cut at the name's last `.`, which is not the first character; it is the whole name exactly for `..` and for names with no `.` after the first character |
| `Scanner.StemOfM4r` | src/list_tones.rs:45 | the stem of `base.m4r` is `base`; a file named `.m4r` keeps its whole name |
| `Scanner.OkNames` | src/list_tones.rs:13-23 | the collected paths are exactly the names of the `Ok` entries; `Err` entries are dropped |
| `Scanner.MakeTone` | src/list_tones.rs:42-52 | a scanned record is named by a prefix of the file name, is a ringtone exactly when it lasts at least the threshold, has the digest's last 16 hex characters as GUID, and has a PID below 10^19 |
| `Scanner.MakeToneFields` | src/list_tones.rs:40-52 | a record has the stem as name, the measured duration, the kind by strict threshold, no protection, and PID and GUID of the full file name |
| `Scanner.InsertTones` | src/list_tones.rs:27-53 | the loop completes exactly when every name can be read; otherwise it fails on the first unreadable name in loop order |
| `Scanner.InsertTonesContents` | src/list_tones.rs:42-52 | after the loop, each scanned name maps to its freshly built record and other keys keep their value |
| `Scanner.LeastUnreadable` | src/list_tones.rs:25-33 | on sorted names, the first unreadable name is unreadable and every smaller name can be read |
| `Scanner.SortKeepsMembers` | src/list_tones.rs:25 | sorting neither adds nor loses a path |
| `Scanner.TonesInDirectory` | src/list_tones.rs:10-56 | a bad pattern fails; the scan succeeds exactly when every matched file can be read; the keys are exactly the matched file names, each with its record; a failure names the least unreadable match |
| `Scanner.ScanIgnoresGlobOrder` | src/list_tones.rs:13-25 | listings with the same matched names give the same result, error included, whatever their order and `Err` entries |
| `Scanner.SameRecordsSameMap` | src/list_tones.rs:42-52 | two maps with the same keys holding the scan's records are equal |
| `Scanner.LeastUnreadableUnique` | src/list_tones.rs:25-33 | the least unreadable match is unique |
| `Scanner.ExampleScan` | src/list_tones.rs:107-148 | the 10-second test: whatever the listing's order, all four example files are keyed by file name with the expected stems, durations and kinds, none protected |
| `Differ.Render` | src/ringtones_plist.rs:68-98 | the Media Kind text is `Tone` or `Ringtone`; Protected Content renders `true`/`false` as the flag is set or not; the PID's text reads back as the PID |
| `Differ.RenderFaithful` | src/ringtones_plist.rs:68-98 | Name, Media Kind, Protected Content, PID and GUID render alike exactly when the two values are equal |
| `Differ.FieldDiffs` | src/ringtones_plist.rs:62-98 | each entry names a compared field and carries both rendered texts, which differ |
| `Differ.FieldDiffsComplete` | src/ringtones_plist.rs:62-67 | no compared field whose renderings differ is left out |
| `Differ.FieldDiffsOrdered` | src/ringtones_plist.rs:68-98 | the entries keep the order in which the fields are compared |
| `Differ.FieldDiffsOfEqual` | src/ringtones_plist.rs:62-67 | a tone compared with itself gives no entry |
| `Differ.AllFieldsDiffed` | src/ringtones_plist.rs:68-98 | over the six fields, exactly those whose renderings differ are listed |
| `Differ.ToneDiffs` | src/ringtones_plist.rs:60-98 | at most six entries, in the order Name, Total Time, Media Kind, Protected Content, PID, GUID, each with both differing texts; a field is listed exactly when its renderings differ |
| `Differ.EqualityGuardRedundant` | src/ringtones_plist.rs:61 | the `tone != entry` guard never changes the list |
| `Differ.ReportedFieldsAreDisagreements` | src/ringtones_plist.rs:68-98 | when the float rendering tells the two total times apart (as the shortest round-trip `Display` of `f64` does), a field is reported exactly when the two tones disagree on it |
| `Differ.Diff` | src/ringtones_plist.rs:56-112 | only scanned files are reported; a file missing from the catalog is "not present"; a present file is reported exactly when its difference list is non-empty, and with that list |
| `Differ.DiffSelf` | src/ringtones_plist.rs:56-112 | a catalog compared with itself reports nothing |
| `Differ.DiffReportsExactly` | src/ringtones_plist.rs:56-112 | when the file's two total times render apart, the file is reported exactly when it is missing from the catalog or its record differs |
| `Differ.ConflatedTimeUnreported` | src/ringtones_plist.rs:61-105 | when the float text conflates two durations, unequal records produce no report |
| `Differ.KeyColumn` | src/ringtones_plist.rs:64-65 | the column is 21 characters: spaces, then the key in double quotes, right-aligned (every key fits) |
| `Differ.DifferenceLine` | src/ringtones_plist.rs:65 | a printed difference is the field's key column, a space, the scanned text, ` != `, and the stored text |
| `Differ.KeyColumnInjective` | src/ringtones_plist.rs:64-65 | distinct fields print distinct key columns |
| `Catalog.WriteRingtonesPlist` | src/ringtones_plist.rs:9-38 | refuses exactly when the file exists without `overwrite`, before scanning; succeeds exactly when allowed, the scan succeeds and the file can be written; writes the scanned map in the chosen encoding |
| `Catalog.ValidateRingtonesPlist` | src/ringtones_plist.rs:40-113 | fails with "not found" exactly when the file is absent, before scanning; succeeds exactly when the scan and the read succeed, with the differ's report |
| `Catalog.WriteThenValidate` | src/ringtones_plist.rs:9-113 | validating a freshly written catalog against the same directory reports nothing |
| `Catalog.ThresholdChangeReport` | src/ringtones_plist.rs:40-113 | re-validating under another threshold reports exactly the files whose kind flips, each with the single Media Kind difference |
| `Catalog.RethresholdedTone` | src/ringtones_plist.rs:61-98 | one file scanned under two thresholds differs at most in its kind, and the differ lists exactly that |
| `Catalog.OnlyKindDiffers` | src/ringtones_plist.rs:61-98 | for two records equal except in kind, the differ reports something exactly when the kinds differ, and then only the kind, with both debug names |
| `Legacy.LegacyPid` | src/main.rs:254 | the PID is 4918251813855823052 plus the glob index, and the addition overflows a `u64` exactly above index 2^64−1−4918251813855823052 |
| `Legacy.LegacyGuid` | src/main.rs:255 | the GUID is the fixed 15-character prefix followed by digits that read back as two more than the glob index |
| `Legacy.LegacyTone` | src/main.rs:247-256 | the record's PID is the overflow-checked `LegacyPid` of its index, its GUID's digits read two more than the PID's offset from the base, its duration is the measured one, its kind follows the threshold, and it is never protected |
| `Legacy.LegacyGuidInjective` | src/main.rs:255 | distinct glob indices get distinct GUIDs |
| `Legacy.LegacyGuidLength` | src/main.rs:255 | only indices 0 to 7 give a 16-character GUID |
| `Legacy.DirectoryTones` | src/main.rs:229-261 | the enumerated loop completes exactly when no match is unreadable or overflows its PID; otherwise it fails at the first such entry, the unreadable file first |
| `Legacy.DirectoryTonesStep` | src/main.rs:229-233 | a successful loop consumes the first entry, match or error, and advances the index by one |
| `Legacy.DirectoryTonesKeys` | src/main.rs:247-257 | the keys are the matched file names, and other accumulated records are kept |
| `Legacy.DirectoryTonesRecord` | src/main.rs:229-257 | a name's record is built from the index of its last match in the glob order |
| `Legacy.LegacyScan` | src/main.rs:226-264 | a bad pattern fails; otherwise the loop's outcome from index 0 |
| `Legacy.LegacyIdentitiesDistinct` | src/main.rs:254-255 | distinct scanned files get distinct PIDs and GUIDs |
| `Legacy.EntryErrorShiftsIdentity` | src/main.rs:229-259 | an `Err` entry before a file still advances the index and shifts that file's PID and GUID |
| `Legacy.ReorderingChangesIdentity` | src/main.rs:229-255 | swapping two files in the glob order swaps their PIDs: each file takes the PID the other had, so a file's PID changes |
| `Legacy.LegacyWrite` | src/main.rs:89-120 | a scan failure wins over the existing-file refusal; the refusal happens exactly when the scan succeeds, the file exists and `overwrite` is not set |
| `Legacy.LegacyValidate` | src/main.rs:140-222 | a scan failure wins over the missing-file error; the report is the differ's, as the duplicate comparison at lines 160-221 is the same as the library's |
| `Legacy.CheckOrderDiffers` | src/main.rs:96-153 | with a malformed pattern, the legacy commands report the scan where the library functions report the catalog file |
| `Legacy.LegacyWriteThenValidate` | src/main.rs:89-222 | validating a freshly written legacy catalog against an unchanged directory reports nothing |

## Left out

- SHA-256 itself: it is the `sha256` parameter. The test GUIDs are taken as
  given, so the claim that SHA-256 yields them for the test file names is not
  checked.
- Reading audio durations (the `lofty` crate): it is the `durations` map.
  Durations are exact reals, so `u16 as f64` is exact. NaN, infinities and
  `-0.0` do not arise.
- Rust's `Display` for `f64`: it is the `renderTime` parameter. No float
  rounding is modelled.
- Differ.ReportedFieldsAreDisagreements and Differ.DiffReportsExactly: they
  assume that the two total times being compared render apart when they
  differ. That is the round-trip exactness of Rust's `f64` `Display`, which
  is not proved, because the float rendering is a parameter.
- Glob enumeration, path joins (`tones_directory`, `ringtones_plist`) and the
  `unwrap`s on non-UTF-8 paths. Every match is named by its file name, and all
  matches share one directory.
- Encoding and decoding the plist (XML or binary, via serde). A write yields
  the catalog and its format. A read is an `Option` of a catalog.
- Printing. `print_tones_in_directory`, the `List` command, the `found N
  files` lines and the panic messages are not modelled. The differ yields, per
  file name, the report it would print, and `Differ.DifferenceLine` gives the
  layout of one line.
- HashMap iteration order, which decides the order of the printed reports.
  The report is a map keyed by file name.
- Command-line parsing (clap) and the Python revision under
  `src/ioscustomringtones/`, which repeats the legacy scheme.
- Legacy.LegacyPid: an overflowing addition is an error, which is how a
  checked build panics. A release build's wrap-around is not modelled.
- The legacy GUID's `2 + index` is unbounded here. A `usize` overflow there
  would need more glob entries than memory can hold.
