/** The shared record types of the tone catalog: one `Tone` per audio file,
    and the `Ringtones` catalog mapping file names to tones. */
module Data {
  import opened Wrappers

  /** Rust's `u16` (the alerts threshold) and `u64` (the PID). */
  type U16 = x: int | 0 <= x < 0x1_0000
  type U64 = x: int | 0 <= x < 0x1_0000_0000_0000_0000

  const U64_MAX: int := 0xFFFF_FFFF_FFFF_FFFF

  /** Whether a sound is a short alert tone or a ringtone. */
  datatype MediaKind = Tone | Ringtone

  /** The name the catalog stores for a kind (its serde rename). */
  function CatalogName(kind: MediaKind): (name: string)
    ensures KindOfCatalogName(name) == Some(kind)
  {
    match kind
    case Tone => "tone"
    case Ringtone => "ringtone"
  }

  /** Reading a kind back from its catalog name; any other text is rejected. */
  function KindOfCatalogName(s: string): (r: Option<MediaKind>)
    ensures r.Some? <==> s == "tone" || s == "ringtone"
  {
    if s == "tone" then Some(MediaKind.Tone)
    else if s == "ringtone" then Some(Ringtone)
    else None
  }

  /** Both directions of the catalog-name round trip. */
  lemma CatalogNameRoundTrip(kind: MediaKind, s: string)
    ensures KindOfCatalogName(CatalogName(kind)) == Some(kind)
    ensures KindOfCatalogName(s) == Some(kind) ==> CatalogName(kind) == s
  {
  }

  /** The derived `Debug` text of a kind, which the catalog differ prints. */
  function DebugName(kind: MediaKind): (name: string)
    ensures |name| == |CatalogName(kind)|
    ensures name[0] as int == CatalogName(kind)[0] as int - 32 && name[1..] == CatalogName(kind)[1..]
  {
    match kind
    case Tone => "Tone"
    case Ringtone => "Ringtone"
  }

  lemma DebugNameInjective(a: MediaKind, b: MediaKind)
    ensures DebugName(a) == DebugName(b) <==> a == b
  {
  }

  /** One catalog entry. Derived equality is field-wise over all six fields. */
  datatype Tone = Tone(
    name: string,
    totalTime: real,
    mediaKind: MediaKind,
    protectedContent: bool,
    pid: U64,
    guid: string)

  /** The whole catalog: file name (with extension) to tone. */
  datatype Ringtones = Ringtones(ringtones: map<string, Tone>)

  /** The six fields of a tone, in declaration order. */
  datatype Field = Name | TotalTime | Kind | ProtectedContent | Pid | Guid

  /** The fields in the fixed order the differ reports them. */
  const Fields: seq<Field> := [Name, TotalTime, Kind, ProtectedContent, Pid, Guid]

  /** The key under which the catalog stores a field (its serde rename). */
  function Key(f: Field): (key: string)
    ensures 1 <= |key| <= 17
    ensures 'A' <= key[0] <= 'Z'
  {
    match f
    case Name => "Name"
    case TotalTime => "Total Time"
    case Kind => "Media Kind"
    case ProtectedContent => "Protected Content"
    case Pid => "PID"
    case Guid => "GUID"
  }

  /** The field stored under a catalog key, if any. */
  function FieldOfKey(s: string): (r: Option<Field>)
    ensures r.Some? ==> Key(r.value) == s
  {
    if s == "Name" then Some(Name)
    else if s == "Total Time" then Some(TotalTime)
    else if s == "Media Kind" then Some(Kind)
    else if s == "Protected Content" then Some(ProtectedContent)
    else if s == "PID" then Some(Pid)
    else if s == "GUID" then Some(Guid)
    else None
  }

  /** The six keys are pairwise distinct, so each key names one field. */
  lemma KeysDistinct(f: Field, g: Field)
    ensures Key(f) == Key(g) <==> f == g
    ensures FieldOfKey(Key(f)) == Some(f)
  {
  }

  /** Whether two tones agree on one field. */
  predicate SameField(f: Field, a: Tone, b: Tone)
  {
    match f
    case Name => a.name == b.name
    case TotalTime => a.totalTime == b.totalTime
    case Kind => a.mediaKind == b.mediaKind
    case ProtectedContent => a.protectedContent == b.protectedContent
    case Pid => a.pid == b.pid
    case Guid => a.guid == b.guid
  }

  /** Tone equality is agreement on every one of the six fields. */
  lemma ToneEqualityIsFieldwise(a: Tone, b: Tone)
    ensures a == b <==> forall f: Field :: SameField(f, a, b)
  {
    if forall f: Field :: SameField(f, a, b) {
      assert SameField(Name, a, b) && SameField(TotalTime, a, b) && SameField(Kind, a, b);
      assert SameField(ProtectedContent, a, b) && SameField(Pid, a, b) && SameField(Guid, a, b);
    }
  }

  /** Catalog equality is equality of the name-to-tone maps, key by key. */
  lemma RingtonesEquality(a: Ringtones, b: Ringtones)
    ensures a == b <==> (a.ringtones.Keys == b.ringtones.Keys
                         && forall k :: k in a.ringtones ==> a.ringtones[k] == b.ringtones[k])
  {
    if a.ringtones.Keys == b.ringtones.Keys && forall k :: k in a.ringtones ==> a.ringtones[k] == b.ringtones[k] {
      assert a.ringtones == b.ringtones;
    }
  }
}
