/** Identity synthesis from a file name (`string_to_pid`, `string_to_guid`).
    SHA-256 (FIPS 180-4) is not modelled: it is a parameter of type
    `string -> HexDigest`, i.e. any function yielding 64 lowercase hex
    characters. The PID is built from the decimal ASCII codes of the hex
    characters of that digest text, not from the raw digest bytes. */
module Identity {
  import opened Wrappers
  import opened Data
  import opened Decimal

  predicate IsLowerHex(c: char)
  {
    '0' <= c <= '9' || 'a' <= c <= 'f'
  }

  predicate IsLowerHexString(s: string)
  {
    forall i :: 0 <= i < |s| ==> IsLowerHex(s[i])
  }

  /** The lowercase hex text of a SHA-256 digest. */
  type HexDigest = s: string | |s| == 64 && IsLowerHexString(s)
    witness seq(64, i => '0')

  /** `char_indices().nth_back(n)`: the index where the (n+1)-th character
      from the end starts, absent when the text is too short. */
  function NthBack(s: string, n: nat): (r: Option<nat>)
    ensures r.Some? <==> n < |s|
    ensures r.Some? ==> r.value + n + 1 == |s|
  {
    if n < |s| then Some(|s| - 1 - n) else None
  }

  /** Each byte of the digest text written as its decimal number, the
      numbers appended in order with no separator. Hex text is ASCII, so
      each byte is the character's code. */
  function DigitString(hash: string): (digits: string)
    ensures IsDigits(digits)
    ensures |hash| <= |digits|
  {
    if hash == [] then []
    else
      var init, code := DigitString(hash[..|hash| - 1]), DecimalText(hash[|hash| - 1] as nat);
      DigitsAppend(init, code);
      init + code
  }

  lemma {:induction false} DigitStringAppend(a: string, b: string)
    ensures DigitString(a + b) == DigitString(a) + DigitString(b)
  {
    if b == [] {
      assert a + b == a;
    } else {
      var b', c := b[..|b| - 1], b[|b| - 1];
      assert (a + b)[..|a + b| - 1] == a + b';
      assert (a + b)[|a + b| - 1] == c;
      DigitStringAppend(a, b');
      calc {
        DigitString(a + b);
        DigitString(a + b') + DecimalText(c as nat);
        DigitString(a) + DigitString(b') + DecimalText(c as nat);
        DigitString(a) + (DigitString(b') + DecimalText(c as nat));
        DigitString(a) + DigitString(b);
      }
    }
  }

  /** Characters 0-9 and a-c have codes 48-57 and 97-99 (two decimal
      digits); d-f have codes 100-102 (three decimal digits). */
  lemma HexCharCodeLength(c: char)
    requires IsLowerHex(c)
    ensures |DecimalText(c as nat)| == (if c <= 'c' then 2 else 3)
  {
    var n := c as nat;
    DecimalTextLength(n);
    if c <= '9' {
      assert 48 <= n <= 57;
    } else if c <= 'c' {
      assert 97 <= n <= 99;
    } else {
      assert 100 <= n <= 102;
    }
  }

  /** Each hex character contributes two or three digits, and only digits. */
  lemma {:induction false} DigitStringShape(hash: string)
    requires IsLowerHexString(hash)
    ensures 2 * |hash| <= |DigitString(hash)| <= 3 * |hash|
    ensures IsDigits(DigitString(hash))
  {
    if hash != [] {
      var h' := hash[..|hash| - 1];
      assert IsLowerHexString(h');
      DigitStringShape(h');
      HexCharCodeLength(hash[|hash| - 1]);
    }
  }

  /** The digit string of a 64-character digest has 128 to 192 digits, so
      the `nth_back(18)` in `string_to_pid` always finds a character. */
  lemma DigestDigitStringLength(hash: HexDigest)
    ensures 128 <= |DigitString(hash)| <= 192
    ensures NthBack(DigitString(hash), 18).Some?
  {
    DigitStringShape(hash);
  }

  /** `string_to_pid` after hashing: parse the last 19 characters of the
      digit string as a `u64`. `None` stands for a panicking `unwrap`. */
  function PidFromDigest(hash: HexDigest): (r: Option<U64>)
    ensures r.Some?
    ensures r.value < 10_000_000_000_000_000_000
  {
    var digits := DigitString(hash);
    DigestDigitStringLength(hash);
    DigitStringShape(hash);
    match NthBack(digits, 18)
    case None => None
    case Some(start) =>
      assert IsDigits(digits[start..]);
      ParseNineteenDigits(digits[start..]);
      ParseU64(digits[start..])
  }

  /** `string_to_guid` after hashing: the last 16 characters of the digest. */
  function GuidFromDigest(hash: HexDigest): (r: Option<string>)
    ensures r.Some?
    ensures r.value == hash[48..]
    ensures |r.value| == 16 && IsLowerHexString(r.value)
  {
    match NthBack(hash, 15)
    case None => None
    case Some(start) => Some(hash[start..])
  }

  /** The PID of a file name: its SHA-256 digest through `PidFromDigest`. */
  function StringToPid(fileName: string, sha256: string -> HexDigest): (pid: U64)
    ensures pid < 10_000_000_000_000_000_000
    ensures Some(pid) == PidFromDigest(sha256(fileName))
  {
    PidFromDigest(sha256(fileName)).value
  }

  /** The GUID of a file name: the last 16 hex characters of its digest. */
  function StringToGuid(fileName: string, sha256: string -> HexDigest): (guid: string)
    ensures |guid| == 16 && IsLowerHexString(guid)
    ensures guid == sha256(fileName)[64 - 16..]
  {
    GuidFromDigest(sha256(fileName)).value
  }

  /** The last 19 digits of a digit string, the window `string_to_pid` parses. */
  function Last19(digits: string): string
    requires 19 <= |digits|
  {
    digits[|digits| - 19..]
  }

  lemma PidIsLast19(hash: HexDigest)
    ensures 19 <= |DigitString(hash)|
    ensures PidFromDigest(hash) == ParseU64(Last19(DigitString(hash)))
  {
    DigestDigitStringLength(hash);
  }

  /** Prepending characters does not change the last 19 digits once the
      suffix alone provides 19 of them. */
  lemma Last19OfAppend(head: string, tail: string)
    requires 19 <= |DigitString(tail)|
    ensures 19 <= |DigitString(head + tail)|
    ensures Last19(DigitString(head + tail)) == Last19(DigitString(tail))
  {
    DigitStringAppend(head, tail);
    Last19OfConcat(DigitString(head), DigitString(tail));
  }

  lemma Last19OfConcat(a: string, b: string)
    requires 19 <= |b|
    ensures 19 <= |a + b|
    ensures Last19(a + b) == Last19(b)
  {
  }

  /** The PID is the parse of the last 19 digits of the digit string of the
      digest's last ten hex characters alone (those give at least 20 digits). */
  lemma PidFromLastTen(hash: HexDigest)
    ensures 19 <= |DigitString(hash[54..])|
    ensures PidFromDigest(hash) == ParseU64(Last19(DigitString(hash[54..])))
  {
    var head, tail := hash[..54], hash[54..];
    assert hash == head + tail;
    assert IsLowerHexString(tail);
    DigitStringShape(tail);
    Last19OfAppend(head, tail);
    PidIsLast19(hash);
  }

  /** Digests that agree on their last ten characters give the same PID. */
  lemma PidDependsOnLastTen(h1: HexDigest, h2: HexDigest)
    requires h1[54..] == h2[54..]
    ensures PidFromDigest(h1) == PidFromDigest(h2)
  {
    PidFromLastTen(h1);
    PidFromLastTen(h2);
  }

  /** Equal GUIDs imply equal PIDs: the GUID covers the last 16 characters. */
  lemma EqualGuidsEqualPids(name1: string, name2: string, sha256: string -> HexDigest)
    requires StringToGuid(name1, sha256) == StringToGuid(name2, sha256)
    ensures StringToPid(name1, sha256) == StringToPid(name2, sha256)
  {
    var h1, h2 := sha256(name1), sha256(name2);
    assert h1[54..] == h1[48..][6..];
    assert h2[54..] == h2[48..][6..];
    PidDependsOnLastTen(h1, h2);
  }

  /** The number a hex character appends to the digit string's value: its
      code, after shifting by the code's two or three decimal places. */
  function Shift(v: nat, c: char): nat
  {
    v * (if c <= 'c' then 100 else 1000) + c as nat
  }

  lemma DigitValueSnoc(s: string, c: char)
    requires IsLowerHex(c)
    ensures IsDigits(DigitString(s)) && IsDigits(DigitString(s + [c]))
    ensures DecimalValue(DigitString(s + [c])) == Shift(DecimalValue(DigitString(s)), c)
  {
    assert (s + [c])[..|s|] == s;
    DecimalValueAppend(DigitString(s), DecimalText(c as nat));
    DecimalRoundTrip(c as nat);
    HexCharCodeLength(c);
    assert Pow10(2) == 100 && Pow10(3) == 1000;
  }

  /** Arithmetic on the codes of ten characters, shifting in one at a time. */
  function TenCodes(t: string): nat
    requires |t| == 10
  {
    Shift(Shift(Shift(Shift(Shift(Shift(Shift(Shift(Shift(Shift(0,
      t[0]), t[1]), t[2]), t[3]), t[4]), t[5]), t[6]), t[7]), t[8]), t[9])
  }

  /** The value of the digit string of ten hex characters, as arithmetic on
      their codes alone. */
  lemma TenCharValue(t: string)
    requires |t| == 10 && IsLowerHexString(t)
    ensures IsDigits(DigitString(t))
    ensures DecimalValue(DigitString(t)) == TenCodes(t)
  {
    forall k | 0 <= k <= 10
      ensures IsDigits(DigitString(t[..k]))
    {
    }
    forall k | 1 <= k <= 10
      ensures DecimalValue(DigitString(t[..k])) == Shift(DecimalValue(DigitString(t[..k - 1])), t[k - 1])
    {
      assert t[..k] == t[..k - 1] + [t[k - 1]];
      DigitValueSnoc(t[..k - 1], t[k - 1]);
    }
    assert t[..0] == [];
    assert t[..10] == t;
  }

  /** The PID is the value of the last ten characters' digit string modulo
      10^19: parsing the last 19 digits keeps exactly that remainder. */
  lemma PidModulo(hash: HexDigest)
    ensures IsDigits(DigitString(hash[54..]))
    ensures PidFromDigest(hash) == Some(DecimalValue(DigitString(hash[54..])) % Pow10(19))
  {
    PidFromLastTen(hash);
    ParseLast19(DigitString(hash[54..]));
  }

  /** Parsing the last 19 digits of a digit string keeps its value modulo 10^19. */
  lemma ParseLast19(d: string)
    requires IsDigits(d) && 19 <= |d|
    ensures ParseU64(Last19(d)) == Some(DecimalValue(d) % Pow10(19))
  {
    var last := Last19(d);
    SuffixValue(d, 19);
    assert last == d[|d| - 19..];
    ParseNineteenDigits(last);
  }

  /** The PID of a digest ending in `guid`, from the GUID's last ten
      characters alone. */
  lemma PidFromGuid(hash: HexDigest, guid: string)
    requires hash[48..] == guid
    ensures PidFromDigest(hash) == Some(TenCodes(guid[6..]) % 10_000_000_000_000_000_000)
  {
    var tail := hash[54..];
    assert tail == guid[6..];
    assert IsLowerHexString(tail);
    PidModulo(hash);
    TenCharValue(tail);
    Pow10Nineteen();
  }

  lemma Pow10Nineteen()
    ensures Pow10(19) == 10_000_000_000_000_000_000
  {
    assert Pow10(10) == 10_000_000_000;
  }

  lemma PidFromTenCodes(hash: HexDigest, tail: string, n: nat)
    requires hash[54..] == tail
    requires TenCodes(tail) % 10_000_000_000_000_000_000 == n
    ensures PidFromDigest(hash) == Some(n)
  {
    PidFromGuid(hash, hash[48..]);
    assert hash[48..][6..] == tail;
  }

  /** The arithmetic of the four test GUIDs' last ten characters. */
  lemma TenCodesFixtures()
    ensures TenCodes("f724da0761") % 10_000_000_000_000_000_000 == 5550521009748555449
    ensures TenCodes("3621f82df3") % 10_000_000_000_000_000_000 == 5049102565010010251
    ensures TenCodes("80b136101d") % 10_000_000_000_000_000_000 == 4898495154494849100
    ensures TenCodes("b1f547113e") % 10_000_000_000_000_000_000 == 9102535255494951101
  {
  }

  /** The fixtures of the repository's tests: a digest ending in one of the
      four test GUIDs yields exactly the paired test PID. Only the GUID is
      needed, so SHA-256 itself never has to be evaluated. */
  lemma PidFixtureBottlePop(hash: HexDigest)
    requires hash[48..] == "9ff460f724da0761"
    ensures PidFromDigest(hash) == Some(5550521009748555449)
  {
    assert hash[54..] == hash[48..][6..] == "f724da0761";
    TenCodesFixtures();
    PidFromTenCodes(hash, "f724da0761", 5550521009748555449);
  }

  lemma PidFixtureStrategicLaunch(hash: HexDigest)
    requires hash[48..] == "5231123621f82df3"
    ensures PidFromDigest(hash) == Some(5049102565010010251)
  {
    assert hash[54..] == hash[48..][6..] == "3621f82df3";
    TenCodesFixtures();
    PidFromTenCodes(hash, "3621f82df3", 5049102565010010251);
  }

  lemma PidFixtureHawkGrass(hash: HexDigest)
    requires hash[48..] == "03461b80b136101d"
    ensures PidFromDigest(hash) == Some(4898495154494849100)
  {
    assert hash[54..] == hash[48..][6..] == "80b136101d";
    TenCodesFixtures();
    PidFromTenCodes(hash, "80b136101d", 4898495154494849100);
  }

  lemma PidFixtureEndTimes(hash: HexDigest)
    requires hash[48..] == "72f93bb1f547113e"
    ensures PidFromDigest(hash) == Some(9102535255494951101)
  {
    assert hash[54..] == hash[48..][6..] == "b1f547113e";
    TenCodesFixtures();
    PidFromTenCodes(hash, "b1f547113e", 9102535255494951101);
  }

  /** The repository's PID and GUID tests agree: whatever SHA-256 function
      yields the four test GUIDs for the four example file names also
      yields the four test PIDs, and those are pairwise distinct. */
  lemma NameFixtures(sha256: string -> HexDigest)
    requires StringToGuid("TP_Bottle_Pop.m4r", sha256) == "9ff460f724da0761"
    requires StringToGuid("SC_Strategic_Launch.m4r", sha256) == "5231123621f82df3"
    requires StringToGuid("TP_HawkGrass.m4r", sha256) == "03461b80b136101d"
    requires StringToGuid("OuterWilds_End_Times.m4r", sha256) == "72f93bb1f547113e"
    ensures StringToPid("TP_Bottle_Pop.m4r", sha256) == 5550521009748555449
    ensures StringToPid("SC_Strategic_Launch.m4r", sha256) == 5049102565010010251
    ensures StringToPid("TP_HawkGrass.m4r", sha256) == 4898495154494849100
    ensures StringToPid("OuterWilds_End_Times.m4r", sha256) == 9102535255494951101
  {
    PidFixtureBottlePop(sha256("TP_Bottle_Pop.m4r"));
    PidFixtureStrategicLaunch(sha256("SC_Strategic_Launch.m4r"));
    PidFixtureHawkGrass(sha256("TP_HawkGrass.m4r"));
    PidFixtureEndTimes(sha256("OuterWilds_End_Times.m4r"));
  }
}
