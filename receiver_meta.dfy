/**
 * `AirPlayReceiverMeta` and the decoding of an `_airplay._tcp.local` service
 * instance in `response_to_meta` (src/lib.rs): the instance name, the TXT
 * entries as a key/value map, and the value decoders for the numeric,
 * boolean, feature and key fields. The mDNS record lookups that find the
 * PTR, TXT, SRV and address records are not modelled: their results (the
 * record name, the TXT strings, the port and the addresses) are the inputs.
 */
module ReceiverMeta {
  import opened Wrappers
  import opened Text
  import Numbers
  import opened AirPlayFeatures

  newtype u16 = x: int | 0 <= x < 0x1_0000

  const SERVICE: Bytes := Ascii("_airplay._tcp.local")
  const LOCAL_SUFFIX: Bytes := Ascii(".local")
  const EQUALS: byte := 61
  const COMMA: byte := 44
  const HEX_PREFIX: Bytes := Ascii("0x")
  const TRUE_TEXT: Bytes := Ascii("1")

  const FV: Bytes := Ascii("fv")
  const ACL: Bytes := Ascii("acl")
  const BTADDR: Bytes := Ascii("btaddr")
  const DEVICE_ID: Bytes := Ascii("deviceid")
  const FEATURES: Bytes := Ascii("features")
  const RSF: Bytes := Ascii("rsf")
  const FLAGS: Bytes := Ascii("flags")
  const GID: Bytes := Ascii("gid")
  const GCGL: Bytes := Ascii("gcgl")
  const GPN: Bytes := Ascii("gpn")
  const IGL: Bytes := Ascii("igl")
  const HGID: Bytes := Ascii("hgid")
  const HMID: Bytes := Ascii("hmid")
  const PGID: Bytes := Ascii("pgid")
  const PGCGL: Bytes := Ascii("pgcgl")
  const TSID: Bytes := Ascii("tsid")
  const HKID: Bytes := Ascii("hkid")
  const MODEL: Bytes := Ascii("model")
  const MANUFACTURER: Bytes := Ascii("manufacturer")
  const SERIAL_NUMBER: Bytes := Ascii("serialNumber")
  const PROTOVERS: Bytes := Ascii("protovers")
  const PI: Bytes := Ascii("pi")
  const PSI: Bytes := Ascii("psi")
  const PK: Bytes := Ascii("pk")
  const SRCVERS: Bytes := Ascii("srcvers")
  const OSVERS: Bytes := Ascii("osvers")

  /**
   * The `unwrap`s of `response_to_meta` that panic: a TXT entry without `=`,
   * and a value under `key` that its decoder rejects.
   */
  datatype DecodeError = MissingEquals(entry: Bytes) | BadValue(key: Bytes, value: Bytes)

  /** `AirPlayReceiverMeta` as `response_to_meta` fills it (`media_remote` is always `None` there). */
  datatype Meta = Meta(
    name: Bytes,
    ipAddresses: seq<Bytes>,
    port: u16,
    firmwareVersion: Option<Bytes>,
    accessControlLevel: Option<int>,
    bluetoothAddress: Option<Bytes>,
    deviceId: Option<Bytes>,
    features: Option<Features>,
    requiredSenderFeatures: Option<Features>,
    flags: Option<nat>,
    groupId: Option<Bytes>,
    groupContainsDiscoverableLeader: Option<bool>,
    groupPublicName: Option<Bytes>,
    isGroupLeader: Option<bool>,
    homeGroupId: Option<Bytes>,
    householdId: Option<Bytes>,
    parentGroupId: Option<Bytes>,
    parentGroupContainsDiscoverableLeader: Option<bool>,
    tightSyncId: Option<Bytes>,
    homekitHomeId: Option<Bytes>,
    model: Option<Bytes>,
    manufacturer: Option<Bytes>,
    serialNumber: Option<Bytes>,
    protocolVersion: Option<Bytes>,
    publicAirplayPairingIdentity: Option<Bytes>,
    publicSystemPairingIdentity: Option<Bytes>,
    publicKey: Option<seq<byte>>,
    airplayVersion: Option<Bytes>,
    osVersion: Option<Bytes>)

  /** `AirPlayReceiverMeta::is_sane`. */
  predicate IsSane(m: Meta) {
    && m.model.Some?
    && m.features.Some?
    && |m.name| > 0
    && m.deviceId.Some?
    && !EndsWith(m.name, LOCAL_SUFFIX)
  }

  // TXT entries

  predicate HasEquals(entry: Bytes) {
    SplitOnce(entry, [EQUALS]).Some?
  }

  /** What comes before the first `=` of an entry. */
  function Key(entry: Bytes): Bytes
    requires HasEquals(entry)
  {
    SplitOnce(entry, [EQUALS]).value.0
  }

  /** What comes after the first `=` of an entry. */
  function Value(entry: Bytes): Bytes
    requires HasEquals(entry)
  {
    SplitOnce(entry, [EQUALS]).value.1
  }

  /**
   * The `HashMap` collected from `split_once('=').unwrap()` of every TXT
   * entry in order: a later entry overwrites an earlier one with the same
   * key, and the first entry without `=` panics.
   */
  function TxtMap(entries: seq<Bytes>): (r: Result<map<Bytes, Bytes>, DecodeError>)
    ensures r.Success? <==> forall i :: 0 <= i < |entries| ==> HasEquals(entries[i])
    ensures r.Failure? ==> exists i :: (0 <= i < |entries| && r.error == MissingEquals(entries[i]) &&
      !HasEquals(entries[i]) && forall j :: 0 <= j < i ==> HasEquals(entries[j]))
    decreases |entries|
  {
    if |entries| == 0 then Success(map[])
    else
      var init := entries[..|entries| - 1];
      assert forall i :: 0 <= i < |init| ==> init[i] == entries[i];
      var m :- TxtMap(init);
      var e := entries[|entries| - 1];
      if HasEquals(e) then Success(m[Key(e) := Value(e)]) else Failure(MissingEquals(e))
  }

  /** The keys of the TXT map are exactly the keys of the entries. */
  lemma TxtKeys(entries: seq<Bytes>)
    requires TxtMap(entries).Success?
    ensures forall k :: k in TxtMap(entries).value <==> exists i :: 0 <= i < |entries| && Key(entries[i]) == k
  {
    KeysCovered(entries);
    KeysFromEntries(entries);
  }

  lemma {:induction false} KeysCovered(entries: seq<Bytes>)
    requires TxtMap(entries).Success?
    ensures forall i :: 0 <= i < |entries| ==> Key(entries[i]) in TxtMap(entries).value
    decreases |entries|
  {
    if |entries| > 0 {
      var init := entries[..|entries| - 1];
      TxtMapStep(entries);
      KeysCovered(init);
      forall i | 0 <= i < |init|
        ensures Key(entries[i]) in TxtMap(entries).value
      {
        assert entries[i] == init[i];
      }
    }
  }

  lemma {:induction false} KeysFromEntries(entries: seq<Bytes>)
    requires TxtMap(entries).Success?
    ensures forall k :: k in TxtMap(entries).value ==> exists i :: 0 <= i < |entries| && Key(entries[i]) == k
    decreases |entries|
  {
    if |entries| > 0 {
      var init := entries[..|entries| - 1];
      var last := entries[|entries| - 1];
      TxtMapStep(entries);
      KeysFromEntries(init);
      forall k | k in TxtMap(entries).value
        ensures exists i :: 0 <= i < |entries| && Key(entries[i]) == k
      {
        if k == Key(last) {
          assert Key(entries[|entries| - 1]) == k;
        } else {
          var i :| 0 <= i < |init| && Key(init[i]) == k;
          assert entries[i] == init[i];
        }
      }
    }
  }

  /** The map of a non-empty list is the map of all but its last entry, updated with that entry. */
  lemma TxtMapStep(entries: seq<Bytes>)
    requires |entries| > 0 && TxtMap(entries).Success?
    ensures TxtMap(entries[..|entries| - 1]).Success?
    ensures HasEquals(entries[|entries| - 1])
    ensures TxtMap(entries).value == TxtMap(entries[..|entries| - 1]).value[Key(entries[|entries| - 1]) := Value(entries[|entries| - 1])]
  {
  }

  /** When a key occurs more than once, the value of its last entry is the one kept. */
  lemma {:induction false} LastWins(entries: seq<Bytes>, i: nat)
    requires TxtMap(entries).Success? && i < |entries|
    requires forall j :: i < j < |entries| ==> Key(entries[j]) != Key(entries[i])
    ensures Key(entries[i]) in TxtMap(entries).value
    ensures TxtMap(entries).value[Key(entries[i])] == Value(entries[i])
    decreases |entries|
  {
    if i < |entries| - 1 {
      var init := entries[..|entries| - 1];
      assert forall j :: 0 <= j < |init| ==> init[j] == entries[j];
      LastWins(init, i);
    }
  }

  // Value decoders

  /** `uN::from_str_radix(x.trim_start_matches("0x"), 16)` for an `N`-bit type. */
  function HexNumber(x: Bytes, bits: nat): (r: Option<nat>)
    ensures r.Some? ==> r.value < Numbers.Pow2(bits)
  {
    Numbers.ParseUnsigned(TrimStartMatches(x, HEX_PREFIX), 16, bits)
  }

  /** The `features` value `"lo,hi"`: two 32-bit hexadecimal words, the low one first. */
  function DecodeFeatures(x: Bytes): (r: Option<Features>)
    ensures r.Some? <==> (SplitOnce(x, [COMMA]).Some? &&
      HexNumber(SplitOnce(x, [COMMA]).value.0, 32).Some? && HexNumber(SplitOnce(x, [COMMA]).value.1, 32).Some?)
  {
    match SplitOnce(x, [COMMA])
    case None => Option.None
    case Some((a, b)) =>
      match HexNumber(a, 32)
      case None => Option.None
      case Some(lo) =>
        match HexNumber(b, 32)
        case None => Option.None
        case Some(hi) => Some(FromHalves(lo, hi))
  }

  /** `AirPlayFeatures::from((lo, hi))` for the two words `u32::from_str_radix` produced. */
  function FromHalves(lo: nat, hi: nat): Features
    requires lo < Numbers.Pow2(32) && hi < Numbers.Pow2(32)
  {
    Numbers.Pow2Widths();
    FromPair(lo as bv32, hi as bv32)
  }

  /** The `rsf` value: one 64-bit hexadecimal word. */
  function DecodeRsf(x: Bytes): (r: Option<Features>)
    ensures r.Some? <==> HexNumber(x, 64).Some?
  {
    match HexNumber(x, 64)
    case None => Option.None
    case Some(v) =>
      Numbers.Pow2Widths();
      Some(FromWord(v as bv64))
  }

  /** The `flags` value as line 230 reads it: `0x` is stripped, then the digits are read in base 10. */
  function FlagsAsWritten(x: Bytes): (r: Option<nat>)
    ensures r.Some? ==> r.value < Numbers.Pow2(64)
  {
    Numbers.ParseUnsigned(TrimStartMatches(x, HEX_PREFIX), 10, 64)
  }

  /** The `flags` value read as the hexadecimal word it is published as. */
  function DecodeFlags(x: Bytes): (r: Option<nat>)
    ensures r.Some? ==> r.value < Numbers.Pow2(64)
  {
    HexNumber(x, 64)
  }

  /** The `acl` value: `i64::from_str_radix(x, 10)`. */
  function DecodeAcl(x: Bytes): (r: Option<int>)
    ensures r.Some? ==> -(Numbers.Pow2(63) as int) <= r.value < Numbers.Pow2(63)
  {
    Numbers.ParseSigned(x, 10, 64)
  }

  /** The `i`-th piece of `chunks(2)`: two bytes, or one at the end of text of odd length. */
  function Chunk(x: Bytes, i: nat): Bytes
    requires 2 * i < |x|
  {
    x[2 * i..if 2 * i + 2 <= |x| then 2 * i + 2 else |x|]
  }

  /**
   * The `pk` value: each piece of `chunks(2)` read as a hexadecimal `u8`.
   * `str::from_utf8` of a piece only fails on a non-ASCII byte, which the
   * digit reader rejects as well, so it adds no case of its own.
   */
  function DecodePublicKey(x: Bytes): (r: Option<seq<byte>>)
    ensures r.Some? ==> |r.value| == (|x| + 1) / 2
    decreases |x|
  {
    if |x| == 0 then Some([])
    else
      var n := if |x| >= 2 then 2 else 1;
      match Numbers.ParseUnsigned(x[..n], 16, 8)
      case None => Option.None
      case Some(b) =>
        match DecodePublicKey(x[n..])
        case None => Option.None
        case Some(rest) =>
          Numbers.Pow2Widths();
          Some([b as byte] + rest)
  }

  /** After the first two bytes, the pieces are the pieces of the rest. */
  lemma ChunkTail(x: Bytes, i: nat)
    requires 2 * i + 2 < |x|
    ensures Chunk(x, i + 1) == Chunk(x[2..], i)
  {
  }

  /** One step of `DecodePublicKey`: the first piece's byte, then the rest's bytes. */
  lemma PublicKeyStep(x: Bytes)
    requires |x| > 0 && DecodePublicKey(x).Some?
    ensures var n := if |x| >= 2 then 2 else 1;
      && DecodePublicKey(x[n..]).Some?
      && Numbers.ParseUnsigned(x[..n], 16, 8) == Some(DecodePublicKey(x).value[0] as nat)
      && DecodePublicKey(x).value[1..] == DecodePublicKey(x[n..]).value
  {
  }

  /** When `pk` decodes, byte `i` is the value of piece `i`. */
  lemma {:induction false} PublicKeyBytes(x: Bytes)
    requires DecodePublicKey(x).Some?
    ensures forall i :: 0 <= i < (|x| + 1) / 2 ==>
      Numbers.ParseUnsigned(Chunk(x, i), 16, 8) == Some(DecodePublicKey(x).value[i] as nat)
    decreases |x|
  {
    if |x| > 0 {
      var n := if |x| >= 2 then 2 else 1;
      var tail := x[n..];
      var bytes := DecodePublicKey(x).value;
      PublicKeyStep(x);
      PublicKeyBytes(tail);
      assert Chunk(x, 0) == x[..n];
      forall i | 1 <= i < (|x| + 1) / 2
        ensures Numbers.ParseUnsigned(Chunk(x, i), 16, 8) == Some(bytes[i] as nat)
      {
        ChunkTail(x, i - 1);
        assert bytes[i] == bytes[1..][i - 1];
      }
    }
  }

  /** `pk` decodes exactly when every piece of it is a hexadecimal byte. */
  lemma {:induction false} PublicKeyAccepted(x: Bytes)
    ensures DecodePublicKey(x).Some? <==> forall i :: 0 <= i < (|x| + 1) / 2 ==> Numbers.ParseUnsigned(Chunk(x, i), 16, 8).Some?
    decreases |x|
  {
    if |x| > 0 {
      var n := if |x| >= 2 then 2 else 1;
      var tail := x[n..];
      PublicKeyAccepted(tail);
      assert Chunk(x, 0) == x[..n];
      if forall i :: 0 <= i < (|x| + 1) / 2 ==> Numbers.ParseUnsigned(Chunk(x, i), 16, 8).Some? {
        forall i | 0 <= i < (|tail| + 1) / 2
          ensures Numbers.ParseUnsigned(Chunk(tail, i), 16, 8).Some?
        {
          ChunkTail(x, i);
        }
      } else if DecodePublicKey(x).Some? {
        var i :| 0 <= i < (|x| + 1) / 2 && Numbers.ParseUnsigned(Chunk(x, i), 16, 8).None?;
        ChunkTail(x, i - 1);
        assert false;
      }
    }
  }

  /** `gcgl`, `igl` and `pgcgl`: true exactly when the value is `1`. */
  function Flag(m: map<Bytes, Bytes>, key: Bytes): (r: Option<bool>)
    ensures r.Some? <==> key in m
    ensures r == Some(true) <==> key in m && m[key] == TRUE_TEXT
  {
    if key in m then Some(m[key] == TRUE_TEXT) else Option.None
  }

  /** `airplay_entries.get(key).map(|x| x.to_string())`. */
  function Get(m: map<Bytes, Bytes>, key: Bytes): (r: Option<Bytes>)
    ensures r.Some? <==> key in m
    ensures r.Some? ==> r.value == m[key]
  {
    if key in m then Some(m[key]) else Option.None
  }

  /** `airplay_entries.get(key).map(|x| decode(x).unwrap())`: absent stays `None`, a rejected value panics. */
  function Decoded<T>(m: map<Bytes, Bytes>, key: Bytes, decode: Bytes -> Option<T>): (r: Result<Option<T>, DecodeError>)
    ensures key !in m ==> r == Success(Option.None)
    ensures key in m ==> (r.Success? <==> decode(m[key]).Some?)
    ensures key in m && r.Success? ==> r.value == decode(m[key])
    ensures r.Failure? ==> key in m && r.error == BadValue(key, m[key])
  {
    if key !in m then Success(Option.None)
    else
      match decode(m[key])
      case None => Failure(BadValue(key, m[key]))
      case Some(v) => Success(Some(v))
  }

  /** The instance name: the PTR target with every trailing `_airplay._tcp.local` removed. */
  function InstanceName(record: Bytes): (r: Bytes)
    ensures !EndsWith(r, SERVICE) && |r| <= |record| && r == record[..|r|]
  {
    TrimEndMatches(record, SERVICE)
  }

  /**
   * `response_to_meta` once the records are found: `record` is the PTR
   * target, `txt` the strings of its TXT record, `port` and `addresses`
   * what its SRV record and the host's A/AAAA records give. The fields are
   * built in the order the source writes them, so the first value that
   * fails to decode is the one reported. `readFlags` is how the `flags`
   * value is read: `ResponseToMeta` passes line 230's reading,
   * `IntendedResponseToMeta` the hexadecimal one.
   */
  function ReadMeta(record: Bytes, txt: seq<Bytes>, port: u16, addresses: seq<Bytes>, readFlags: Bytes -> Option<nat>): (r: Result<Meta, DecodeError>)
    ensures TxtMap(txt).Failure? ==> r == Failure(TxtMap(txt).error)
    ensures r.Success? ==> TxtMap(txt).Success?
    ensures r.Success? ==> r.value.name == InstanceName(record) && r.value.port == port && r.value.ipAddresses == addresses
    ensures r.Success? ==> r.value.model == Get(TxtMap(txt).value, MODEL) && r.value.deviceId == Get(TxtMap(txt).value, DEVICE_ID)
    ensures r.Success? ==> (r.value.features.Some? <==> FEATURES in TxtMap(txt).value)
    ensures r.Success? && FEATURES in TxtMap(txt).value ==> r.value.features == DecodeFeatures(TxtMap(txt).value[FEATURES])
    ensures r.Success? ==> (r.value.flags.Some? <==> FLAGS in TxtMap(txt).value)
    ensures r.Success? && FLAGS in TxtMap(txt).value ==> r.value.flags == readFlags(TxtMap(txt).value[FLAGS])
    ensures TxtMap(txt).Success? && FLAGS in TxtMap(txt).value && readFlags(TxtMap(txt).value[FLAGS]).None? ==> r.Failure?
    ensures r.Success? && r.value.publicKey.Some? ==>
      PK in TxtMap(txt).value && |r.value.publicKey.value| == (|TxtMap(txt).value[PK]| + 1) / 2
  {
    var m :- TxtMap(txt);
    var d :- DecodeValues(m, readFlags);
    Success(Assemble(record, m, port, addresses, d.acl, d.features, d.rsf, d.flags, d.pk))
  }

  /**
   * The decoded fields of a successful `ReadMeta`: the public key, the access
   * control level and the required sender features are their decoders' values,
   * and the three group booleans are read from their keys.
   */
  lemma ReadMetaFields(record: Bytes, txt: seq<Bytes>, port: u16, addresses: seq<Bytes>, readFlags: Bytes -> Option<nat>)
    requires ReadMeta(record, txt, port, addresses, readFlags).Success?
    ensures var m, r := TxtMap(txt).value, ReadMeta(record, txt, port, addresses, readFlags).value;
      && (PK in m ==> r.publicKey == DecodePublicKey(m[PK]))
      && (ACL in m ==> r.accessControlLevel == DecodeAcl(m[ACL]))
      && (RSF in m ==> r.requiredSenderFeatures == DecodeRsf(m[RSF]))
      && r.groupContainsDiscoverableLeader == Flag(m, GCGL)
      && r.isGroupLeader == Flag(m, IGL)
      && r.parentGroupContainsDiscoverableLeader == Flag(m, PGCGL)
  {
    var m := TxtMap(txt).value;
    var d := DecodeValues(m, readFlags).value;
    assert ReadMeta(record, txt, port, addresses, readFlags).value
        == Assemble(record, m, port, addresses, d.acl, d.features, d.rsf, d.flags, d.pk);
  }

  /**
   * The text fields of a successful `ReadMeta` are copied from the TXT map:
   * each is `Some` of its key's value when the key is present and `None`
   * otherwise.
   */
  lemma ReadMetaCopies(record: Bytes, txt: seq<Bytes>, port: u16, addresses: seq<Bytes>, readFlags: Bytes -> Option<nat>)
    requires ReadMeta(record, txt, port, addresses, readFlags).Success?
    ensures var m, r := TxtMap(txt).value, ReadMeta(record, txt, port, addresses, readFlags).value;
      && r.firmwareVersion == Get(m, FV) && r.bluetoothAddress == Get(m, BTADDR)
      && r.groupId == Get(m, GID) && r.groupPublicName == Get(m, GPN)
      && r.homeGroupId == Get(m, HGID) && r.householdId == Get(m, HMID)
      && r.parentGroupId == Get(m, PGID) && r.tightSyncId == Get(m, TSID)
      && r.homekitHomeId == Get(m, HKID) && r.manufacturer == Get(m, MANUFACTURER)
      && r.serialNumber == Get(m, SERIAL_NUMBER) && r.protocolVersion == Get(m, PROTOVERS)
      && r.publicAirplayPairingIdentity == Get(m, PI) && r.publicSystemPairingIdentity == Get(m, PSI)
      && r.airplayVersion == Get(m, SRCVERS) && r.osVersion == Get(m, OSVERS)
  {
    var m := TxtMap(txt).value;
    var d := DecodeValues(m, readFlags).value;
    assert ReadMeta(record, txt, port, addresses, readFlags).value
        == Assemble(record, m, port, addresses, d.acl, d.features, d.rsf, d.flags, d.pk);
  }

  /**
   * Each decoded TXT value the source unwraps: when the key is present and its
   * decoder rejects the value, `ReadMeta` fails.
   */
  lemma ReadMetaRejects(record: Bytes, txt: seq<Bytes>, port: u16, addresses: seq<Bytes>, readFlags: Bytes -> Option<nat>)
    requires TxtMap(txt).Success?
    ensures var m, r := TxtMap(txt).value, ReadMeta(record, txt, port, addresses, readFlags);
      && (ACL in m && DecodeAcl(m[ACL]).None? ==> r.Failure?)
      && (FEATURES in m && DecodeFeatures(m[FEATURES]).None? ==> r.Failure?)
      && (RSF in m && DecodeRsf(m[RSF]).None? ==> r.Failure?)
      && (PK in m && DecodePublicKey(m[PK]).None? ==> r.Failure?)
  {
    var m := TxtMap(txt).value;
    assert DecodeValues(m, readFlags).Success? ==> ReadMeta(record, txt, port, addresses, readFlags).Success?;
  }

  /** The TXT values `response_to_meta` decodes, rather than copies. */
  datatype Decodings = Decodings(acl: Option<int>, features: Option<Features>, rsf: Option<Features>,
                                 flags: Option<nat>, pk: Option<seq<byte>>)

  /**
   * The decoded values in the order the source builds them: the first one
   * whose decoder rejects it is the error, and otherwise each is what its
   * decoder gives.
   */
  function DecodeValues(m: map<Bytes, Bytes>, readFlags: Bytes -> Option<nat>): (r: Result<Decodings, DecodeError>)
    ensures r.Success? <==>
      && Decoded(m, ACL, DecodeAcl).Success? && Decoded(m, FEATURES, DecodeFeatures).Success?
      && Decoded(m, RSF, DecodeRsf).Success? && Decoded(m, FLAGS, readFlags).Success?
      && Decoded(m, PK, DecodePublicKey).Success?
    ensures r.Success? ==>
      && Decoded(m, ACL, DecodeAcl) == Success(r.value.acl)
      && Decoded(m, FEATURES, DecodeFeatures) == Success(r.value.features)
      && Decoded(m, RSF, DecodeRsf) == Success(r.value.rsf)
      && Decoded(m, FLAGS, readFlags) == Success(r.value.flags)
      && Decoded(m, PK, DecodePublicKey) == Success(r.value.pk)
  {
    var acl :- Decoded(m, ACL, DecodeAcl);
    var features :- Decoded(m, FEATURES, DecodeFeatures);
    var rsf :- Decoded(m, RSF, DecodeRsf);
    var flags :- Decoded(m, FLAGS, readFlags);
    var pk :- Decoded(m, PK, DecodePublicKey);
    Success(Decodings(acl, features, rsf, flags, pk))
  }

  /** The record `response_to_meta` fills in, from the TXT map and the values already decoded. */
  function Assemble(record: Bytes, m: map<Bytes, Bytes>, port: u16, addresses: seq<Bytes>, acl: Option<int>,
                    features: Option<Features>, rsf: Option<Features>, flags: Option<nat>, pk: Option<seq<byte>>): (r: Meta)
    ensures r.name == InstanceName(record) && r.port == port && r.ipAddresses == addresses
    ensures r.model == Get(m, MODEL) && r.deviceId == Get(m, DEVICE_ID)
    ensures r.features == features && r.flags == flags && r.publicKey == pk
    ensures r.accessControlLevel == acl && r.requiredSenderFeatures == rsf
    ensures r.groupContainsDiscoverableLeader == Flag(m, GCGL) && r.isGroupLeader == Flag(m, IGL)
    ensures r.parentGroupContainsDiscoverableLeader == Flag(m, PGCGL)
    ensures r.firmwareVersion == Get(m, FV) && r.bluetoothAddress == Get(m, BTADDR)
    ensures r.groupId == Get(m, GID) && r.groupPublicName == Get(m, GPN)
    ensures r.homeGroupId == Get(m, HGID) && r.householdId == Get(m, HMID)
    ensures r.parentGroupId == Get(m, PGID) && r.tightSyncId == Get(m, TSID)
    ensures r.homekitHomeId == Get(m, HKID) && r.manufacturer == Get(m, MANUFACTURER)
    ensures r.serialNumber == Get(m, SERIAL_NUMBER) && r.protocolVersion == Get(m, PROTOVERS)
    ensures r.publicAirplayPairingIdentity == Get(m, PI) && r.publicSystemPairingIdentity == Get(m, PSI)
    ensures r.airplayVersion == Get(m, SRCVERS) && r.osVersion == Get(m, OSVERS)
  {
    Meta(
      name := InstanceName(record),
      ipAddresses := addresses,
      port := port,
      firmwareVersion := Get(m, FV),
      accessControlLevel := acl,
      bluetoothAddress := Get(m, BTADDR),
      deviceId := Get(m, DEVICE_ID),
      features := features,
      requiredSenderFeatures := rsf,
      flags := flags,
      groupId := Get(m, GID),
      groupContainsDiscoverableLeader := Flag(m, GCGL),
      groupPublicName := Get(m, GPN),
      isGroupLeader := Flag(m, IGL),
      homeGroupId := Get(m, HGID),
      householdId := Get(m, HMID),
      parentGroupId := Get(m, PGID),
      parentGroupContainsDiscoverableLeader := Flag(m, PGCGL),
      tightSyncId := Get(m, TSID),
      homekitHomeId := Get(m, HKID),
      model := Get(m, MODEL),
      manufacturer := Get(m, MANUFACTURER),
      serialNumber := Get(m, SERIAL_NUMBER),
      protocolVersion := Get(m, PROTOVERS),
      publicAirplayPairingIdentity := Get(m, PI),
      publicSystemPairingIdentity := Get(m, PSI),
      publicKey := pk,
      airplayVersion := Get(m, SRCVERS),
      osVersion := Get(m, OSVERS))
  }

  /** `response_to_meta` as written: `flags` has `0x` stripped and is read in base 10. */
  function ResponseToMeta(record: Bytes, txt: seq<Bytes>, port: u16, addresses: seq<Bytes>): (r: Result<Meta, DecodeError>)
    ensures r.Success? ==> TxtMap(txt).Success?
    ensures r.Success? && FLAGS in TxtMap(txt).value ==> r.value.flags == FlagsAsWritten(TxtMap(txt).value[FLAGS])
    ensures TxtMap(txt).Success? && FLAGS in TxtMap(txt).value && FlagsAsWritten(TxtMap(txt).value[FLAGS]).None? ==> r.Failure?
  {
    ReadMeta(record, txt, port, addresses, FlagsAsWritten)
  }

  /** `response_to_meta` with `flags` read as the hexadecimal word it is published as. */
  function IntendedResponseToMeta(record: Bytes, txt: seq<Bytes>, port: u16, addresses: seq<Bytes>): (r: Result<Meta, DecodeError>)
    ensures r.Success? ==> TxtMap(txt).Success?
    ensures r.Success? && FLAGS in TxtMap(txt).value ==> r.value.flags == DecodeFlags(TxtMap(txt).value[FLAGS])
    ensures TxtMap(txt).Success? && FLAGS in TxtMap(txt).value && DecodeFlags(TxtMap(txt).value[FLAGS]).None? ==> r.Failure?
  {
    ReadMeta(record, txt, port, addresses, DecodeFlags)
  }

  // Properties

  /**
   * A decoded receiver is sane exactly when its TXT record has `model`,
   * `features` and `deviceid` and its instance name is non-empty and does
   * not end in `.local`.
   */
  lemma SaneIff(record: Bytes, txt: seq<Bytes>, port: u16, addresses: seq<Bytes>)
    requires ResponseToMeta(record, txt, port, addresses).Success?
    ensures IsSane(ResponseToMeta(record, txt, port, addresses).value) <==>
      && MODEL in TxtMap(txt).value && FEATURES in TxtMap(txt).value && DEVICE_ID in TxtMap(txt).value
      && |InstanceName(record)| > 0 && !EndsWith(InstanceName(record), LOCAL_SUFFIX)
  {
  }

  /** The name a receiver advertises comes back from its service instance name. */
  lemma InstanceNameRoundTrip(name: Bytes)
    requires !EndsWith(name, SERVICE)
    ensures InstanceName(name + SERVICE) == name
  {
    TrimEndOnce(name, SERVICE);
  }

  lemma HexTextPrefix(n: nat)
    ensures !StartsWith(Numbers.HexText(n), HEX_PREFIX)
  {
    assert HEX_PREFIX[0] == Numbers.DigitChar(0);
  }

  /** A number written as `0x` and upper-case hexadecimal digits reads back, as long as it fits. */
  lemma HexNumberRoundTrip(n: nat, bits: nat)
    requires n < Numbers.Pow2(bits)
    ensures HexNumber(HEX_PREFIX + Numbers.HexText(n), bits) == Some(n)
    ensures HexNumber(Numbers.HexText(n), bits) == Some(n)
  {
    HexTextPrefix(n);
    TrimStartOnce(HEX_PREFIX, Numbers.HexText(n));
    Numbers.RadixTextRoundTrip(n, 16, bits);
  }

  /** Hexadecimal text after `0x` holds no comma. */
  lemma NoComma(n: nat)
    ensures forall i :: 0 <= i < |HEX_PREFIX + Numbers.HexText(n)| ==> (HEX_PREFIX + Numbers.HexText(n))[i] != COMMA
  {
    Numbers.RadixTextDigits(n, 16);
    assert HEX_PREFIX == [48, 120];
  }

  /**
   * `features` written as `0x<lo>,0x<hi>` decodes to the feature set of the
   * word whose low half is `lo` and whose high half is `hi`.
   */
  lemma FeaturesRoundTrip(lo: nat, hi: nat)
    requires lo < Numbers.Pow2(32) && hi < Numbers.Pow2(32)
    ensures DecodeFeatures((HEX_PREFIX + Numbers.HexText(lo)) + [COMMA] + (HEX_PREFIX + Numbers.HexText(hi)))
      == Some(FromHalves(lo, hi))
  {
    var a := HEX_PREFIX + Numbers.HexText(lo);
    var b := HEX_PREFIX + Numbers.HexText(hi);
    NoComma(lo);
    SplitOnceAtByte(a, COMMA, b);
    HexNumberRoundTrip(lo, 32);
    HexNumberRoundTrip(hi, 32);
    DecodeFeaturesOf(a + [COMMA] + b, a, b, lo, hi);
  }

  /** A `features` value without a comma is rejected (the `split_once(',').unwrap()` panic). */
  lemma FeaturesNeedComma(x: Bytes)
    requires forall i :: 0 <= i < |x| ==> x[i] != COMMA
    ensures DecodeFeatures(x).None?
  {
    FirstByteAbsent(x, [COMMA]);
  }

  lemma DecodeFeaturesOf(x: Bytes, a: Bytes, b: Bytes, lo: nat, hi: nat)
    requires SplitOnce(x, [COMMA]) == Some((a, b))
    requires HexNumber(a, 32) == Some(lo) && HexNumber(b, 32) == Some(hi)
    requires lo < Numbers.Pow2(32) && hi < Numbers.Pow2(32)
    ensures DecodeFeatures(x) == Some(FromHalves(lo, hi))
  {
  }

  /** `rsf` written as `0x<word>` decodes to the feature set of that word. */
  lemma RsfRoundTrip(v: bv64)
    ensures DecodeRsf(HEX_PREFIX + Numbers.HexText(v as nat)) == Some(FromWord(v))
  {
    Numbers.Pow2Widths();
    HexNumberRoundTrip(v as nat, 64);
  }

  /** `acl` written by `i64::to_string` reads back. */
  lemma AclRoundTrip(n: int)
    requires -(Numbers.Pow2(63) as int) <= n < Numbers.Pow2(63)
    ensures DecodeAcl(Numbers.SignedDecimalText(n)) == Some(n)
  {
    Numbers.SignedRoundTrip(n);
  }

  /** Key bytes written as two hexadecimal digits each. */
  function HexBytes(bs: seq<byte>): (t: Bytes)
    ensures |t| == 2 * |bs|
  {
    if |bs| == 0 then [] else Numbers.HexPair(bs[0]) + HexBytes(bs[1..])
  }

  /** `pk` written as two hexadecimal digits per byte decodes to those bytes. */
  lemma {:induction false} PublicKeyRoundTrip(bs: seq<byte>)
    ensures DecodePublicKey(HexBytes(bs)) == Some(bs)
  {
    if |bs| > 0 {
      var t := HexBytes(bs);
      assert t[..2] == Numbers.HexPair(bs[0]);
      assert t[2..] == HexBytes(bs[1..]);
      Numbers.HexPairRoundTrip(bs[0]);
      PublicKeyRoundTrip(bs[1..]);
      assert [bs[0]] + bs[1..] == bs;
    }
  }

  /** `flags` published as `0x<word>` reads back with the hexadecimal reading. */
  lemma FlagsRoundTrip(n: nat)
    requires n < Numbers.Pow2(64)
    ensures DecodeFlags(HEX_PREFIX + Numbers.HexText(n)) == Some(n)
  {
    HexNumberRoundTrip(n, 64);
  }

  /**
   * Line 230 misreads `flags`: `0x244` (0x244 = 580) comes out as 244, and
   * `0x1A` is rejected, which makes `response_to_meta` panic.
   */
  lemma FlagsMisread()
    ensures FlagsAsWritten(HEX_PREFIX + Numbers.HexText(0x244)) == Some(244)
    ensures DecodeFlags(HEX_PREFIX + Numbers.HexText(0x244)) == Some(0x244)
    ensures FlagsAsWritten(HEX_PREFIX + Numbers.HexText(0x1A)).None?
  {
    FlagsDigitsAsDecimal();
    FlagsLetterRejected();
    Numbers.Pow2Widths();
    FlagsRoundTrip(0x244);
  }

  /**
   * A receiver publishing `flags=0x1A` is rejected by `response_to_meta` as
   * written (the `unwrap` on line 230 panics), while the hexadecimal reading
   * decodes it to 0x1A.
   */
  lemma FlagsPanics(record: Bytes, port: u16, addresses: seq<Bytes>)
    ensures var v := HEX_PREFIX + Numbers.HexText(0x1A);
      && ResponseToMeta(record, [FLAGS + [EQUALS] + v], port, addresses) == Failure(BadValue(FLAGS, v))
      && IntendedResponseToMeta(record, [FLAGS + [EQUALS] + v], port, addresses).Success?
      && IntendedResponseToMeta(record, [FLAGS + [EQUALS] + v], port, addresses).value.flags == Some(0x1A)
  {
    var v := HEX_PREFIX + Numbers.HexText(0x1A);
    var m := OnlyFlags(v);
    FlagsLetterRejected();
    OnlyFlagsRead(record, v, port, addresses, FlagsAsWritten);
    Numbers.Pow2Widths();
    FlagsRoundTrip(0x1A);
    OnlyFlagsRead(record, v, port, addresses, DecodeFlags);
  }

  /** A TXT record whose only entry is `flags=v`. */
  lemma OnlyFlags(v: Bytes) returns (m: map<Bytes, Bytes>)
    ensures TxtMap([FLAGS + [EQUALS] + v]) == Success(m) && m == map[FLAGS := v]
    ensures ACL !in m && FEATURES !in m && RSF !in m && PK !in m
  {
    var e := FLAGS + [EQUALS] + v;
    assert FLAGS == [102, 108, 97, 103, 115];
    SplitOnceAtByte(FLAGS, EQUALS, v);
    assert [e][..0] == [];
    m := map[FLAGS := v];
    assert |ACL| == 3 && |FEATURES| == 8 && |RSF| == 3 && |PK| == 2;
  }

  /** With `flags=v` as the only entry, decoding fails exactly on `flags`, and otherwise reads it. */
  lemma OnlyFlagsRead(record: Bytes, v: Bytes, port: u16, addresses: seq<Bytes>, readFlags: Bytes -> Option<nat>)
    ensures readFlags(v).None? ==> ReadMeta(record, [FLAGS + [EQUALS] + v], port, addresses, readFlags) == Failure(BadValue(FLAGS, v))
    ensures readFlags(v).Some? ==> ReadMeta(record, [FLAGS + [EQUALS] + v], port, addresses, readFlags).Success?
    ensures readFlags(v).Some? ==> ReadMeta(record, [FLAGS + [EQUALS] + v], port, addresses, readFlags).value.flags == readFlags(v)
  {
    var m := OnlyFlags(v);
  }

  lemma FlagsDigitsAsDecimal()
    ensures FlagsAsWritten(HEX_PREFIX + Numbers.HexText(0x244)) == Some(244)
  {
    var t := Numbers.HexText(0x244);
    HexTextPrefix(0x244);
    TrimStartOnce(HEX_PREFIX, t);
    Numbers.RadixTextStep(0x244, 16);
    Numbers.RadixTextStep(0x24, 16);
    assert t == [50, 52, 52];
    assert Numbers.DigitsValue(t, 10) == Some(244) by {
      assert t[..2] == [50, 52];
      assert t[..2][..1] == [50];
      assert [50][..0] == [];
    }
    Numbers.Pow2Widths();
  }

  lemma FlagsLetterRejected()
    ensures FlagsAsWritten(HEX_PREFIX + Numbers.HexText(0x1A)).None?
  {
    var u := Numbers.HexText(0x1A);
    HexTextPrefix(0x1A);
    TrimStartOnce(HEX_PREFIX, u);
    Numbers.RadixTextStep(0x1A, 16);
    assert u == [49, 65];
    assert Numbers.Digit(u[1], 10).None?;
  }

}
