/**
 parse_livox_lidar_cfg.cpp: the lidars' entries in the configuration file.  A key that is missing leaves
 its setting alone; one that is there is narrowed to eight bits.
 */
module LidarConfig {
  import opened Bytes

  /** An element of `lidar_configs`: its address and its four keys, each an integer if it is there. */
  datatype FileEntry = FileEntry(ip: Option<nat>, pclDataType: Option<int>, patternMode: Option<int>,
                                 blindSpotSet: Option<int>, dualEmitEn: Option<int>)

  /** `UserLivoxLidarConfig`; -1 leaves a setting alone. */
  datatype Config = Config(handle: nat, pclDataType: int, patternMode: int, blindSpotSet: int, dualEmitEn: int)

  /** `static_cast<int8_t>`. */
  function ToInt8(n: int): int {
    if n % 256 < 128 then n % 256 else n % 256 - 256
  }

  /** `static_cast<uint8_t>`. */
  function ToUint8(n: int): int {
    n % 256
  }

  /** What a field holds for its key: -1 for none, else the one eight-bit number that is the same modulo 256. */
  ghost predicate Holds(field: int, key: Option<int>) {
    match key
    case None => field == -1
    case Some(n) => -128 <= field < 128 && (exists k: int :: field == n + 256 * k)
  }

  ghost predicate HoldsEntry(c: Config, e: FileEntry) {
    && e.ip == Some(c.handle) && Holds(c.pclDataType, e.pclDataType) && Holds(c.patternMode, e.patternMode)
    && Holds(c.blindSpotSet, e.blindSpotSet) && Holds(c.dualEmitEn, e.dualEmitEn)
  }

  lemma NarrowHolds(n: int)
    ensures Holds(ToInt8(n), Some(n)) && Holds(ToInt8(ToUint8(n)), Some(n))
  {
    assert ToInt8(n) == n + 256 * (if n % 256 < 128 then -(n / 256) else -(n / 256) - 1);
  }

  method ParseConfig(e: FileEntry) returns (c: Config)
    requires e.ip.Some?
    ensures HoldsEntry(c, e)
  {
    var pclDataType, patternMode, blindSpotSet, dualEmitEn := -1, -1, -1, -1;
    if e.pclDataType.Some? {
      NarrowHolds(e.pclDataType.value);
      pclDataType := ToInt8(e.pclDataType.value);
    }
    if e.patternMode.Some? {
      NarrowHolds(e.patternMode.value);
      patternMode := ToInt8(e.patternMode.value);
    }
    if e.blindSpotSet.Some? {
      NarrowHolds(e.blindSpotSet.value);
      blindSpotSet := ToInt8(e.blindSpotSet.value);
    }
    if e.dualEmitEn.Some? {
      NarrowHolds(e.dualEmitEn.value);
      dualEmitEn := ToInt8(ToUint8(e.dualEmitEn.value));
    }
    c := Config(e.ip.value, pclDataType, patternMode, blindSpotSet, dualEmitEn);
  }

  /** The entries that have an address. */
  function Addressed(entries: seq<FileEntry>): (kept: seq<FileEntry>)
    ensures forall e <- kept :: e in entries && e.ip.Some?
  {
    if entries == [] then []
    else
      Addressed(entries[..|entries| - 1]) + if entries[|entries| - 1].ip.Some? then [entries[|entries| - 1]] else []
  }

  lemma AddressedOne(e: FileEntry)
    ensures Addressed([e]) == if e.ip.Some? then [e] else []
  {
    assert [e][..0] == [];
  }

  /** All of them, in order. */
  lemma {:induction false} AddressedInOrder(first: seq<FileEntry>, second: seq<FileEntry>)
    ensures Addressed(first + second) == Addressed(first) + Addressed(second)
    decreases |second|
  {
    if second == [] {
      assert first + second == first;
    } else {
      var n := |second| - 1;
      assert (first + second)[..|first + second| - 1] == first + second[..n];
      AddressedInOrder(first, second[..n]);
    }
  }

  /** `ParseUserConfigs`: an entry without an address is skipped, and one at least has to be left. */
  method ParseUserConfigs(entries: seq<FileEntry>) returns (ok: bool, configs: seq<Config>)
    ensures |configs| == |Addressed(entries)| && forall i | 0 <= i < |configs| :: HoldsEntry(configs[i], Addressed(entries)[i])
    ensures ok <==> exists e <- entries :: e.ip.Some?
  {
    hide HoldsEntry;
    configs := [];
    var k := 0;
    while k < |entries|
      invariant 0 <= k <= |entries| && |configs| == |Addressed(entries[..k])|
      invariant forall i | 0 <= i < |configs| :: HoldsEntry(configs[i], Addressed(entries[..k])[i])
      invariant |configs| > 0 <==> exists i | 0 <= i < k :: entries[i].ip.Some?
    {
      assert entries[..k + 1][..k] == entries[..k];
      if entries[k].ip.Some? {
        var c := ParseConfig(entries[k]);
        configs := configs + [c];
      }
      k := k + 1;
    }
    assert entries[..k] == entries;
    ok := |configs| != 0;
  }

  /** A key in the file is lost exactly when it is 255, or -1, modulo 256. */
  lemma KeyIsLostIff(field: int, n: int)
    requires Holds(field, Some(n))
    ensures field == -1 <==> n % 256 == 255
  {
    var k: int :| field == n + 256 * k;
    assert field % 256 == n % 256;
  }

  /** It is kept as it is exactly when it fits into eight bits. */
  lemma KeyIsKeptIff(field: int, n: int)
    requires Holds(field, Some(n))
    ensures field == n <==> -128 <= n < 128
  {
  }

  /** Of the blind spots that are documented, 50 to 200 cm, those from 128 cm on turn negative. */
  lemma BlindSpotTurnsNegative(c: Config, e: FileEntry, n: int)
    requires HoldsEntry(c, e) && e.blindSpotSet == Some(n) && 50 <= n <= 200
    ensures c.blindSpotSet == if n < 128 then n else n - 256
  {
  }
}
