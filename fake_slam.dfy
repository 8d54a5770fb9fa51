/**
 * The fake SLAM service (`fakeSlamFake`): a configured threshold, a mapping
 * mode, three preloaded point-cloud fixtures, one internal-state payload and
 * a call counter. Only the counter changes after construction, so every other
 * field is a `const` and the reported properties cannot change.
 *
 * The fixtures are given to the constructor already loaded; the mutex that
 * serialises the counter is replaced by sequential calls.
 */
module FakeSlam {
  import opened GoInt
  import opened Rotation
  import opened Chunked

  datatype Option<T> = None | Some(value: T)

  /** The service's configuration attributes `calls_till_next_map` and `is_localizing`. */
  datatype Config = Config(NextMap: int, IsLocalizing: bool)

  /** The two mapping modes the service can report. */
  datatype MappingMode = NewMap | LocalizationOnly

  /** What `Properties` reports. */
  datatype SlamProperties = SlamProperties(
    cloudSlam: bool,
    mappingMode: MappingMode,
    internalStateFileType: string)

  /** The threshold used when the configuration leaves it at 0. */
  const DefaultNextMap: int := 5

  /** The file type reported for the internal state. */
  const InternalStateFileType: string := ".pbstream"

  /**
   * `Config.Validate`: every configuration is accepted, including a negative
   * `calls_till_next_map`, and there are no implicit dependencies.
   */
  function Validate(cfg: Config, path: string): (r: (seq<string>, Option<string>))
    ensures r.0 == [] && r.1 == None
  {
    ([], None)
  }

  /**
   * The threshold the constructor settles on: 0 becomes the default, any
   * other value is kept, so the result is never 0 and is positive exactly
   * when the configured value is not negative.
   */
  function ResolveThreshold(configured: int): (t: int)
    ensures t != 0
    ensures configured == 0 ==> t == DefaultNextMap
    ensures configured != 0 ==> t == configured
    ensures t > 0 <==> configured >= 0
  {
    if configured == 0 then DefaultNextMap else configured
  }

  /** The mode chosen from `is_localizing`. */
  function ModeFor(isLocalizing: bool): (m: MappingMode)
    ensures m == LocalizationOnly <==> isLocalizing
    ensures m == NewMap <==> !isLocalizing
  {
    if isLocalizing then LocalizationOnly else NewMap
  }

  /** The outcome of `PointCloudMap`: a stream, or the runtime panic of a negative slice index. */
  datatype MapOutcome = Stream(stream: ChunkStream) | IndexPanic(index: int)

  class FakeSlamService {
    const cfg: Config
    /** Calls per fixture; never 0 after construction. */
    const nextMap: int
    const mode: MappingMode
    /** The three point-cloud fixtures, in rotation order. */
    const pcd: seq<seq<byte>>
    const internalState: seq<byte>
    /** Number of `PointCloudMap` calls so far. */
    var cnt: int

    ghost predicate Valid()
      reads this
    {
      |pcd| == FixtureCount &&
      nextMap == ResolveThreshold(cfg.NextMap) &&
      mode == ModeFor(cfg.IsLocalizing) &&
      cnt >= 0
    }

    /** `newFakeSlamFake`, given the loaded fixtures and internal state. */
    constructor (conf: Config, pcd2: seq<byte>, pcd3: seq<byte>, pcd4: seq<byte>, state: seq<byte>)
      ensures Valid()
      ensures cfg == conf
      ensures nextMap == ResolveThreshold(conf.NextMap)
      ensures mode == ModeFor(conf.IsLocalizing)
      ensures pcd == [pcd2, pcd3, pcd4] && internalState == state
      ensures cnt == 0
    {
      cfg := conf;
      var threshold := conf.NextMap;
      if threshold == 0 {
        threshold := DefaultNextMap;
      }
      nextMap := threshold;
      if conf.IsLocalizing {
        mode := LocalizationOnly;
      } else {
        mode := NewMap;
      }
      pcd := [pcd2, pcd3, pcd4];
      internalState := state;
      cnt := 0;
    }

    /**
     * Increments the counter, then streams fixture `cnt / nextMap % 3` (Go's
     * operators) from offset 0; `returnEditedMap` has no effect. A negative
     * index, possible only with a negative threshold, is a runtime panic that
     * happens after the increment.
     */
    method PointCloudMap(returnEditedMap: bool) returns (r: MapOutcome)
      requires Valid()
      modifies this`cnt
      ensures Valid()
      ensures cnt == old(cnt) + 1
      ensures r.IndexPanic? <==> SelectIndex(cnt, nextMap) < 0
      ensures r.IndexPanic? ==> nextMap < 0 && r.index == SelectIndex(cnt, nextMap)
      ensures r.Stream? ==>
        0 <= SelectIndex(cnt, nextMap) < FixtureCount &&
        fresh(r.stream) && fresh(r.stream.chunk) && r.stream.Valid() &&
        r.stream.data == pcd[SelectIndex(cnt, nextMap)] && r.stream.cursor == 0
    {
      cnt := cnt + 1;
      var which := SelectIndex(cnt, nextMap);
      RemBounds(Quo(cnt, nextMap), FixtureCount);
      if which < 0 {
        if nextMap > 0 {
          IndexInRange(cnt, nextMap);
        }
        return IndexPanic(which);
      }
      var s := new ChunkStream(pcd[which]);
      return Stream(s);
    }

    /** Streams the internal-state payload from offset 0, leaving the counter alone. */
    method InternalState() returns (s: ChunkStream)
      requires Valid()
      ensures unchanged(this)
      ensures fresh(s) && fresh(s.chunk) && s.Valid()
      ensures s.data == internalState && s.cursor == 0
      ensures s.Remaining() == Chunks(internalState, ChunkSizeBytes)
    {
      s := new ChunkStream(internalState);
    }

    /**
     * Not cloud-backed, the mode chosen from `is_localizing` at construction,
     * and the `.pbstream` internal-state format.
     */
    method Properties() returns (p: SlamProperties)
      requires Valid()
      ensures !p.cloudSlam
      ensures p.mappingMode == LocalizationOnly <==> cfg.IsLocalizing
      ensures p.internalStateFileType == ".pbstream"
    {
      p := SlamProperties(false, mode, InternalStateFileType);
    }
  }
}
