# fake-slam: verified model of the data-replay core

`fake-slam` is a test double for a SLAM (simultaneous localization and
mapping) service. It does no mapping. It replays three fixed point-cloud
fixtures and one internal-state blob. This project models the part of
`models/module.go` that has state:

- **Map rotator.** The service counts `PointCloudMap` calls in `cnt`. After
  incrementing the counter it picks fixture `cnt / nextMap % 3`, using Go's
  truncating `/` and `%`. A configured threshold of 0 becomes 5.
- **Chunked reader.** `toChunkedFunc` wraps a payload in a pull function. The
  function owns a `bytes.Reader` cursor and one reused 1 MiB buffer. Each pull
  copies the next `min(1 MiB, remaining)` bytes into that buffer and returns a
  slice of it. At the end of the payload it returns `(nil, io.EOF)`.
- **Mode and properties.** `is_localizing` chooses the mapping mode.
  `Properties` reports that mode, `CloudSlam = false` and the `.pbstream`
  file type.

Files and modules:

- `go_int.dfy` (`GoInt`): Go's truncating division and remainder, with their
  defining properties.
- `rotation.dfy` (`Rotation`): the fixture-index expression and what it does
  over a run of calls.
- `chunked.dfy` (`Chunked`): the class `ChunkStream` for the closure returned
  by `toChunkedFunc`. The payload `data` and the buffer `chunk` are
  constants, and the reader offset `cursor` is a field. The specification
  function `Chunks` lists the chunks a stream delivers. The ghost function
  `Remaining()` gives the chunks that are still to come.
- `fake_slam.dfy` (`FakeSlam`): the class `FakeSlamService` for
  `fakeSlamFake`. Only `cnt` is a `var`, so the threshold, the mode and the
  fixtures cannot change after construction.

After `k` calls to `PointCloudMap`, `cnt` is `k`: the constructor sets it to 0
and each call adds exactly 1. So the `Rotation` lemmas about
`SelectIndex(k, T)` describe call `k`.

Two behaviours of `models/module.go` that the model makes explicit:

- `calls_till_next_map` is kept as configured unless it is 0, negative values
  included, and `Validate` accepts every configuration. With threshold `-m`,
  calls `1 .. m-1` select fixture 0, and call `m` computes index -1, on which
  Go panics. `PointCloudMap` returns that panic as an `IndexPanic` outcome,
  after the counter has already been incremented.
- The counter is incremented before the division, so the first block is one
  call short: calls `1 .. T-1` get fixture 0 and call `T` already gets
  fixture 1. With the default of 5, the blocks are 1-4, 5-9, 10-14 and 15-19.

## Model

| member | source | states |
|---|---|---|
| GoInt.Quo | models/module.go:157 | Go's truncating `/`; no contract of its own, its properties are the `GoInt` lemmas below |
| GoInt.Rem | models/module.go:157 | Go's `%`, the remainder that goes with `Quo`; no contract of its own, its properties are `RemMagnitude` and `RemBounds` |
| Rotation.SelectIndex | models/module.go:157 | The fixture index `cnt / nextMap % 3` with Go's operators; no contract of its own, its properties are the `Rotation` lemmas below |
| GoInt.QuoRemNatural | models/module.go:157 | For a non-negative counter and a positive threshold, Go's `/` and `%` agree with Euclidean division |
| GoInt.QuoRemNegDivisor | models/module.go:157 | For a negative threshold, Go's quotient is the negated quotient by its magnitude, and the remainder is unchanged |
| GoInt.RemMagnitude | models/module.go:157 | Go's remainder is the remainder of the magnitudes, with the dividend's sign |
| GoInt.RemBounds | models/module.go:157 | Go's remainder recombines with the quotient to the dividend, is smaller than the divisor in magnitude, and has the dividend's sign |
| Rotation.IndexInRange | models/module.go:157 | With `nextMap > 0`, the selected index is in `[0, 3)` and equals `(cnt / nextMap) mod 3` |
| Rotation.IndexNegativeThreshold | models/module.go:157 | With `nextMap < 0`, the index is never positive, and it is negative exactly when `cnt / -nextMap` is not a multiple of 3 |
| Rotation.NegativeThresholdFailsAtCall | models/module.go:156-157 | With threshold `-m`, calls `1 .. m-1` select fixture 0 and call `m` computes the out-of-range index -1 |
| Rotation.FirstBlockShort | models/module.go:156-157 | Because the increment comes before the division, calls `1 .. T-1` get fixture 0 and call `T` gets fixture 1 |
| Rotation.BlockSelectsFixture | models/module.go:156-157 | Every call in block `j` (`j*T .. j*T+T-1`) gets fixture `j mod 3` |
| Rotation.RotationPeriod | models/module.go:156-157 | The selected fixture repeats with period `3*T` calls |
| Rotation.DefaultThresholdSchedule | models/module.go:114-116 | With the default threshold of 5, calls 1-4, 5-9, 10-14 and 15-19 get fixtures 0, 1, 2 and 0 |
| Chunked.ChunksEmpty | models/module.go:175-178 | A stream delivers no chunk exactly when its payload is empty |
| Chunked.ChunkCount | models/module.go:170-181 | A payload of length `L` is delivered in exactly `ceil(L / C)` chunks |
| Chunked.ChunksConcat | models/module.go:174-180 | Concatenating the delivered chunks gives back the payload byte for byte |
| Chunked.ChunkSizes | models/module.go:170-179 | Every chunk is non-empty and at most `C` bytes, and every chunk except the last is exactly `C` bytes |
| Chunked.LargePayloadChunks | models/module.go:18 | With the 1 MiB chunk size, a 2,500,000-byte payload comes as 1,048,576, 1,048,576 and 402,848 bytes |
| Chunked.ChunkStream.constructor | models/module.go:169-173 | A new stream has a fresh 1 MiB buffer and a cursor at offset 0, and its remaining chunks are `Chunks(payload, 1 MiB)` |
| Chunked.ChunkStream.Read | models/module.go:175 | `bytes.Reader.Read`: at the end it reports EOF and reads nothing. Otherwise it copies `min(len(b), remaining)` bytes to the front of `b`, leaves the rest of `b` unchanged and advances the cursor by that count |
| Chunked.ChunkStream.Pull | models/module.go:174-180 | A pull returns a view of the shared buffer holding the next chunk, leaves the buffer past that chunk untouched and drops the chunk from `Remaining()`. At the end it returns EOF, leaves the cursor and the whole buffer unchanged and keeps returning EOF |
| FakeSlam.Validate | models/module.go:69-72 | Every configuration is accepted, with no implicit dependencies |
| FakeSlam.ResolveThreshold | models/module.go:112-116 | The threshold is never 0: 0 becomes 5 and every other value, negative ones included, is kept |
| FakeSlam.ModeFor | models/module.go:117-121 | The mode is localization-only exactly when `is_localizing` is set, and new-map otherwise |
| FakeSlam.FakeSlamService.constructor | models/module.go:106-121 | The service stores the config, the resolved threshold, the chosen mode, the three fixtures in order and the internal state, with the counter at 0 |
| FakeSlam.FakeSlamService.PointCloudMap | models/module.go:153-159 | Adds exactly 1 to the counter and changes nothing else. It then streams fixture `SelectIndex(cnt, nextMap)` from offset 0, or panics on a negative index, which needs a negative threshold |
| FakeSlam.FakeSlamService.InternalState | models/module.go:161-166 | Leaves the service unchanged and streams the internal-state payload from offset 0 |
| FakeSlam.FakeSlamService.Properties | models/module.go:184-186 | Reports not cloud-backed, localization-only mode exactly when configured, and the `.pbstream` file type |

## Left out

- `Position` (models/module.go:148-151) is not modelled. It draws random floats and builds poses through a library that is not part of this model.
- Loading the embedded fixture files is not modelled. The constructor receives the three point clouds and the internal state already loaded, so load failures are not modelled either.
- Service registration, `NativeConfig` parsing, the context and cancel fields, `Name`, `DoCommand` and the trivial reconfigure/close embeds are not modelled. They are plumbing over the host runtime library.
- The `sync.Mutex` is not modelled. Calls are treated as sequential, and the lock's only job is to keep the increment and the index computation together.
- `ctx` parameters and the `error` results that the core always returns as `nil` are not modelled.
- FakeSlam.FakeSlamService.PointCloudMap: `cnt` is unbounded. Go's `int` (64 bits on 64-bit targets, 32 on 32-bit ones) would wrap after 2^63-1 (or 2^31-1) calls; after the wrap `cnt` is negative, so even a positive threshold gives a negative index and a panic. The model does not capture that.
- `MappingMode` has only the two values the constructor can choose. The runtime library's other modes are never reported by this service.
- Chunked.ChunkStream.Pull: an in-memory `bytes.Reader` only ever fails with `io.EOF`, so no other transfer error is modelled.
- `main.go` is not modelled. It only calls the module runtime's entry point.
