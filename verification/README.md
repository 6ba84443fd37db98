# EEG-Mindball: frame decoding and the live data feed, in Dafny

EEG-Mindball reads a byte stream from one or two EEG amplifiers over a serial
link. It recovers samples from a self-synchronising two-byte framing: the
first byte of a sample has its high bit set. A reduced scalar per chunk goes
into a `LiveDataFeed`, which a fast timer drains into a bounded history for
plotting and band-power estimation. This project models the sequential core
of that pipeline and proves properties of it:

- `frame_decoder.dfy`, module `Frame`, models `decode_output` (`libs/decode.py`).
  - `DecodeOutput` is the decoder loop. The index advances by 1 while
    searching for the sync byte and by 2 once synchronised.
  - It is proved equal to the declarative `Decode`: nothing before the first
    sync byte that has a partner, then every complete pair from there on.
  - The lemmas cover:
    - when the output is empty;
    - the exact output length and the sample at each position;
    - the bound on samples (numpy's `uint16` arithmetic never wraps);
    - skipping of a low prefix, and blind decoding after sync;
    - the byte/sample split;
    - a round trip against the sender's packing, including a chunk that starts
      in the middle of a sample;
    - a decoded example.
- `even_stride_decoder.dfy`, module `EvenStride`, models the decoder loop of
  `serial_com` (`testing.py`) over a byte sequence that is already flattened.
  - `SerialDecode` visits only even offsets. It is proved equal to
    `DecodeEven`, and its lemmas mirror the ones above.
  - It is cross-checked against `Decode`. The two agree whenever the first
    sync byte sits at an even index. They can differ otherwise, for example
    on `[0x01, 0x85, 0x86, 0x00]`.
- `live_data_feed.dfy`, module `Feed`, models the class `LiveDataFeed`
  (`livedatafeed.py`) as a Dafny class with the four fields of the source.
  - The methods state the complete new state, including which channel is
    left untouched.
  - The bounded-history behaviour is the function `Appended`. The lemma
    `AppendAllKeepsNewest` proves the FIFO property for any run of appends.
  - The monitor windows' fast-timer drain (`Drain`) and signal reset
    (`ResetHistory`) are methods of the class.
- `wrappers.dfy` holds the `Option` type.

The input `[0x05, 0x82, 0x10, 0x01, 0x00, 0x05]` decodes, as the code
is written, to `[272, 128]`:
- `0x05` is skipped;
- `0x82 0x10` gives 272;
- the pair `0x01 0x00` is taken under the established sync and gives 128;
- the last `0x05` has no partner and is dropped.

This is `Frame.DecodeExample`.

## Model

| member | source | states |
|---|---|---|
| `Frame.Low7` | libs/decode.py:17 | `b & 127` on a byte lies in 0..127 |
| `Frame.LowBitsAsMod` | libs/decode.py:17 | masking an 8-bit value with 0x7F equals taking it modulo 128, which is how `Low7` writes the mask |
| `Frame.ToUint16` | libs/decode.py:17-18 | `np.uint16` keeps a value already in 0..65535 unchanged |
| `Frame.Sample` | libs/decode.py:17-18 | the sample `(hi & 127) * 128 + lo` of two bytes is at most 127 * 128 + 255 = 16511 |
| `Frame.NumpySample` | libs/decode.py:17-18 | the source's computation with `np.uint16` after the multiplication and after the addition equals the unwrapped `Sample`, so neither step wraps |
| `Frame.FirstSync` | libs/decode.py:10-22 | the search phase finds the first index `k < len - 1` with a byte above 127; every byte before it is at most 127; if there is none, no such byte exists below `len - 1` (both directions) |
| `Frame.AllPairsAt` | libs/decode.py:23-28 | cutting a byte sequence into pairs yields exactly `len div 2` samples, the `j`-th from bytes `2j` and `2j + 1` |
| `Frame.AllPairsDropsOdd` | libs/decode.py:10 | a trailing unpaired byte contributes nothing (the loop stops at `len - 1`) |
| `Frame.DecodeOutput` | libs/decode.py:3-29 | the while loop, with its 1-or-2 index step, sync flag and output list, returns exactly `Decode(line)`; the loop terminates because the index strictly increases |
| `Frame.DecodeEmptyIff` | libs/decode.py:10-22 | the output is empty exactly when no byte above 127 stands at an index below `len - 1`, which covers empty and one-byte chunks and a high byte only in last position |
| `Frame.DecodeShape` | libs/decode.py:10-28 | with `k` the first sync index, the output has exactly `(len - k) div 2` samples (a trailing odd byte is dropped), the first is `(b[k] & 127) * 128 + b[k+1]`, and the `j`-th comes from the pair at `k + 2j` with no high-bit check |
| `Frame.DecodeBounded` | libs/decode.py:17-26 | every decoded sample is at most 127 * 128 + 255 = 16511 |
| `Frame.DecodeSkipsLowPrefix` | libs/decode.py:12-22 | bytes of at most 127 in front of a chunk change nothing in its output |
| `Frame.DecodeAfterSync` | libs/decode.py:23-28 | after a low prefix and a sync pair, the rest of the chunk is cut blindly into pairs: later bytes above 127 do not resynchronise |
| `Frame.SampleSplits` | libs/decode.py:17-18 | when the second byte is below 128, sample div 128 is the first byte's low seven bits and sample mod 128 is the second byte |
| `Frame.Encode` | plotting_data_monitor_2eeg.py:4-7 | generalises the header's layout (3 high bits in the first byte, 7 low bits in the second, the case `v < 2^10`) to the 7 high bits the decoder reads: a byte above 127 (the start marker the decoder looks for at libs/decode.py:13) followed by a byte of at most 127 |
| `Frame.EncodeDecodes` | plotting_data_monitor_2eeg.py:4-7 | decoding the two packed bytes of any value below 2^14, which includes the header's 10-bit values, gives the value back |
| `Frame.EncodeAll` | plotting_data_monitor_2eeg.py:4-7 | packing a run of values takes two bytes per value |
| `Frame.AllPairsEncoded` | libs/decode.py:23-28 | cutting a packed run into pairs gives back the values |
| `Frame.DecodeEncoded` | libs/decode.py:10-28 | decoding an aligned stream of packed values returns exactly those values |
| `Frame.DecodeEncodeAll` | libs/decode.py:10-28 | a chunk that starts after any low bytes, such as the tail of a sample cut at the chunk boundary, still decodes to exactly the packed values that follow |
| `Frame.DecodeExample` | libs/decode.py:10-28 | `[0x05, 0x82, 0x10, 0x01, 0x00, 0x05]` decodes to `[272, 128]` |
| `EvenStride.FirstEvenSync` | testing.py:45-53 | the search, counting pairs, stops only at an even index `2m` below `len - 1` whose byte is above 127 |
| `EvenStride.FirstEvenSyncSpec` | testing.py:45-53 | the search finds the first such even index: no even index before it has a byte above 127, and it finds none exactly when no even index below `len - 1` has one (both directions) |
| `EvenStride.SerialDecode` | testing.py:43-59 | the loop over `i = 0, 2, 4, … < len - 1`, with its sync flag and output list, returns exactly `DecodeEven(lines)` |
| `EvenStride.DecodeEvenEmptyIff` | testing.py:45-53 | the output is empty exactly when no even-indexed byte below `len - 1` is above 127, so a high byte at an odd index never starts a frame |
| `EvenStride.DecodeEvenShape` | testing.py:45-58 | with `k = 2m` the first even sync index, there are exactly `(len - k) div 2` samples, and the `j`-th is the sample of the pair at `k + 2j`, taken with no high-bit check |
| `EvenStride.DecodeEvenBounded` | testing.py:51-58 | every sample the even-stride loop produces is at most 127 * 128 + 255 = 16511 |
| `EvenStride.OddByteBeforeSyncIgnored` | testing.py:45-47 | any odd-indexed byte before the first frame can be replaced, even by a byte above 127, without changing the output |
| `EvenStride.DecodeEvenAgrees` | testing.py:43-59 | when the first sync byte with a partner sits at an even index, or there is none, this loop and `decode_output` give identical output |
| `EvenStride.DecodeEvenDiffersAtOddSync` | testing.py:45-53 | on `[0x01, 0x85, 0x86, 0x00]` `decode_output` gives `[774]` and the even-stride loop gives `[768]` |
| `EvenStride.DecodeEvenEncoded` | testing.py:43-59 | an aligned stream of packed values decodes back to those values |
| `Feed.Appended` | livedatafeed.py:34-38 | the new entry is last; a history within capacity stays within capacity; below capacity it is `old + [e]`, and at exactly 1000 it is `old[1..] + [e]` |
| `Feed.Newest` | livedatafeed.py:36-38 | the newest 1000 entries of a sequence, which never holds more than 1000 |
| `Feed.AppendAllKeepsNewest` | livedatafeed.py:34-38 | any run of appends to a history within capacity leaves exactly the newest 1000 of old and new entries, with the oldest evicted first |
| `Feed.AppendOneTooMany` | livedatafeed.py:34-38 | appending 1001 entries to an empty history leaves exactly entries 2..1001 |
| `Feed.LiveDataFeed.constructor` | livedatafeed.py:20-24 | `cur_data` is None, both flags are false, the history is empty |
| `Feed.LiveDataFeed.AddData` | livedatafeed.py:26-28 | overwrites `cur_data`, sets `has_new_data`, leaves the history channel untouched |
| `Feed.LiveDataFeed.ReadData` | livedatafeed.py:30-32 | returns `cur_data` and clears `has_new_data`, leaving `cur_data` unchanged (so a repeated read returns the same value) and the history channel untouched |
| `Feed.LiveDataFeed.AppendData` | livedatafeed.py:34-39 | the history becomes `Appended(old, (timestamp, temperature))` and `updated_list` is set; the value cell is untouched; the invariant is kept |
| `Feed.LiveDataFeed.ReadList` | livedatafeed.py:41-43 | returns the history unchanged without draining it and clears `updated_list`; the value cell is untouched |
| `Feed.LiveDataFeed.Drain` | plotting_data_monitor_2eeg.py:408-412 | with new data, the current value is appended to the history and the flag is cleared; without it, nothing changes |
| `Feed.LiveDataFeed.ResetHistory` | plotting_data_monitor_2eeg.py:333-338 | the history becomes empty with `updated_list` false; the value cell is untouched |
| `Feed.LatestWins` | livedatafeed.py:26-32 | after two `add_data` calls with no read in between, `read_data` returns the second reading |
| `Feed.TickThenReadTwice` | livedatafeed.py:26-43 | two publishes then two fast ticks put only the latest reading in the history, once; two `read_list` calls return that same list and leave `updated_list` false |

## Left out

- Conversion with `np.fromstring` (libs/decode.py:4; testing.py:40) is not modelled. Each decoder takes a sequence of bytes 0..255.
- Serial port I/O, the 10-second capture, the "StartUp" stripping, the flattening of chunks, and the matplotlib plot (testing.py:13-41, 61-70) are not modelled. `SerialDecode` starts from the flattened bytes.
- `read_list` hands back the live Python list, so a caller sees later appends (livedatafeed.py:43). `ReadList` returns a snapshot `seq` instead, so this aliasing is not captured.
- Reading values are modelled as `real`. The feed only stores them. The float semantics and NaN produced by `np.nanmean` over an empty decode are not modelled.
- Python allows `append_data` on a dict that lacks the keys, and a drain with `cur_data` still `None`; both raise in the source. The model types the reading, and `Drain` requires `Valid()`, which rules out the second case. Every path through the monitor keeps `Valid()`.
- Threads, queues and timers (`ComMonitorThread`, `read_serial_data`, `on_start`/`on_stop`) are not modelled. The feed has no locking, so the model is sequential.
- The Qt presentation, the scipy/numpy signal processing (interpolation, band-pass filter, FFT, band power), the ball and winner logic with its random noise, and audio playback (libs/read_audio.py) are not modelled. They are floating point, random or I/O.
