# Audio dashboard core in Dafny

This project models the signal and storage engine of a Python audio dashboard. The dashboard talks to an FPGA audio device over raw Ethernet. It receives packed 24-bit stereo samples and sends back a bank of twelve 32-bit control registers. It keeps the most recent samples of each channel in a circular store and shows their spectrum, either averaged or max-held over the last few frames.

The model has eight modules:

- `Results` (`results.dfy`) defines the `Option` and `Result` values that failing operations return: a missing register key, a word that does not fit in 32 bits.
- `Registers` (`registers.dfy`) models the register bank `RegBlock`. It is a class over an `array<int>` of twelve words. Keys are names or Python list indices. Every stored value is masked to 32 bits.
- `Cyclic` (`cyclic.dfy`) holds the index arithmetic of the circular store, as pure functions on sequences:
  - which cells `read(n)` returns;
  - which cells a write replaces;
  - the store invariant. The most recent `min(total, N)` samples sit just before the cursor.
- `Spectral` (`spectral.dfy`) covers the integer side of the spectrum queries: `1 << bit_length(n_fft - 1)`, zero-padding and truncation, windowing, and the frequency axis.
- `Samples` (`samples.dfy`) models `RingBuffer`. It is a class over an `array` of signed 32-bit samples with a write cursor, a transform cache keyed by `(n_fft, window)` and validated by the cursor, and a window cache. Each method is proved against the pure specification in `Cyclic` and `Spectral`. A ghost history of everything written states what the store holds.
- `Link` (`link.dfy`) covers the Ethernet side:
  - the inbound filter (EtherType 0x88B5, and the peer's address as source, compared case-insensitively);
  - the 24-bit big-endian two's-complement decoding of the 6-byte sample groups;
  - `handle_packet`;
  - the serialisation of the register bank into the outbound frame.
- `Bits` (`bits.dfy`) defines bitwise OR and XOR on natural numbers, which the decoder's `|` and `^` need.
- `AvgHold` (`avg_hold.dfy`) models the spectrum averaging stage of the GUI. It is a class over two `array2<real>` row stores with a cyclic row cursor and a count. Reading it gives the per-bin mean or maximum of the held rows.

The floating-point numerics are not modelled. These are the real FFT and the Hann, Hamming and Blackman window formulas. `RingBuffer` takes them as constant function fields, `rfft` and `window`. What is proved about the caches is that they always return what a fresh computation with those functions would return. Samples become reals exactly, because a float64 holds every 32-bit integer.

Three details of the code shape the model:

- **Averaging with no rows held.** `_avg_hold_get` has no branch for an empty store (`Py_Dashboard/gui.py:619-629`). With no store it fails on `None`, `max` of an empty slice raises and `mean` gives NaN. The GUI calls it only right after a push (`Py_Dashboard/gui.py:139-140`), so `SpectrumHold.Get` requires `count >= 1`.
- **`read(0)`.** `read(0)` computes `start = (cursor - 0) % N`, which equals the cursor, and takes the two-slice branch, so it returns the whole store (`Py_Dashboard/buffer.py:98-103`). `ReadCount` models this.
- **Truncation in `get_fft`.** For `n_fft >= 1` the block read is never longer than `1 << bit_length(n_fft - 1)`, so the cutting branch (`Py_Dashboard/buffer.py:132-133`) is not reached (`Samples.NoTruncation`). Among `n_fft >= 0` it is reached only for `n_fft = 0`: `bit_length(-1)` is 1, the padded length is 2 and `read(0)` returns the whole store (`Spectral.PaddedLenOfZero`). A negative `n_fft` is not clamped by `read` either and can be cut too.

## Model

| member | source | states |
|---|---|---|
| Registers.Defaults | Py_Dashboard/buffer.py:7-20 | The bank starts with twelve registers, each an unsigned 32-bit word. |
| Registers.NamesAreABijection | Py_Dashboard/buffer.py:24-37 | The name table maps the twelve register names one-to-one onto indices 0..11. It is the inverse of the ordered name list. |
| Registers.Mask32 | Py_Dashboard/buffer.py:45 | `value & 0xFFFFFFFF` is a word congruent to `value` modulo 2^32. It is the identity on words. |
| Registers.Resolve | Py_Dashboard/buffer.py:41-44 | A name resolves exactly when it is in the table, and then to its table index. An integer resolves exactly when it lies in -12..11 (Python list indexing). A non-negative integer resolves to itself and a negative one to itself plus 12. An unknown name fails with `KeyError(name)` and an out-of-range integer with `IndexError(index)`. |
| Registers.Assign | Py_Dashboard/buffer.py:39-45 | `set` succeeds exactly when the key resolves, and otherwise fails with the resolver's error. On success the resolved slot holds the masked value and every other slot keeps its value. |
| Registers.Lookup | Py_Dashboard/buffer.py:47-53 | `get` succeeds exactly when the key resolves, and otherwise fails with the resolver's error. On a bank of words it returns a word. |
| Registers.SetThenGet | Py_Dashboard/buffer.py:39-53 | `set` succeeds exactly when the key resolves. A following `get` of the same key returns the masked value. |
| Registers.SetLeavesOthers | Py_Dashboard/buffer.py:39-53 | `set` leaves the reading of every key that resolves to another slot unchanged. |
| Registers.SetKeepsWords | Py_Dashboard/buffer.py:45 | After any successful `set`, every register is still a 32-bit word, whatever integer was given. |
| Registers.RegBlock.constructor | Py_Dashboard/buffer.py:6-20 | A new bank holds exactly the default values. |
| Registers.RegBlock.Set | Py_Dashboard/buffer.py:39-45 | On success the array becomes the `Assign` specification of the old contents. On failure it reports the KeyError or IndexError and leaves the array unchanged. Every register stays a word. |
| Registers.RegBlock.Get | Py_Dashboard/buffer.py:47-53 | Succeeds exactly when the key resolves, and then returns the word in the resolved slot. |
| Registers.RegBlock.Dump | Py_Dashboard/buffer.py:55-57 | A copy of all twelve registers in index order, each a 32-bit word. |
| Cyclic.ReadFrom | Py_Dashboard/buffer.py:93-103 | `read(n)` never returns more samples than the store holds, and never returns none, whatever `n` is. |
| Cyclic.SplitCopy | Py_Dashboard/buffer.py:79-86 | The one-slice or two-slice copy keeps the store's length. |
| Cyclic.SplitCopyIsArc | Py_Dashboard/buffer.py:79-86 | The one-slice or two-slice copy of `write` replaces exactly the cyclic arc starting at the cursor, and no other cell. |
| Cyclic.WriteNothing | Py_Dashboard/buffer.py:75-76 | An empty write leaves the store and the cursor unchanged. |
| Cyclic.Advance | Py_Dashboard/buffer.py:88 | The new cursor is again a valid index of the store. |
| Cyclic.ReadIsRecent | Py_Dashboard/buffer.py:93-103 | For every `n >= 0`, `read(n)` returns the `min(n, N)` most recent cells, oldest first. For `n = 0` it returns all `N`. |
| Cyclic.ReadOneSlice | Py_Dashboard/buffer.py:100-101 | The one-slice branch returns the cells just before the cursor. |
| Cyclic.ReadTwoSlices | Py_Dashboard/buffer.py:102-103 | The two-slice branch (tail, then head) returns the cells just before the cursor, across the wrap. |
| Cyclic.RecentSuffix | Py_Dashboard/buffer.py:93-103 | Reading fewer recent cells gives a suffix of reading more. |
| Cyclic.RecentAfterWrite | Py_Dashboard/buffer.py:72-103 | After a write, the `n` most recent cells are the last `n` written when `n <= len(data)`. Otherwise they are the older recent cells followed by all of `data`. |
| Cyclic.HistoryAfterWrite | Py_Dashboard/buffer.py:72-88 | The store invariant (the last `min(total, N)` samples sit just before the cursor) is kept by every write. |
| Cyclic.LongWriteRetains | Py_Dashboard/buffer.py:72-88 | The invariant holds after a write at least as long as what the store holds. |
| Cyclic.ShortWriteRetains | Py_Dashboard/buffer.py:72-88 | The invariant holds after a shorter write: the older history stays in front of the new samples. |
| Cyclic.WriteStep | Py_Dashboard/buffer.py:79-88 | The code's copy and cursor update equal the arc write, and they keep the invariant for the extended history. |
| Cyclic.WriteThenRead | Py_Dashboard/buffer.py:72-103 | Reading back as many samples as were just written returns exactly them. |
| Cyclic.WrapAround | Py_Dashboard/buffer.py:72-103 | After a write, the full-store read drops the oldest `len(data)` cells and appends `data`. |
| Cyclic.FullWriteKeepsCursor | Py_Dashboard/buffer.py:72-88 | A write of exactly `N` samples leaves the cursor in place, and the store then reads back as that data. |
| Spectral.ShapeOf | Py_Dashboard/buffer.py:152-157 | "hann" selects Hann and "hamming" selects Hamming. Every other name selects Blackman. |
| Spectral.PaddedLen | Py_Dashboard/buffer.py:107 | `1 << bit_length(n_fft - 1)` is a power of two for every `n_fft`. |
| Spectral.Fit | Py_Dashboard/buffer.py:127-133 | The zero-padded or cut block has exactly the padded length. |
| Spectral.FreqAxis | Py_Dashboard/buffer.py:142-145 | `rfftfreq(padded, 1/48000)` has `padded/2 + 1` entries and starts at 0 Hz. |
| Spectral.BitLengthBounds | Py_Dashboard/buffer.py:107 | A number whose `bit_length` is `b` lies in `[2^(b-1), 2^b)`. |
| Spectral.PaddedLenIsLeastPow2 | Py_Dashboard/buffer.py:107 | For `n_fft >= 1` the padded length is the least power of two that is at least `n_fft`. |
| Spectral.PaddedLenOfZero | Py_Dashboard/buffer.py:107 | For `n_fft = 0` the padded length is 2. |
| Spectral.FitShape | Py_Dashboard/buffer.py:127-133 | The transform input always has the padded length. A shorter block is kept whole and followed by zeros. A longer one is cut to its newest samples. |
| Spectral.FreqAxisSpan | Py_Dashboard/buffer.py:142-145 | The axis has `padded/2 + 1` bins, starts at 0 Hz and steps by `48000/padded` Hz. For a padded length of at least 2 it ends at the Nyquist frequency, 24000 Hz. |
| Samples.AsReal | Py_Dashboard/buffer.py:120 | The float conversion keeps length and every sample value. |
| Samples.NoTruncation | Py_Dashboard/buffer.py:107-133 | For `n_fft >= 1` the block read is at most `n_fft` samples, and `n_fft` is at most the padded length, so the block is padded and never cut. |
| Samples.RingBuffer.SpectrumOf | Py_Dashboard/buffer.py:106-140 | The transform of the newest samples, windowed and fitted to the padded length. With a real transform of `numpy.fft.rfft`'s shape it has `padded/2 + 1` bins. |
| Samples.RingBuffer.constructor | Py_Dashboard/buffer.py:61-70 | A new buffer is all zeros, with cursor 0, empty caches and an empty history. |
| Samples.RingBuffer.CopySlice | Py_Dashboard/buffer.py:82-86 | The slice assignment replaces exactly the cells of the slice. |
| Samples.RingBuffer.Write | Py_Dashboard/buffer.py:72-91 | The store becomes the arc write of `data`, and the cursor advances by `len(data)` modulo `N`. The history grows by `data`, so the store invariant is kept. A non-empty write clears the transform cache. An empty write changes nothing. The window cache is untouched. |
| Samples.RingBuffer.Read | Py_Dashboard/buffer.py:93-103 | The result is the code's read. For `n >= 0` it is the `min(n, N)` most recent cells (all `N` for 0). Once that many samples have been written, it is exactly the last ones written. |
| Samples.RingBuffer.GetWindow | Py_Dashboard/buffer.py:147-160 | Returns the window formula for `(length, kind)` with `length` coefficients. A miss records it in the cache. A hit leaves the cache unchanged. |
| Samples.RingBuffer.GetFft | Py_Dashboard/buffer.py:106-140 | Whether the cache hits or misses, the result is the transform of the current newest samples, windowed and fitted to the padded length. A hit requires an entry recorded at the current cursor. A miss records the result under the current cursor, and adds exactly the window key `(len(x), kind)` to the window cache through `_get_window`. A hit leaves both caches unchanged. The store never changes, and every cursor-valid cache entry stays correct. |
| Samples.RingBuffer.FreshFft | Py_Dashboard/buffer.py:119-137 | The miss path returns the transform of the current newest samples, and adds the window for their length and `kind` to the window cache. |
| Samples.RingBuffer.AxisMatchesSpectrum | Py_Dashboard/buffer.py:142-145 | The frequency axis has one entry per bin of the transform for the same `n_fft`. |
| Link.Admits | Py_Dashboard/network.py:39-41 | An admitted frame has EtherType 0x88B5 and a source address as long as the peer's. |
| Link.LowerIdempotent | Py_Dashboard/network.py:40 | Lower-casing an address twice is lower-casing it once. |
| Link.AdmitsIgnoresCase | Py_Dashboard/network.py:39-41 | A frame is admitted exactly when it has EtherType 0x88B5 and its lower-cased source is the peer's lower-cased address. The case of the source never matters. |
| Link.Be24 | Py_Dashboard/network.py:47-48 | `(b0 << 16) \| (b1 << 8) \| b2` is the big-endian value `65536*b0 + 256*b1 + b2`, below 2^24. |
| Link.Be24IsSum | Py_Dashboard/network.py:47-48 | The OR of the three shifted bytes is their sum. |
| Bits.OrShift | Py_Dashboard/network.py:47-48 | Shifting both operands left by `k` shifts their OR by `k`. |
| Bits.OrDisjoint | Py_Dashboard/network.py:47-48 | ORing a field shifted by `k` with a value below `2^k` adds them. |
| Bits.Pow2Values | Py_Dashboard/network.py:47-49 | `1 << 8`, `1 << 16` and `1 << 23` have their usual values. |
| Bits.XorTopBit | Py_Dashboard/network.py:49 | XOR with `2^k` flips bit `k` of a value below `2^(k+1)`. |
| Link.SignExtend24 | Py_Dashboard/network.py:49 | `(u ^ (1 << 23)) - (1 << 23)` is the two's-complement reading of a 24-bit word: `u` below 2^23, `u - 2^24` otherwise. It is congruent to `u` modulo 2^24. |
| Link.DecodeLayout | Py_Dashboard/network.py:43-53 | A payload of `L` bytes gives `max(0, L // 6 - 1)` pairs on each channel. Pair `g` is read from offsets `6+6g` (left) and `9+6g` (right). The header and a trailing partial group are ignored. |
| Link.BodyShape | Py_Dashboard/network.py:43-45 | `payload[6 : (len // 6) * 6]` is a whole number of 6-byte groups. It is empty below 12 bytes, and otherwise the payload after its header, less fewer than 6 trailing bytes. |
| Link.DecodeCount | Py_Dashboard/network.py:43-45 | The sliced body holds exactly that number of whole groups. |
| Link.DecodeAt | Py_Dashboard/network.py:45-53 | Pair `g` of the decode, located in the payload. |
| Link.SampleInSlice | Py_Dashboard/network.py:45 | Reading a sample from the sliced body is reading it at the shifted payload offset. |
| Link.KnownSamples | Py_Dashboard/network.py:47-53 | `00 00 01` decodes to 1, `FF FF FF` to -1 and `80 00 00` to -8388608. |
| Link.SampleRoundTrip | Py_Dashboard/network.py:47-53 | Decoding the 3-byte big-endian two's-complement encoding of any 24-bit sample returns that sample. The encoder is the model's own reference packing, since the device firmware is not part of this model. |
| Link.GroupsAt | Py_Dashboard/network.py:45-53 | Group `g` of a packed body holds the encodings of the `g`-th left and right samples. |
| Link.SampleInFrame | Py_Dashboard/network.py:45-53 | A sample packed at body offset `j` is decoded from payload offset `6 + j`. |
| Link.FramedCount | Py_Dashboard/network.py:44 | A framed payload with `n` groups and under 6 stray bytes decodes to `n` pairs. |
| Link.FramedAt | Py_Dashboard/network.py:45-53 | Pair `g` of a framed payload decodes to the `g`-th packed pair. |
| Link.DecodeFramed | Py_Dashboard/network.py:43-53 | Round trip: any 6-byte header, then equal-length packed channels, then fewer than 6 stray bytes, decodes to exactly those channels. |
| Link.HandlePacket | Py_Dashboard/network.py:38-56 | A frame the filter rejects changes neither buffer. An admitted frame decodes to `max(0, L // 6 - 1)` pairs. Its left samples are written into the left buffer and its right samples into the right buffer, each as that buffer's `write` does: the arc write of the store, the cursor advance and the transform-cache clear when non-empty. Both histories grow by those samples and both buffers keep their invariants. The window caches never change. |
| Link.WordBytes | Py_Dashboard/network.py:70 | `to_bytes(4, "big")` succeeds exactly for values in `[0, 2^32)`, and gives four bytes. |
| Link.Serialise | Py_Dashboard/network.py:70 | A successful join has four bytes per word. |
| Link.WordRoundTrip | Py_Dashboard/network.py:70 | `to_bytes(4, "big")` succeeds exactly for words. The model's big-endian reference decoder reads the four bytes back as the word. |
| Link.SerialiseSucceeds | Py_Dashboard/network.py:70 | Serialising a word list succeeds exactly when every entry is a 32-bit word. |
| Link.SerialiseRoundTrip | Py_Dashboard/network.py:70 | A successful serialisation has four bytes per word, and it reads back as the original words. |
| Link.RegisterPayload | Py_Dashboard/network.py:70 | For every bank state, `dump()` serialises to 48 bytes that read back as the twelve registers in index order. |
| Link.RegisterFrame | Py_Dashboard/network.py:70-72 | The outbound frame exists exactly when every register is a word. It has EtherType 0x88B5 and four payload bytes per register. |
| Link.RegisterFrameAddressing | Py_Dashboard/network.py:70-72 | The register frame goes to the peer (`dst=SRC_MAC`) with EtherType 0x88B5. Its source is the all-ones placeholder (`src=DST_MAC`), so the inbound filter would not admit it. Its payload is 48 bytes that read back as the twelve registers. |
| AvgHold.Mean | Py_Dashboard/gui.py:623-624 | `mean(axis=0)` gives one value per bin. |
| AvgHold.Peak | Py_Dashboard/gui.py:626-627 | `max(axis=0)` gives one value per bin, at least every held value of that bin. |
| AvgHold.Summary | Py_Dashboard/gui.py:622-627 | The displayed trace has one value per bin, whichever mode is selected. |
| AvgHold.ColMax | Py_Dashboard/gui.py:626-627 | The per-bin maximum bounds every held value of the bin and is attained by one of them. |
| AvgHold.ColSumAppend | Py_Dashboard/gui.py:623-624 | Column sums split over concatenated row blocks. |
| AvgHold.MeanRotate | Py_Dashboard/gui.py:623-624 | The mean does not depend on where the row cursor splits the held rows. |
| AvgHold.MaxUnique | Py_Dashboard/gui.py:626-627 | A bound that every row respects and some row attains is the column maximum. |
| AvgHold.PeakRotate | Py_Dashboard/gui.py:626-627 | The maximum does not depend on where the row cursor splits the held rows. |
| AvgHold.ColSumAtMost | Py_Dashboard/gui.py:623-624 | A column of `n` values at most `hi` sums to at most `n*hi`. |
| AvgHold.ColSumAtLeast | Py_Dashboard/gui.py:623-624 | A column of `n` values at least `lo` sums to at least `n*lo`. |
| AvgHold.MeanWithin | Py_Dashboard/gui.py:623-624 | When every held value of a bin lies in `[lo, hi]`, so does their mean. |
| AvgHold.PeakCovers | Py_Dashboard/gui.py:622-627 | The max-hold trace is at least the newest row, and at least the averaged trace. |
| AvgHold.NewestHeld | Py_Dashboard/gui.py:614-627 | The newest pushed spectrum is among the held ones, so max-hold covers it. |
| AvgHold.ThreeDeepTrace | Py_Dashboard/gui.py:614-627 | Worked case at depth 3: after `[1,1]`, `[2,2]`, `[3,3]` the count is 3, the average is `[2,2]` and the maximum `[3,3]`. Pushing `[0,0]` evicts `[1,1]`: the count stays 3, the average becomes `[5/3,5/3]` and the maximum stays `[3,3]`. |
| AvgHold.HoldsNothing | Py_Dashboard/gui.py:609-612 | A freshly zeroed store with cursor 0 and count 0 holds no spectrum. |
| AvgHold.PushKeeps | Py_Dashboard/gui.py:614-617 | Writing the row under the cursor and then advancing the cursor and count keeps the invariant: the held rows are the most recent pushes. |
| AvgHold.HeldRows | Py_Dashboard/gui.py:619-627 | The first `count` stored rows are the `count` most recent spectra, possibly rotated. Their mean and maximum are those of the most recent spectra. |
| AvgHold.SetRow | Py_Dashboard/gui.py:614-615 | The row assignment replaces that row and no other. |
| AvgHold.SpectrumHold.constructor | Py_Dashboard/gui.py:31-34 | No store yet: cursor and count are 0. |
| AvgHold.SpectrumHold.Push | Py_Dashboard/gui.py:601-617 | Both stores are reallocated exactly when there is no store, or the depth changed, or the spectrum width changed. The spectra are appended to the held history, which restarts on reallocation. The count becomes `min(count + 1, depth)`, or 1 after a reset. |
| AvgHold.SpectrumHold.Reset | Py_Dashboard/gui.py:609-612 | Fresh `depth` x `width` stores whose every cell is 0, with count 0 and nothing held. |
| AvgHold.SpectrumHold.Store | Py_Dashboard/gui.py:614-617 | Appends one spectrum per channel to the held history, and the count grows up to the depth. |
| AvgHold.SpectrumHold.Get | Py_Dashboard/gui.py:619-629 | The result is the per-bin mean ("Avg") or maximum ("MaxHold") of exactly the `count` most recent spectra pushed since the last reset. `count` never exceeds the depth. |
| AvgHold.SpectrumHold.NewestCovered | Py_Dashboard/gui.py:619-629 | The max-hold trace is at least the newest spectrum in every bin, and the averaged trace never exceeds it. |

## Left out

- Locking and threads. The `threading.Lock` sections and the concurrency between the capture thread, the GUI timer and the sender loop are not modelled. Each method is modelled as one atomic step. The race between reading the cursor and the cached transform in `get_fft` is therefore not represented.
- Floating-point numerics. The FFT (`numpy.fft.rfft`), the window formulas (`numpy.hanning`, `hamming`, `blackman`), float rounding in `mean`, and the `log10` of the display are all left out. The transform and the windows are opaque functions given to `RingBuffer`. The averaging uses exact reals.
- Samples.RingBuffer.Write: requires `len(data) <= size`. Every caller writes far fewer samples than a store holds. A standard Ethernet payload of at most 1500 bytes decodes to at most 249 pairs (`Py_Dashboard/network.py:43-56`), the debug generator writes 250 (`Py_Dashboard/network.py:22-30`), and each store holds 240000 samples (`Py_Dashboard/main.py:9`, `Py_Dashboard/gui.py:10`). The code also accepts longer data while `write_ptr + len(data) < 2 * size`, because the second slice assignment then overwrites part of the first. Longer data makes numpy raise. That behaviour is not modelled.
- Link.HandlePacket: requires at most `size` decoded pairs per channel for an admitted frame, for the same reason. A rejected frame carries no condition. It also requires two distinct buffers.
- Scapy I/O. The capture (`AsyncSniffer`, with its `lfilter` that repeats the EtherType test), `sendp`, the 50 ms send loop and the interface name are left out. A frame is a value with addresses, EtherType and payload bytes. `haslayer("Ethernet")` is always true of it.
- The debug sine generator in `producer_thread` (`Py_Dashboard/network.py:20-35`). It is floating-point test signal synthesis.
- Link.Lower: lower-cases ASCII letters only. Full Unicode `str.lower()` is not needed for MAC address strings.
- Registers.RegBlock.Set: non-integer values and keys of other Python types are not represented, because keys are a name or an integer.
- RingBuffer with a non-positive size. `RingBuffer(0)` would divide by zero on the first write, so the constructor requires `size > 0`.
- AvgHold.SpectrumHold.Push: requires the left and right spectra to have the same width. The store reset only looks at the left width, so a right width that changed alone would make numpy raise.
- AvgHold.SpectrumHold.Get: requires at least one held row. That is the state after every push, and the only state in which the code is called.
- The Qt widgets, plotting and the rest of `gui.py`, and the application wiring in `main.py`, are not part of this model.
