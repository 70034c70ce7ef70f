# AFSK baseband processor — a Dafny model

This project models the AFSK (audio frequency-shift keying) transmitter of the
PortaPack baseband firmware: `AFSKProcessor::on_message` and
`AFSKProcessor::execute` in `firmware/baseband/proc_afsk.cpp`.

A configuration message carries four things:

- a 512-byte payload;
- the bit-gate limit `afsk_samples_per_bit` (a bit lasts
  `afsk_samples_per_bit + 1` tone ticks);
- the mark and space phase increments;
- a repeat count, an FM bandwidth, and a framing-format flag.

Each call to `execute` fills a buffer of 8-bit I/Q samples. Every output sample
advances a divide-by-10 sub-divider `s`. Every tenth sample is a *tone tick*.
On a tone tick, the `sample_count` gate may fire, which makes it a *bit tick*.

A bit tick does four things:

- It (re)loads the two-byte window `message_data[byte_pos]`,
  `message_data[byte_pos + 1]`.
- On the all-zero window (the *terminator*), it either restarts the payload and
  reports the repeat number, or reports 0 and stops.
- It sends bit `bit_pos` of the 10-bit frame of the current byte:
  - standard format: start 0, eight data bits MSB first, stop 1;
  - alternate format: start 0, eight data bits, then bit 0 of the next byte.
- It advances the cursor. After the tenth bit, `byte_pos` moves on by 1 byte
  (standard format) or 2 bytes (alternate format).

Each tone tick then advances the 32-bit tone phase by the mark or space
increment. Each sample deviates the 32-bit carrier phase by the tone sample
times the bandwidth. The sample reads the sine table at the carrier phase
(quadrature) and a quarter turn ahead (in-phase).

Modules:

- `AfskTypes` (types.dfy): integer ranges, the 512-byte payload, the 256-entry
  sine table, and 32-bit wrap-around.
- `Divider` (divider.dfy): the reset-at-limit counter used for `s` and for
  `sample_count`, with its firing count.
- `Framing` (framing.dfy): the 10-bit frame of a byte, its bit-by-bit
  extraction `(gbyte >> (9 - bit_pos)) & 1`, and a receiver-side decoder for
  one frame.
- `Synth` (synth.dfy): the 32-bit phase accumulators, as integers in
  0..2^32 − 1 with explicit wrap-around, and the table index
  `(x & 0x03FC0000) >> 18`, written as `(x / 2^18) % 256` (bits 18..25).
- `AfskProcessor` (processor.dfy): the processor state as an immutable record,
  the state invariant, `on_message`, the bit tick, the tone tick, one output
  sample, and `execute`. `execute` is given both as a fold and as an in-place
  loop.
- `Transmission` (transmission.dfy): whole-transmission properties:
  - the status values reported;
  - bit timing;
  - the bit stream sent for a payload, and decoding it back.

The sine table is a parameter (any 256 signed 8-bit values). The status queue
is modelled as the sequence of values offered to it. The result of each push
is ignored (lines 53 and 57), and a status lost to a full queue is not
modelled.

### The state invariant and the unchecked read

`execute` reads `message_data[byte_pos + 1]` without a bounds check. The read
stays inside the 512-byte buffer only if, scanning frame positions from
`byte_pos`, an all-zero window is met before index 511. The model states this
as `TerminatedFrom` and keeps it in the invariant `Valid`. Every operation
preserves `Valid`. `Configure` produces a valid state exactly when the
payload is terminated from position 0.

### Repeat count

Line 127 stores `afsk_repeat = message.afsk_repeat - 1`. A request of `r >= 1`
therefore reports 1, ..., r − 1 and then 0; a request of 2 reports 1, 0. A
request of 0 wraps around to 2^32 − 1 repeats. `Configure`,
`TransmissionLog` and `RequestedRepeats` state this behaviour.

## Model

| member | source | states |
|---|---|---|
| Divider.Advance | firmware/baseband/proc_afsk.cpp:42-94 | the counter fires exactly when it is at or above its limit, then restarts at 0; otherwise it counts up by one and stays at most the limit |
| Divider.FiringsCount | firmware/baseband/proc_afsk.cpp:42-94 | over `n` advances from an in-range start `c`, the number of firings `f` and the final value `a <= limit` satisfy `f * (limit + 1) + a == c + n` (quotient and remainder) |
| Divider.FiringPeriod | firmware/baseband/proc_afsk.cpp:39-42 | from `c <= limit`, the next `limit - c` advances do not fire and the one after does; an advance from the limit itself fires |
| Framing.FrameWord | firmware/baseband/proc_afsk.cpp:65-77 | `gbyte` is a 9-bit value whose upper bits are the current byte and whose low bit is the stop bit 1 (standard format) or bit 0 of the next byte (alternate format) |
| Framing.FrameBitMatchesLayout | firmware/baseband/proc_afsk.cpp:65-79 | bit `bit_pos` of the frame, `(gbyte >> (9 - bit_pos)) & 1`, is element `bit_pos` of the layout start 0, eight data bits MSB first, trailer; bit 0 is always 0 |
| Framing.FrameRoundTrip | firmware/baseband/proc_afsk.cpp:65-79 | decoding the frame sent for a byte gives that byte back, in both formats |
| Framing.FrameDecodeComplete | firmware/baseband/proc_afsk.cpp:65-79 | conversely, every 10-bit sequence the decoder accepts is exactly the frame the encoder sends for the decoded byte |
| Synth.TableIndex | firmware/baseband/proc_afsk.cpp:103 | the index `(x & 0x03FC0000) >> 18` lies in 0..255, so every table read is in bounds, and it is the table step (of 2^18) that contains `x` modulo 2^26 |
| Synth.QuarterTurnAhead | firmware/baseband/proc_afsk.cpp:111-114 | reading at `phase + (64 << 18)` lands 64 entries (90 degrees) ahead of reading at `phase` modulo 256, including across 32-bit wrap-around |
| Synth.IndexAdvance | firmware/baseband/proc_afsk.cpp:103 | adding `k << 18` to an accumulator moves its table index by `k` positions modulo 256 |
| Synth.Accumulate | firmware/baseband/proc_afsk.cpp:95-98 | a 32-bit accumulator update is the exact sum wrapped around at most once, and it wraps exactly when the sum reaches 2^32 |
| Synth.AccumulateInjective | firmware/baseband/proc_afsk.cpp:95-98 | from the same phase, two increments give the same new phase exactly when they are equal |
| Synth.AdvanceTone | firmware/baseband/proc_afsk.cpp:95-98 | `tone_phase += inc` moves the tone phase by exactly `inc` modulo 2^32 |
| Synth.Deviation | firmware/baseband/proc_afsk.cpp:108 | `frq` is congruent to the signed product `tone_sample * afsk_bw` modulo 2^32 |
| Synth.AdvanceCarrier | firmware/baseband/proc_afsk.cpp:108-110 | the carrier phase moves by exactly the signed product modulo 2^32, so a negative tone sample turns it backwards |
| AfskProcessor.TerminatedFromExists | firmware/baseband/proc_afsk.cpp:44-46 | the scan for an all-zero window succeeds exactly when some frame position at or after the start has an all-zero window below index 511 |
| AfskProcessor.ValidWindow | firmware/baseband/proc_afsk.cpp:43-46 | the state invariant `Valid` guarantees, while configured, that both unchecked reads at `byte_pos` are inside the buffer and that a terminator lies ahead at a frame position |
| AfskProcessor.TerminatedFromEarlier | firmware/baseband/proc_afsk.cpp:47-51 | a payload terminated from a frame position is terminated from every earlier frame position, in particular from the restart position 0 |
| AfskProcessor.Configure | firmware/baseband/proc_afsk.cpp:120-139 | a configuration message copies every parameter, sets the repeat budget to the requested count minus one (wrapping), rewinds the cursor and counters, keeps `s` and both phases, makes the next tone tick a bit tick, and yields a valid state exactly when the payload is terminated; any other message changes nothing |
| AfskProcessor.Reload | firmware/baseband/proc_afsk.cpp:43-63 | start of a bit tick: keeps the invariant and the configuration, and while still configured leaves the two bytes at `byte_pos` loaded |
| AfskProcessor.AdvanceCursor | firmware/baseband/proc_afsk.cpp:81-89 | `bit_pos` steps modulo 10, and `byte_pos` moves by the frame stride exactly when `bit_pos` wraps to 0 |
| AfskProcessor.CurrentBit | firmware/baseband/proc_afsk.cpp:65-79 | the bit sent is the start bit 0 at `bit_pos` 0, data bit `8 - bit_pos` of `cur_byte` at `bit_pos` 1..8, and the trailer (stop bit 1, or bit 0 of `ext_byte`) at `bit_pos` 9 |
| AfskProcessor.Emit | firmware/baseband/proc_afsk.cpp:65-89 | sending a bit sets `cur_bit` to the current frame bit, steps `bit_pos` modulo 10, moves `byte_pos` by the stride exactly when `bit_pos` wraps, and changes nothing else |
| AfskProcessor.EmitKeepsValid | firmware/baseband/proc_afsk.cpp:79-89 | sending a bit keeps the invariant, unless a frame boundary is crossed at the terminator |
| AfskProcessor.BitTick | firmware/baseband/proc_afsk.cpp:42-91 | a bit tick keeps the invariant and changes neither the configuration nor the phases nor `s` |
| AfskProcessor.BitTickInFrame | firmware/baseband/proc_afsk.cpp:43-89 | outside the terminator, a bit tick loads the window at `byte_pos`, sends frame bit `bit_pos`, advances the cursor and reports nothing |
| AfskProcessor.BitTickRestart | firmware/baseband/proc_afsk.cpp:46-54 | at the terminator with repeats left, it reports `repeat_counter + 1`, counts the repeat, rewinds to byte 0 and sends that frame's start bit 0, leaving `bit_pos` at 1 |
| AfskProcessor.BitTickFinish | firmware/baseband/proc_afsk.cpp:55-61 | at the terminator with the budget spent, it reports 0, clears both bytes, stops, and still sends a bit of a zero byte's frame |
| AfskProcessor.BitTickStopped | firmware/baseband/proc_afsk.cpp:43-89 | once stopped, a bit tick reports nothing and only keeps framing the last loaded bytes |
| AfskProcessor.ToneTick | firmware/baseband/proc_afsk.cpp:42-98 | a tone tick advances `sample_count` as the gate divider, changes nothing but the counter and tone phase when the gate is closed, and advances the tone phase by the mark increment after a 1 bit and by the space increment after a 0 bit |
| AfskProcessor.Sound | firmware/baseband/proc_afsk.cpp:95-98 | the tone-phase update of a tone tick changes only the tone phase, advancing it by the mark increment when `cur_bit` is 1 and by the space increment when it is 0 (its partner is `ToneCarriesBit`) |
| AfskProcessor.ToneCarriesBit | firmware/baseband/proc_afsk.cpp:95-98 | with distinct mark and space increments, the tone phase after a tone tick is where the mark increment takes it exactly when `cur_bit` is 1, and where the space increment takes it exactly when `cur_bit` is 0 |
| AfskProcessor.Modulate | firmware/baseband/proc_afsk.cpp:103-116 | the carrier phase moves by tone sample × bandwidth (mod 2^32); the quadrature output is the table at the new phase, and the in-phase output is the table a quarter of the table ahead |
| AfskProcessor.Divide | firmware/baseband/proc_afsk.cpp:39-101 | the sub-divider stays in 0..9 and is the divide-by-10 counter; when it does not fire, only `s` changes |
| AfskProcessor.Step | firmware/baseband/proc_afsk.cpp:36-117 | one output sample keeps the invariant and the configuration |
| AfskProcessor.StepOutput | firmware/baseband/proc_afsk.cpp:103-116 | the sample's I/Q pair is read at the carrier phase just advanced by the deviation of the current tone sample, and a quarter turn ahead of it |
| AfskProcessor.BitTickEncoder | firmware/baseband/proc_afsk.cpp:42-89 | a bit tick reads only the encoder fields and the configuration: two states that agree on them agree after a bit tick, and report the same status |
| AfskProcessor.StepEncoder | firmware/baseband/proc_afsk.cpp:36-101 | one output sample advances `s`; it advances `sample_count` only when `s` fires; and it changes the encoder fields, exactly as one bit tick does, only when both fire |
| AfskProcessor.Run | firmware/baseband/proc_afsk.cpp:36-117 | `n` samples keep the invariant and produce exactly `n` outputs |
| AfskProcessor.Execute | firmware/baseband/proc_afsk.cpp:30-117 | unconfigured on entry, nothing changes and the buffer is untouched; otherwise every sample of the buffer is overwritten by the fold of `Step` |
| AfskProcessor.ExecuteInPlace | firmware/baseband/proc_afsk.cpp:30-117 | the in-place loop over the buffer computes the same state, samples and statuses as the fold |
| Transmission.StatusStepCompose | firmware/baseband/proc_afsk.cpp:47-61 | the status protocol (restarts report the next repeat numbers, stopping reports one 0, a stopped processor stays stopped) composes over consecutive stretches |
| Transmission.BitTickStatus | firmware/baseband/proc_afsk.cpp:43-63 | a bit tick follows the status protocol |
| Transmission.StepStatus | firmware/baseband/proc_afsk.cpp:39-101 | an output sample follows the status protocol |
| Transmission.RunStatus | firmware/baseband/proc_afsk.cpp:36-117 | any run of samples follows the status protocol, and `repeat_counter` never exceeds `afsk_repeat` |
| Transmission.TransmissionLog | firmware/baseband/proc_afsk.cpp:47-61 | after configuration, the statuses pushed are `1..repeat_counter` while transmitting and `1..afsk_repeat` then a single 0 once done; a 0 appears exactly when transmission has stopped |
| Transmission.RequestedRepeats | firmware/baseband/proc_afsk.cpp:127 | once done, a request of `r >= 1` has reported `1..r-1` then 0 (1, 0 for a request of 2), and a request of 0 has reported `1..2^32-1` then 0 |
| Transmission.ToneTicksGate | firmware/baseband/proc_afsk.cpp:42-94 | across consecutive tone ticks, `sample_count` and the number of bit ticks follow the divider with limit `afsk_samples_per_bit` |
| Transmission.BitTiming | firmware/baseband/proc_afsk.cpp:131 | after configuration, the first tone tick is a bit tick, and over `n` tone ticks the bit ticks `b` satisfy `b * (spb + 1) + sample_count == spb + n` |
| Transmission.BitTicks | firmware/baseband/proc_afsk.cpp:42-91 | consecutive bit ticks keep the invariant and send one bit each |
| Transmission.FrameTicksState | firmware/baseband/proc_afsk.cpp:43-89 | from bit `j` of a non-terminator frame, the remaining bit ticks load that window and leave the cursor at the next frame position, still configured |
| Transmission.FrameTicksBits | firmware/baseband/proc_afsk.cpp:65-89 | ... and send exactly the rest of that byte's frame, in order |
| Transmission.MessageBits | firmware/baseband/proc_afsk.cpp:65-89 | the frames of a terminated payload are ten bits per payload byte sent |
| Transmission.MessageTicks | firmware/baseband/proc_afsk.cpp:43-89 | from a frame boundary, the bit ticks up to the terminator send exactly the payload's frames |
| Transmission.MessageTicksEnd | firmware/baseband/proc_afsk.cpp:43-63 | ... and leave the encoder at the terminator, at a frame boundary, still configured, with the repeat counter unchanged |
| Divider.AfterSnoc | firmware/baseband/proc_afsk.cpp:39-42 | one more advance of a counter continues from where `n` advances left it, and adds one firing exactly when that advance fires |
| Divider.GatedSnoc | firmware/baseband/proc_afsk.cpp:39-94 | with `sample_count` advanced only on firings of `s`, one more sample advances `sample_count` exactly when `s` fires, and adds a bit tick exactly when both fire |
| Transmission.StepSends | firmware/baseband/proc_afsk.cpp:36-101 | one output sample takes an encoder that has made `k` bit ticks to `k + 1` bit ticks when both gates fire and leaves it at `k` otherwise |
| Transmission.RunTiming | firmware/baseband/proc_afsk.cpp:36-117 | after `n` samples of `execute`, `s` and `sample_count` are the two cascaded dividers after `n` and after the number of tone ticks, and the encoder is exactly where `BitTicks` puts it after the number of bit ticks; the bit-stream properties below therefore apply to the sample loop |
| Transmission.MessageRoundTrip | firmware/baseband/proc_afsk.cpp:65-89 | decoding the frames of a terminated payload gives back the bytes sent, in order, in both formats |
| Transmission.StandardBytesArePrefix | firmware/baseband/proc_afsk.cpp:44-46 | in the standard format, the bytes sent are exactly the payload up to its first all-zero pair, which is a terminator |
| Transmission.FirstPassRoundTrip | firmware/baseband/proc_afsk.cpp:120-139 | after configuration, the first bit ticks send the payload's frames, and decoding them recovers the payload bytes |

## Left out

- `firmware/common/message_queue.hpp`, the shared-memory queue and its
  locking, is not part of this model. A push is modelled as appending the
  status value to a sequence.
- Concurrency between the baseband and application processors, and
  `main`/`EventDispatcher` (lines 142-146), are left out. They are runtime
  plumbing around the two methods modelled.
- The values of `sine_table_i8` are left out. The table is a parameter, so
  every property holds for any 256-entry table of signed 8-bit values.
- The raw message layout and the `reinterpret_cast` of line 121 are left out.
  A message is a datatype whose fields have the widths assumed below.
- The sample rates and the buffer size are hardware timing in comments, and
  are not modelled. The model counts samples and ticks.
- The class declaration is not part of this model. The field widths are
  assumptions:
  - unsigned 32-bit `afsk_samples_per_bit`, `afsk_repeat`, `repeat_counter`,
    `sample_count` and status `n`;
  - unsigned 32-bit tone and carrier phases and mark and space increments,
    wrapping modulo 2^32;
  - signed 32-bit `afsk_bw`;
  - signed 8-bit `tone_sample` (a sine table entry);
  - `frq`, the product `tone_sample * afsk_bw`, taken modulo 2^32 when added
    to the phase;
  - unsigned bytes 0..255 for `cur_byte`, `ext_byte` and the payload;
  - `gbyte` at least 9 bits wide. It holds `cur_byte << 1` plus one bit
    (lines 69-76); an 8-bit `gbyte` would lose bit 7 of `cur_byte`;
  - `cur_bit` 0 or 1, `bit_pos` 0..9, and the sub-divider `s` 0..9, as
    unbounded naturals that the invariant and the divider keep in range.
- `byte_pos` is an unbounded natural number. While configured it is at most
  510. After stopping, it keeps advancing for the rest of the buffer without
  being used, and its wrap-around is not modelled.
- Synth.Deviation: the product `tone_sample * afsk_bw` is reduced modulo 2^32
  before it is added to the phase. A product that overflows a C `int` is
  undefined behaviour in the source, so it is modelled as wrapping.
- Valid: what the source does with a payload that has no terminator (a read
  past the 512-byte buffer) is not modelled. Every operation requires the
  invariant, which excludes it.
- There is no closed-form bound on how many samples a whole transmission
  takes. `RunTiming` ties the samples of `execute` to the bit ticks of
  `BitTicks`, `MessageTicksCount` counts the bit ticks of one pass over the
  payload, and `BitTiming` counts tone ticks per bit tick, but the model
  does not combine them into one sample count.
