/**
  The AFSK baseband processor: configuration (`on_message`) and the
  per-output-sample state machine run by `execute`.

  Each output sample first advances the divide-by-10 sub-divider `s`. When it
  fires (a tone tick), the bit gate `sample_count` advances; when that fires
  (a bit tick), the encoder checks the two-byte window at `byte_pos` for the
  terminator, frames the current byte and emits one bit. A tone tick then
  advances the tone phase by the mark or space increment. Every sample,
  the tone read from the sine table frequency-modulates the carrier phase,
  and two table reads a quarter-turn apart give the I/Q output pair.
 */
module AfskProcessor {
  import opened AfskTypes
  import Divider
  import Framing
  import Synth

  /** Output rate divided by this gives the tone rate (`s >= 10 - 1`). */
  const ToneDivider: nat := 10

  datatype MessageId = AFSKConfigure | OtherMessage

  /** A message delivered to `on_message`, viewed through the configuration layout. */
  datatype ConfigureMessage = ConfigureMessage(
    id: MessageId,
    data: Payload,
    samplesPerBit: U32,
    incMark: U32,
    incSpace: U32,
    repeat: U32,
    bw: I32,
    altFormat: bool)

  /** The parameters `on_message` installs. `repeat` is the effective count, one less than requested. */
  datatype Config = Config(
    data: Payload,
    samplesPerBit: U32,
    incMark: U32,
    incSpace: U32,
    repeat: U32,
    bw: I32,
    altFormat: bool)

  datatype State = State(
    cfg: Config,
    configured: bool,
    s: nat,
    sampleCount: U32,
    repeatCounter: U32,
    bitPos: nat,
    bytePos: nat,
    curByte: Byte,
    extByte: Byte,
    curBit: Bit,
    tonePhase: U32,
    phase: U32)

  /** The encoder part of the state: the fields a bit tick reads and writes. */
  datatype Encoder = Encoder(
    configured: bool,
    repeatCounter: U32,
    bitPos: nat,
    bytePos: nat,
    curByte: Byte,
    extByte: Byte,
    curBit: Bit)

  function EncoderOf(st: State): Encoder
  {
    Encoder(st.configured, st.repeatCounter, st.bitPos, st.bytePos, st.curByte, st.extByte, st.curBit)
  }

  datatype IQ = IQ(re: I8, im: I8)

  /** Result of the encoder part of a tick: the new state and the status values pushed (zero or one). */
  datatype Encoded = Encoded(st: State, status: seq<U32>)

  /** Result of one output sample. */
  datatype Tick = Tick(st: State, iq: IQ, status: seq<U32>)

  /** Result of a run of output samples. */
  datatype Outcome = Outcome(st: State, samples: seq<IQ>, statuses: seq<U32>)

  /** Bytes consumed per frame: the alternate format also uses the next byte (for its parity bit). */
  function Stride(alt: bool): nat
  {
    if alt then 2 else 1
  }

  /** The two-byte window at `p` is all zero: the end of the message. */
  predicate ZeroPair(data: Payload, p: nat)
    requires p < PayloadSize - 1
  {
    data[p] == 0 && data[p + 1] == 0
  }

  /**
    Scanning frame positions `pos`, `pos + stride`, ... the encoder meets a
    zero pair before running past the 512-byte buffer.
   */
  predicate TerminatedFrom(data: Payload, alt: bool, pos: nat)
    decreases PayloadSize - pos
  {
    pos < PayloadSize - 1 && (ZeroPair(data, pos) || TerminatedFrom(data, alt, pos + Stride(alt)))
  }

  /** `p` is a frame position (a multiple of the stride) whose window is all zero. */
  predicate IsTerminator(data: Payload, alt: bool, p: int)
  {
    0 <= p < PayloadSize - 1 && p % Stride(alt) == 0 && ZeroPair(data, p)
  }

  /**
    The scan agrees with the plain reading: from a frame position, a zero
    pair is met exactly when some terminator lies at or after it.
   */
  lemma {:induction false} TerminatedFromExists(data: Payload, alt: bool, pos: nat)
    requires pos % Stride(alt) == 0
    ensures TerminatedFrom(data, alt, pos) <==> exists p :: pos <= p && IsTerminator(data, alt, p)
    decreases PayloadSize - pos
  {
    if pos < PayloadSize - 1 {
      var next := pos + Stride(alt);
      assert next % Stride(alt) == 0;
      TerminatedFromExists(data, alt, next);
      if TerminatedFrom(data, alt, pos) {
        if ZeroPair(data, pos) {
          assert IsTerminator(data, alt, pos);
        } else {
          var p :| next <= p && IsTerminator(data, alt, p);
          assert pos <= p;
        }
      }
      if exists p :: pos <= p && IsTerminator(data, alt, p) {
        var p :| pos <= p && IsTerminator(data, alt, p);
        if p != pos {
          assert next <= p;
        }
      }
    }
  }

  /** A terminated scan stays terminated when started earlier, at a frame position before it. */
  lemma {:induction false} TerminatedFromEarlier(data: Payload, alt: bool, q: nat, p: nat)
    requires q <= p && (p - q) % Stride(alt) == 0
    requires TerminatedFrom(data, alt, p)
    ensures TerminatedFrom(data, alt, q)
    decreases p - q
  {
    if q < p {
      TerminatedFromEarlier(data, alt, q + Stride(alt), p);
    }
  }

  /**
    The invariant of the processor state. While configured, `byte_pos` is a
    frame position at or before a terminator, so the unchecked reads of
    `message_data[byte_pos]` and `message_data[byte_pos + 1]` stay inside
    the 512-byte buffer.
   */
  predicate Valid(st: State)
  {
    && st.bitPos < Framing.FrameLength
    && st.sampleCount <= st.cfg.samplesPerBit
    && st.repeatCounter <= st.cfg.repeat
    && (st.configured ==>
          && st.bytePos % Stride(st.cfg.altFormat) == 0
          && TerminatedFrom(st.cfg.data, st.cfg.altFormat, st.bytePos))
  }

  /**
    What the invariant buys while configured: both unchecked reads at
    `byte_pos` are inside the buffer, and a terminator lies ahead at a
    frame position.
   */
  lemma ValidWindow(st: State)
    requires Valid(st) && st.configured
    ensures st.bytePos + 1 < PayloadSize
    ensures exists p :: st.bytePos <= p && IsTerminator(st.cfg.data, st.cfg.altFormat, p)
  {
    TerminatedFromExists(st.cfg.data, st.cfg.altFormat, st.bytePos);
  }

  /** The window at `byte_pos` is the terminator (both bytes zero). */
  predicate AtTerminator(st: State)
    requires Valid(st) && st.configured
  {
    ZeroPair(st.cfg.data, st.bytePos)
  }

  /**
    `on_message`: a configuration message replaces every parameter, sets the
    effective repeat count to the requested count minus one (wrapping as a
    32-bit unsigned value), rewinds the encoder so that the next tone tick is
    a bit tick, and enables transmission. The sub-divider and both phase
    accumulators are left as they were. Any other message changes nothing.
   */
  function Configure(st: State, msg: ConfigureMessage): (r: State)
    ensures msg.id != AFSKConfigure ==> r == st
    ensures msg.id == AFSKConfigure ==>
      && r.configured
      && r.cfg.data == msg.data
      && r.cfg.samplesPerBit == msg.samplesPerBit
      && r.cfg.incMark == msg.incMark
      && r.cfg.incSpace == msg.incSpace
      && r.cfg.bw == msg.bw
      && r.cfg.altFormat == msg.altFormat
      && r.cfg.repeat + 1 == (if msg.repeat == 0 then Modulus32 else msg.repeat)
      && r.sampleCount == r.cfg.samplesPerBit
      && r.repeatCounter == 0 && r.bitPos == 0 && r.bytePos == 0
      && r.curByte == 0 && r.extByte == 0 && r.curBit == 0
      && r.s == st.s && r.tonePhase == st.tonePhase && r.phase == st.phase
    ensures msg.id == AFSKConfigure ==> (Valid(r) <==> TerminatedFrom(msg.data, msg.altFormat, 0))
    ensures msg.id == AFSKConfigure ==> Divider.Advance(r.sampleCount, r.cfg.samplesPerBit).fires
  {
    if msg.id == AFSKConfigure then
      var cfg := Config(msg.data, msg.samplesPerBit, msg.incMark, msg.incSpace,
                        Wrap32(msg.repeat - 1), msg.bw, msg.altFormat);
      State(cfg, true, st.s, cfg.samplesPerBit, 0, 0, 0, 0, 0, 0, st.tonePhase, st.phase)
    else
      st
  }

  /**
    Start of a bit tick: while configured, load the window at `byte_pos`.
    On the terminator, either restart from the beginning of the payload and
    report repeat `repeat_counter + 1`, or, when the repeat budget is spent,
    report 0, clear the bytes and stop transmitting.
   */
  function Reload(st: State): (r: Encoded)
    requires Valid(st)
    ensures Valid(r.st)
    ensures r.st.cfg == st.cfg && r.st.sampleCount == st.sampleCount && r.st.curBit == st.curBit
    ensures r.st.s == st.s && r.st.tonePhase == st.tonePhase && r.st.phase == st.phase
    ensures r.st.configured ==>
      r.st.curByte == st.cfg.data[r.st.bytePos] && r.st.extByte == st.cfg.data[r.st.bytePos + 1]
  {
    if !st.configured then
      Encoded(st, [])
    else
      var data := st.cfg.data;
      var cur := data[st.bytePos];
      var ext := data[st.bytePos + 1];
      if cur != 0 || ext != 0 then
        Encoded(st.(curByte := cur, extByte := ext), [])
      else if st.repeatCounter < st.cfg.repeat then
        TerminatedFromEarlier(data, st.cfg.altFormat, 0, st.bytePos);
        Encoded(st.(bitPos := 0, bytePos := 0, curByte := data[0], extByte := data[1],
                    repeatCounter := st.repeatCounter + 1),
                [st.repeatCounter + 1])
      else
        Encoded(st.(curByte := 0, extByte := 0, configured := false), [0])
  }

  /** `bit_pos` and `byte_pos` after a bit: ten bits per frame, then the next frame. */
  function AdvanceCursor(bitPos: nat, bytePos: nat, alt: bool): (r: (nat, nat))
    requires bitPos < Framing.FrameLength
    ensures r.0 < Framing.FrameLength
    ensures r.0 == (bitPos + 1) % Framing.FrameLength
    ensures r.1 == bytePos + (if r.0 == 0 then Stride(alt) else 0)
  {
    if bitPos == Framing.FrameLength - 1 then (0, bytePos + Stride(alt)) else (bitPos + 1, bytePos)
  }

  /** The bit sent at `bit_pos` of the frame of the loaded bytes. */
  function CurrentBit(st: State): (b: Bit)
    requires st.bitPos < Framing.FrameLength
    ensures st.bitPos == 0 ==> b == 0
    ensures 0 < st.bitPos < Framing.FrameLength - 1 ==> b == Framing.ShiftRight(st.curByte, 8 - st.bitPos) % 2
    ensures st.bitPos == Framing.FrameLength - 1 ==> b == Framing.Trailer(st.extByte, st.cfg.altFormat)
  {
    assert Framing.Pow2(8) == 256;
    Framing.ShiftRightSmall(st.curByte, 8);
    Framing.FrameBit(Framing.FrameWord(st.curByte, st.extByte, st.cfg.altFormat), st.bitPos)
  }

  /**
    Rest of a bit tick: frame the current byte, emit the bit at `bit_pos`
    and advance the cursor; after the tenth bit `byte_pos` moves to the next
    frame.
   */
  function Emit(st: State): (r: State)
    requires st.bitPos < Framing.FrameLength
    ensures r == st.(curBit := CurrentBit(st), bitPos := r.bitPos, bytePos := r.bytePos)
    ensures r.bitPos == (st.bitPos + 1) % Framing.FrameLength
    ensures r.bytePos == st.bytePos + (if r.bitPos == 0 then Stride(st.cfg.altFormat) else 0)
  {
    var cursor := AdvanceCursor(st.bitPos, st.bytePos, st.cfg.altFormat);
    st.(curBit := CurrentBit(st), bitPos := cursor.0, bytePos := cursor.1)
  }

  /** Emitting a bit keeps the state valid, provided a frame boundary is never crossed at the terminator. */
  lemma EmitKeepsValid(st: State)
    requires Valid(st)
    requires st.configured && st.bitPos == Framing.FrameLength - 1 ==> !AtTerminator(st)
    ensures Valid(Emit(st))
  {
  }

  /** One bit tick (the `sample_count >= afsk_samples_per_bit` branch, without the gate reset). */
  function BitTick(st: State): (r: Encoded)
    requires Valid(st)
    ensures Valid(r.st)
    ensures r.st.cfg == st.cfg && r.st.sampleCount == st.sampleCount
    ensures r.st.s == st.s && r.st.tonePhase == st.tonePhase && r.st.phase == st.phase
  {
    var m := Reload(st);
    EmitKeepsValid(m.st);
    Encoded(Emit(m.st), m.status)
  }

  /**
    A bit tick inside a frame (the window at `byte_pos` is not the
    terminator): the window is loaded, the bit sent is bit `bit_pos` of the
    frame layout (the start bit 0 first), `bit_pos` steps on modulo 10 and
    `byte_pos` moves one frame (1 byte, or 2 in the alternate format)
    exactly when the tenth bit has been sent. Nothing is reported.
   */
  lemma BitTickInFrame(st: State)
    requires Valid(st) && st.configured && !AtTerminator(st)
    ensures var data := st.cfg.data;
            var r := BitTick(st);
            && r.status == []
            && r.st == st.(curByte := data[st.bytePos], extByte := data[st.bytePos + 1],
                           curBit := Framing.FrameBits(data[st.bytePos], data[st.bytePos + 1], st.cfg.altFormat)[st.bitPos],
                           bitPos := (st.bitPos + 1) % Framing.FrameLength,
                           bytePos := st.bytePos + (if st.bitPos == Framing.FrameLength - 1 then Stride(st.cfg.altFormat) else 0))
  {
    var m := Reload(st);
    Framing.FrameBitMatchesLayout(m.st.curByte, m.st.extByte, st.cfg.altFormat, st.bitPos);
  }

  /**
    A bit tick at the terminator with repeats left: transmission restarts
    at the first byte of the payload, reports `repeat_counter + 1`, counts
    the repeat and sends the start bit of the first frame.
   */
  lemma BitTickRestart(st: State)
    requires Valid(st) && st.configured && AtTerminator(st)
    requires st.repeatCounter < st.cfg.repeat
    ensures var data := st.cfg.data;
            var r := BitTick(st);
            && r.status == [st.repeatCounter + 1]
            && r.st == st.(curByte := data[0], extByte := data[1], curBit := 0,
                           bitPos := 1, bytePos := 0, repeatCounter := st.repeatCounter + 1)
  {
    var m := Reload(st);
    Framing.FrameBitMatchesLayout(m.st.curByte, m.st.extByte, st.cfg.altFormat, 0);
  }

  /**
    A bit tick at the terminator with the repeat budget spent: 0 is
    reported, both bytes are cleared and transmission stops; the cursor
    still steps on, sending the frame of a zero byte.
   */
  lemma BitTickFinish(st: State)
    requires Valid(st) && st.configured && AtTerminator(st)
    requires st.repeatCounter >= st.cfg.repeat
    ensures var r := BitTick(st);
            && r.status == [0]
            && r.st == st.(curByte := 0, extByte := 0, configured := false,
                           curBit := Framing.FrameBits(0, 0, st.cfg.altFormat)[st.bitPos],
                           bitPos := (st.bitPos + 1) % Framing.FrameLength,
                           bytePos := st.bytePos + (if st.bitPos == Framing.FrameLength - 1 then Stride(st.cfg.altFormat) else 0))
  {
    Framing.FrameBitMatchesLayout(0, 0, st.cfg.altFormat, st.bitPos);
  }

  /** Once stopped, a bit tick reports nothing and only keeps framing the last loaded bytes. */
  lemma BitTickStopped(st: State)
    requires Valid(st) && !st.configured
    ensures var r := BitTick(st);
            && r.status == []
            && r.st == st.(curBit := Framing.FrameBits(st.curByte, st.extByte, st.cfg.altFormat)[st.bitPos],
                           bitPos := (st.bitPos + 1) % Framing.FrameLength,
                           bytePos := st.bytePos + (if st.bitPos == Framing.FrameLength - 1 then Stride(st.cfg.altFormat) else 0))
  {
    Framing.FrameBitMatchesLayout(st.curByte, st.extByte, st.cfg.altFormat, st.bitPos);
  }

  /**
    One tone tick: the bit gate decides whether this is a bit tick, then the
    tone phase advances by the mark increment for a 1 bit and by the space
    increment for a 0 bit.
   */
  function ToneTick(st: State): (r: Encoded)
    requires Valid(st)
    ensures Valid(r.st)
    ensures r.st.cfg == st.cfg && r.st.s == st.s && r.st.phase == st.phase
    ensures r.st.sampleCount == Divider.Advance(st.sampleCount, st.cfg.samplesPerBit).next
    ensures !Divider.Advance(st.sampleCount, st.cfg.samplesPerBit).fires ==>
      r == Encoded(st.(sampleCount := st.sampleCount + 1, tonePhase := r.st.tonePhase), [])
    ensures r.st.tonePhase == Synth.AdvanceTone(st.tonePhase, if r.st.curBit == 1 then st.cfg.incMark else st.cfg.incSpace)
  {
    var gate := Divider.Advance(st.sampleCount, st.cfg.samplesPerBit);
    if gate.fires then
      var e := BitTick(st);
      Encoded(Sound(e.st.(sampleCount := 0)), e.status)
    else
      Encoded(Sound(st.(sampleCount := st.sampleCount + 1)), [])
  }

  /** The tone-phase update that ends every tone tick. */
  function Sound(st: State): (r: State)
    ensures r == st.(tonePhase := r.tonePhase)
    ensures r.tonePhase == Synth.AdvanceTone(st.tonePhase, if st.curBit == 1 then st.cfg.incMark else st.cfg.incSpace)
  {
    st.(tonePhase := Synth.AdvanceTone(st.tonePhase, if st.curBit == 1 then st.cfg.incMark else st.cfg.incSpace))
  }

  /**
    The tone carries the bit: with distinct mark and space increments, a
    tone tick leaves the tone phase where the mark increment takes it
    exactly when the current bit is 1, and where the space increment takes
    it exactly when the bit is 0.
   */
  lemma ToneCarriesBit(st: State)
    requires st.cfg.incMark != st.cfg.incSpace
    ensures Sound(st).tonePhase == Synth.Accumulate(st.tonePhase, st.cfg.incMark) <==> st.curBit == 1
    ensures Sound(st).tonePhase == Synth.Accumulate(st.tonePhase, st.cfg.incSpace) <==> st.curBit == 0
  {
    Synth.AccumulateInjective(st.tonePhase, st.cfg.incMark, st.cfg.incSpace);
  }

  /** Carrier phase and output pair of one sample. */
  datatype Modulated = Modulated(phase: U32, iq: IQ)

  /**
    FM and I/Q output of one sample: the tone read at the tone phase
    deviates the carrier phase, and the output pair reads the table at the
    new carrier phase (quadrature) and a quarter-turn ahead of it (in-phase).
   */
  function Modulate(tonePhase: U32, phase: U32, bw: I32, table: SineTable): (r: Modulated)
    ensures r.phase == Synth.AdvanceCarrier(phase, table[Synth.TableIndex(tonePhase)], bw)
    ensures r.iq.im == table[Synth.TableIndex(r.phase)]
    ensures r.iq.re == table[(Synth.TableIndex(r.phase) + TableSize / 4) % TableSize]
  {
    var toneSample := table[Synth.TableIndex(tonePhase)];
    var carrier := Synth.AdvanceCarrier(phase, toneSample, bw);
    Synth.QuarterTurnAhead(carrier);
    var re := table[Synth.TableIndex(Synth.Accumulate(carrier, Synth.QuarterTurn))];
    var im := table[Synth.TableIndex(carrier)];
    Modulated(carrier, IQ(re, im))
  }

  /** The encoder and tone part of one output sample: the sub-divider, and a tone tick when it fires. */
  function Divide(st: State): (r: Encoded)
    requires Valid(st)
    ensures Valid(r.st)
    ensures r.st.cfg == st.cfg && r.st.phase == st.phase
    ensures r.st.s < ToneDivider
    ensures r.st.s == Divider.Advance(st.s, ToneDivider - 1).next
    ensures !Divider.Advance(st.s, ToneDivider - 1).fires ==> r == Encoded(st.(s := st.s + 1), [])
  {
    var sub := Divider.Advance(st.s, ToneDivider - 1);
    if sub.fires then ToneTick(st.(s := 0)) else Encoded(st.(s := sub.next), [])
  }

  /**
    One output sample (one iteration of the loop in `execute`): sub-divider,
    tone tick when it fires, FM of the carrier by the current tone sample,
    and the I/Q pair read a quarter-turn apart from the carrier phase.
   */
  function Step(st: State, table: SineTable): (r: Tick)
    requires Valid(st)
    ensures Valid(r.st)
    ensures r.st.cfg == st.cfg
  {
    var e := Divide(st);
    var m := Modulate(e.st.tonePhase, e.st.phase, st.cfg.bw, table);
    Tick(e.st.(phase := m.phase), m.iq, e.status)
  }

  /**
    The output of one sample: the carrier phase moves by the deviation of
    the tone sample read at the (possibly just advanced) tone phase, the
    quadrature output is read at the new carrier phase and the in-phase
    output a quarter of the table ahead; the sub-divider stays in 0..9.
   */
  lemma StepOutput(st: State, table: SineTable)
    requires Valid(st)
    ensures var r := Step(st, table);
            && r.st.s < ToneDivider
            && r.st.phase == Synth.AdvanceCarrier(st.phase, table[Synth.TableIndex(r.st.tonePhase)], st.cfg.bw)
            && r.iq.im == table[Synth.TableIndex(r.st.phase)]
            && r.iq.re == table[(Synth.TableIndex(r.st.phase) + TableSize / 4) % TableSize]
  {
  }

  /**
    A bit tick depends on the encoder fields and the configuration only:
    the counters and phases of the state play no part in it.
   */
  lemma BitTickEncoder(a: State, b: State)
    requires Valid(a) && Valid(b)
    requires a.cfg == b.cfg && EncoderOf(a) == EncoderOf(b)
    ensures EncoderOf(BitTick(a).st) == EncoderOf(BitTick(b).st)
    ensures BitTick(a).status == BitTick(b).status
  {
  }

  /**
    The timing of one output sample: the sub-divider `s` advances; only
    when it fires does the bit gate `sample_count` advance; and the encoder
    fields change, exactly as one bit tick changes them, only when both
    fire. The status reported is that bit tick's.
   */
  lemma StepEncoder(st: State, table: SineTable)
    requires Valid(st)
    ensures var sub := Divider.Advance(st.s, ToneDivider - 1);
            var gate := Divider.Advance(st.sampleCount, st.cfg.samplesPerBit);
            var r := Step(st, table);
            && r.st.s == sub.next
            && r.st.sampleCount == (if sub.fires then gate.next else st.sampleCount)
            && EncoderOf(r.st) == (if sub.fires && gate.fires then EncoderOf(BitTick(st).st) else EncoderOf(st))
            && r.status == (if sub.fires && gate.fires then BitTick(st).status else [])
  {
    if Divider.Advance(st.s, ToneDivider - 1).fires {
      BitTickEncoder(st.(s := 0), st);
    }
  }

  /** `n` consecutive output samples: the loop of `execute` as a fold of `Step`. */
  function Run(st: State, table: SineTable, n: nat): (r: Outcome)
    requires Valid(st)
    ensures Valid(r.st)
    ensures r.st.cfg == st.cfg
    ensures |r.samples| == n
    decreases n
  {
    if n == 0 then
      Outcome(st, [], [])
    else
      var prev := Run(st, table, n - 1);
      var t := Step(prev.st, table);
      Outcome(t.st, prev.samples + [t.iq], prev.statuses + t.status)
  }

  lemma RunExtends(st: State, table: SineTable, n: nat)
    requires Valid(st)
    ensures var prev := Run(st, table, n);
            var t := Step(prev.st, table);
            Run(st, table, n + 1) == Outcome(t.st, prev.samples + [t.iq], prev.statuses + t.status)
  {
  }

  /**
    `execute`: when not configured on entry, nothing changes and nothing is
    written; otherwise every one of the `buffer.count` samples is
    overwritten, even if transmission stops part-way through the buffer.
   */
  function Execute(st: State, table: SineTable, buffer: seq<IQ>): (r: Outcome)
    requires Valid(st)
    ensures Valid(r.st)
    ensures !st.configured ==> r == Outcome(st, buffer, [])
    ensures st.configured ==> r == Run(st, table, |buffer|)
    ensures |r.samples| == |buffer|
  {
    if !st.configured then Outcome(st, buffer, []) else Run(st, table, |buffer|)
  }

  /** The same loop, writing the caller's buffer in place one index at a time. */
  method ExecuteInPlace(st0: State, table: SineTable, buffer: seq<IQ>)
    returns (st: State, samples: seq<IQ>, statuses: seq<U32>)
    requires Valid(st0)
    ensures Valid(st)
    ensures Outcome(st, samples, statuses) == Execute(st0, table, buffer)
  {
    st, samples, statuses := st0, buffer, [];
    if !st.configured {
      return;
    }
    var i := 0;
    while i < |buffer|
      invariant 0 <= i <= |buffer|
      invariant |samples| == |buffer|
      invariant Valid(st)
      invariant st == Run(st0, table, i).st
      invariant samples[..i] == Run(st0, table, i).samples
      invariant statuses == Run(st0, table, i).statuses
    {
      var t := Step(st, table);
      var written := samples[i := t.iq];
      RunExtends(st0, table, i);
      assert written[..i + 1] == samples[..i] + [t.iq];
      st, samples, statuses := t.st, written, statuses + t.status;
      i := i + 1;
    }
    assert samples[..i] == samples;
  }
}
