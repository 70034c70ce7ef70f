/**
  Properties of whole transmissions driven by the AFSK processor: the
  status values it reports, the bit stream it sends for a payload, and the
  receiver-side decoding of that stream.
 */
module Transmission {
  import opened AfskTypes
  import opened AfskProcessor
  import Framing

  /** `[lo, lo + 1, ..., hi - 1]`: the status values of a run of restarts. */
  function Range(lo: nat, hi: nat): (r: seq<U32>)
    requires lo <= hi <= Modulus32
    ensures |r| == hi - lo
    ensures forall k :: 0 <= k < |r| ==> r[k] == lo + k
    decreases hi - lo
  {
    if lo == hi then [] else [lo] + Range(lo + 1, hi)
  }

  lemma RangeAppend(a: nat, b: nat, c: nat)
    requires a <= b <= c <= Modulus32
    ensures Range(a, b) + Range(b, c) == Range(a, c)
  {
  }

  /**
    The status protocol between two states `a` and `b` of one transmission,
    with `out` the status values pushed in between: a configured processor
    reports `repeat_counter + 1` at every restart, and a single 0 when it
    stops; a stopped processor reports nothing and stays stopped.
   */
  ghost predicate StatusStep(a: State, b: State, out: seq<U32>)
  {
    && b.cfg == a.cfg
    && a.repeatCounter <= b.repeatCounter <= a.cfg.repeat
    && (b.configured ==> a.configured)
    && (!a.configured ==> out == [] && b.repeatCounter == a.repeatCounter)
    && (a.configured && b.configured ==> out == Range(a.repeatCounter + 1, b.repeatCounter + 1))
    && (a.configured && !b.configured ==> out == Range(a.repeatCounter + 1, a.cfg.repeat + 1) + [0])
  }

  lemma StatusStepCompose(a: State, b: State, c: State, o1: seq<U32>, o2: seq<U32>)
    requires StatusStep(a, b, o1) && StatusStep(b, c, o2)
    ensures StatusStep(a, c, o1 + o2)
  {
    if a.configured && b.configured {
      if c.configured {
        RangeAppend(a.repeatCounter + 1, b.repeatCounter + 1, c.repeatCounter + 1);
      } else {
        RangeAppend(a.repeatCounter + 1, b.repeatCounter + 1, a.cfg.repeat + 1);
        assert o1 + o2 == Range(a.repeatCounter + 1, b.repeatCounter + 1) + Range(b.repeatCounter + 1, a.cfg.repeat + 1) + [0];
      }
    } else {
      assert o2 == [];
      assert o1 + o2 == o1;
    }
  }

  /** A bit tick follows the status protocol. */
  lemma BitTickStatus(st: State)
    requires Valid(st)
    ensures StatusStep(st, BitTick(st).st, BitTick(st).status)
  {
    if !st.configured {
      BitTickStopped(st);
    } else if !AtTerminator(st) {
      BitTickInFrame(st);
      assert Range(st.repeatCounter + 1, st.repeatCounter + 1) == [];
    } else if st.repeatCounter < st.cfg.repeat {
      BitTickRestart(st);
      assert Range(st.repeatCounter + 1, st.repeatCounter + 2) == [st.repeatCounter + 1];
    } else {
      BitTickFinish(st);
      assert Range(st.repeatCounter + 1, st.cfg.repeat + 1) == [];
    }
  }

  /** Every output sample follows the status protocol. */
  lemma StepStatus(st: State, table: SineTable)
    requires Valid(st)
    ensures StatusStep(st, Step(st, table).st, Step(st, table).status)
  {
    var sub := Divider.Advance(st.s, ToneDivider - 1);
    if sub.fires {
      var t := st.(s := 0);
      if Divider.Advance(t.sampleCount, t.cfg.samplesPerBit).fires {
        BitTickStatus(t);
      }
    }
  }

  /**
    Any run of output samples follows the status protocol: from a configured
    state with `repeat_counter == c`, the statuses pushed are `c + 1, c + 2,
    ...` up to the current counter while still configured, and all of
    `c + 1 .. afsk_repeat` followed by a single 0 once stopped.
   */
  lemma {:induction false} RunStatus(st: State, table: SineTable, n: nat)
    requires Valid(st)
    ensures StatusStep(st, Run(st, table, n).st, Run(st, table, n).statuses)
    decreases n
  {
    if n == 0 {
      assert Range(st.repeatCounter + 1, st.repeatCounter + 1) == [];
    } else {
      var prev := Run(st, table, n - 1);
      RunStatus(st, table, n - 1);
      StepStatus(prev.st, table);
      StatusStepCompose(st, prev.st, Step(prev.st, table).st, prev.statuses, Step(prev.st, table).status);
    }
  }

  /**
    After a configuration message with a terminated payload, every sequence
    of output samples reports exactly `1, 2, ..., repeat_counter` while
    transmitting, and `1, 2, ..., afsk_repeat, 0` once done; a 0 is pushed
    exactly when transmission has stopped.
   */
  lemma TransmissionLog(st: State, msg: ConfigureMessage, table: SineTable, n: nat)
    requires msg.id == AFSKConfigure
    requires TerminatedFrom(msg.data, msg.altFormat, 0)
    ensures var c := Configure(st, msg);
            var r := Run(c, table, n);
            && (r.st.configured ==> r.statuses == Range(1, r.st.repeatCounter + 1))
            && (!r.st.configured ==> r.statuses == Range(1, c.cfg.repeat + 1) + [0])
            && (0 in r.statuses <==> !r.st.configured)
  {
    var c := Configure(st, msg);
    RunStatus(c, table, n);
  }

  /**
    In terms of the count requested in the message: a request of `n >= 1`
    reports `1, ..., n - 1` and then 0 (so a request of 2 reports 1, 0), and
    a request of 0 wraps around to `2^32 - 1` repeats.
   */
  lemma RequestedRepeats(st: State, msg: ConfigureMessage, table: SineTable, n: nat)
    requires msg.id == AFSKConfigure
    requires TerminatedFrom(msg.data, msg.altFormat, 0)
    ensures var r := Run(Configure(st, msg), table, n);
            !r.st.configured ==>
              r.statuses == Range(1, if msg.repeat == 0 then Modulus32 else msg.repeat) + [0]
    ensures var r := Run(Configure(st, msg), table, n);
            msg.repeat == 2 && !r.st.configured ==> r.statuses == [1, 0]
  {
    TransmissionLog(st, msg, table, n);
    assert Range(1, 2) == [1];
  }

  // ---------------------------------------------------------------------------
  // Bit timing

  /** The state after `n` tone ticks, with the number of them that were bit ticks. */
  datatype Gated = Gated(st: State, bitTicks: nat)

  ghost function ToneTicks(st: State, n: nat): (r: Gated)
    requires Valid(st)
    ensures Valid(r.st) && r.st.cfg == st.cfg
    decreases n
  {
    if n == 0 then Gated(st, 0)
    else
      var gate := Divider.Advance(st.sampleCount, st.cfg.samplesPerBit);
      var rest := ToneTicks(ToneTick(st).st, n - 1);
      Gated(rest.st, (if gate.fires then 1 else 0) + rest.bitTicks)
  }

  /** The bit gate of consecutive tone ticks is the `sample_count` divider with limit `afsk_samples_per_bit`. */
  lemma {:induction false} ToneTicksGate(st: State, n: nat)
    requires Valid(st)
    ensures var r := ToneTicks(st, n);
            && r.st.sampleCount == Divider.After(st.sampleCount, st.cfg.samplesPerBit, n)
            && r.bitTicks == Divider.Firings(st.sampleCount, st.cfg.samplesPerBit, n)
    decreases n
  {
    if n > 0 {
      ToneTicksGate(ToneTick(st).st, n - 1);
    }
  }

  /**
    Bit timing after a configuration message: of the first `n` tone ticks,
    `b` are bit ticks where `b * (spb + 1) + sample_count == spb + n` with
    `sample_count <= spb`, so the very first tone tick is a bit tick and
    one follows every `spb + 1` tone ticks.
   */
  lemma BitTiming(st: State, msg: ConfigureMessage, n: nat)
    requires msg.id == AFSKConfigure
    requires TerminatedFrom(msg.data, msg.altFormat, 0)
    ensures var c := Configure(st, msg);
            var r := ToneTicks(c, n);
            && r.st.sampleCount <= msg.samplesPerBit
            && r.bitTicks * (msg.samplesPerBit + 1) + r.st.sampleCount == msg.samplesPerBit + n
            && (n >= 1 ==> r.bitTicks >= 1)
  {
    var c := Configure(st, msg);
    ToneTicksGate(c, n);
    Divider.FiringsCount(c.sampleCount, c.cfg.samplesPerBit, n);
  }

  // ---------------------------------------------------------------------------
  // The bit stream of a payload

  /** The bits sent by `n` consecutive bit ticks, with the state they leave. */
  datatype Bits = Bits(st: State, bits: seq<Bit>)

  ghost function BitTicks(st: State, n: nat): (r: Bits)
    requires Valid(st)
    ensures Valid(r.st)
    ensures |r.bits| == n
    decreases n
  {
    if n == 0 then Bits(st, [])
    else
      var t := BitTick(st).st;
      var rest := BitTicks(t, n - 1);
      Bits(rest.st, [t.curBit] + rest.bits)
  }

  /**
    From bit `j` of a frame whose window is not the terminator, the
    remaining `10 - j` bit ticks load that window and leave the cursor at
    the start of the next frame, still configured, with the repeat counter
    untouched.
   */
  lemma {:induction false} FrameTicksState(st: State, j: nat)
    requires Valid(st) && st.configured && !AtTerminator(st)
    requires st.bitPos == j < Framing.FrameLength
    ensures var r := BitTicks(st, Framing.FrameLength - j);
            var data := st.cfg.data;
            r.st == st.(curByte := data[st.bytePos], extByte := data[st.bytePos + 1],
                        curBit := r.st.curBit, bitPos := 0, bytePos := st.bytePos + Stride(st.cfg.altFormat))
    decreases Framing.FrameLength - j
  {
    BitTickMoves(st);
    var t := BitTick(st).st;
    BitTicksUnfold(st, Framing.FrameLength - j);
    if j < Framing.FrameLength - 1 {
      FrameTicksState(t, j + 1);
    }
  }

  /** Inside a frame a bit tick loads the window and moves the cursor by one bit. */
  lemma BitTickMoves(st: State)
    requires Valid(st) && st.configured && !AtTerminator(st)
    ensures var data := st.cfg.data;
            var t := BitTick(st).st;
            t == st.(curByte := data[st.bytePos], extByte := data[st.bytePos + 1], curBit := t.curBit,
                     bitPos := (st.bitPos + 1) % Framing.FrameLength,
                     bytePos := st.bytePos + (if st.bitPos == Framing.FrameLength - 1 then Stride(st.cfg.altFormat) else 0))
  {
    BitTickInFrame(st);
  }

  /** ... and send the rest of that byte's frame, bit `j` first. */
  lemma {:induction false} FrameTicksBits(st: State, j: nat)
    requires Valid(st) && st.configured && !AtTerminator(st)
    requires st.bitPos == j < Framing.FrameLength
    ensures var data := st.cfg.data;
            BitTicks(st, Framing.FrameLength - j).bits
              == Framing.FrameBits(data[st.bytePos], data[st.bytePos + 1], st.cfg.altFormat)[j..]
    decreases Framing.FrameLength - j
  {
    var data := st.cfg.data;
    var frame := Framing.FrameBits(data[st.bytePos], data[st.bytePos + 1], st.cfg.altFormat);
    BitTickInFrame(st);
    var t := BitTick(st).st;
    var rest := BitTicks(t, Framing.FrameLength - j - 1);
    assert BitTicks(st, Framing.FrameLength - j).bits == [frame[j]] + rest.bits;
    SliceCons(frame, j);
    if j < Framing.FrameLength - 1 {
      FrameTicksBits(t, j + 1);
    }
  }

  lemma SliceCons<T>(s: seq<T>, j: nat)
    requires j < |s|
    ensures s[j..] == [s[j]] + s[j + 1..]
  {
  }

  /** The bytes the frames from frame position `p` up to the terminator carry: one per frame. */
  ghost function MessageBytes(data: Payload, alt: bool, p: nat): seq<Byte>
    requires p % Stride(alt) == 0 && TerminatedFrom(data, alt, p)
    decreases PayloadSize - p
  {
    if ZeroPair(data, p) then []
    else
      NextFrameAligned(data, alt, p);
      [data[p]] + MessageBytes(data, alt, p + Stride(alt))
  }

  /** The frames of the payload from frame position `p` up to the terminator. */
  ghost function MessageBits(data: Payload, alt: bool, p: nat): (bits: seq<Bit>)
    requires p % Stride(alt) == 0 && TerminatedFrom(data, alt, p)
    ensures |bits| == Framing.FrameLength * |MessageBytes(data, alt, p)|
    decreases PayloadSize - p
  {
    if ZeroPair(data, p) then []
    else
      NextFrameAligned(data, alt, p);
      Framing.FrameBits(data[p], data[p + 1], alt) + MessageBits(data, alt, p + Stride(alt))
  }

  lemma NextFrameAligned(data: Payload, alt: bool, p: nat)
    requires p % Stride(alt) == 0 && TerminatedFrom(data, alt, p)
    requires !ZeroPair(data, p)
    ensures (p + Stride(alt)) % Stride(alt) == 0
    ensures TerminatedFrom(data, alt, p + Stride(alt))
  {
  }

  /**
    Starting at a frame boundary, the bit ticks up to the terminator send
    exactly the frames of the payload bytes.
   */
  lemma {:induction false} MessageTicks(st: State)
    requires Valid(st) && st.configured && st.bitPos == 0
    ensures var data := st.cfg.data;
            var alt := st.cfg.altFormat;
            BitTicks(st, |MessageBits(data, alt, st.bytePos)|).bits == MessageBits(data, alt, st.bytePos)
    decreases PayloadSize - st.bytePos
  {
    var data := st.cfg.data;
    var alt := st.cfg.altFormat;
    if AtTerminator(st) {
      assert MessageBits(data, alt, st.bytePos) == [];
    } else {
      var frame := Framing.FrameBits(data[st.bytePos], data[st.bytePos + 1], alt);
      FrameTicksState(st, 0);
      FrameTicksBits(st, 0);
      var first := BitTicks(st, Framing.FrameLength);
      assert first.bits == frame by { assert frame[0..] == frame; }
      var mid := first.st;
      MessageBitsUnfold(data, alt, st.bytePos);
      var rest := MessageBits(data, alt, mid.bytePos);
      MessageTicks(mid);
      TicksGlue(st, frame, rest);
    }
  }

  lemma TicksGlue(st: State, frame: seq<Bit>, rest: seq<Bit>)
    requires Valid(st)
    requires BitTicks(st, Framing.FrameLength).bits == frame
    requires BitTicks(BitTicks(st, Framing.FrameLength).st, |rest|).bits == rest
    ensures BitTicks(st, |frame + rest|).bits == frame + rest
  {
    BitTicksAppend(st, Framing.FrameLength, |rest|);
  }

  lemma MessageBitsUnfold(data: Payload, alt: bool, p: nat)
    requires p % Stride(alt) == 0 && TerminatedFrom(data, alt, p)
    requires !ZeroPair(data, p)
    ensures (p + Stride(alt)) % Stride(alt) == 0 && TerminatedFrom(data, alt, p + Stride(alt))
    ensures MessageBits(data, alt, p)
              == Framing.FrameBits(data[p], data[p + 1], alt) + MessageBits(data, alt, p + Stride(alt))
  {
  }

  /** The number of bit ticks that send the frames from frame position `p` up to the terminator. */
  ghost function MessageTicksCount(data: Payload, alt: bool, p: nat): nat
    requires p % Stride(alt) == 0 && TerminatedFrom(data, alt, p)
    decreases PayloadSize - p
  {
    if ZeroPair(data, p) then 0
    else
      NextFrameAligned(data, alt, p);
      Framing.FrameLength + MessageTicksCount(data, alt, p + Stride(alt))
  }

  /** `r` is stopped at the terminator of `st`'s payload, at a frame boundary, still configured. */
  ghost predicate ParkedAtTerminator(r: State, st: State)
  {
    && Valid(r) && r.configured && r.bitPos == 0 && AtTerminator(r)
    && r.repeatCounter == st.repeatCounter && r.cfg == st.cfg
  }

  /**
    ... and stop at the terminator, still configured, at a frame boundary,
    with the repeat counter untouched.
   */
  lemma {:induction false} MessageTicksEnd(st: State)
    requires Valid(st) && st.configured && st.bitPos == 0
    ensures ParkedAtTerminator(BitTicks(st, MessageTicksCount(st.cfg.data, st.cfg.altFormat, st.bytePos)).st, st)
    decreases PayloadSize - st.bytePos
  {
    if AtTerminator(st) {
      ParkedAlready(st);
    } else {
      var mid := FrameTicksNext(st);
      MessageTicksEnd(mid);
      ParkedAfterFrame(st, MessageTicksCount(st.cfg.data, st.cfg.altFormat, mid.bytePos),
                       MessageTicksCount(st.cfg.data, st.cfg.altFormat, st.bytePos));
    }
  }

  lemma ParkedAlready(st: State)
    requires Valid(st) && st.configured && st.bitPos == 0 && AtTerminator(st)
    ensures MessageTicksCount(st.cfg.data, st.cfg.altFormat, st.bytePos) == 0
    ensures ParkedAtTerminator(BitTicks(st, 0).st, st)
  {
    assert BitTicks(st, 0).st == st;
  }

  /** One frame of bit ticks leaves the encoder at the next frame, with one frame fewer to send. */
  lemma FrameTicksNext(st: State) returns (mid: State)
    requires Valid(st) && st.configured && st.bitPos == 0 && !AtTerminator(st)
    ensures mid == BitTicks(st, Framing.FrameLength).st
    ensures Valid(mid) && mid.configured && mid.bitPos == 0 && mid.cfg == st.cfg
    ensures mid.repeatCounter == st.repeatCounter
    ensures mid.bytePos == st.bytePos + Stride(st.cfg.altFormat) && mid.bytePos < PayloadSize - 1
    ensures MessageTicksCount(st.cfg.data, st.cfg.altFormat, st.bytePos)
              == Framing.FrameLength + MessageTicksCount(st.cfg.data, st.cfg.altFormat, mid.bytePos)
  {
    FrameTicksCursor(st);
    mid := BitTicks(st, Framing.FrameLength).st;
    NextFrameAligned(st.cfg.data, st.cfg.altFormat, st.bytePos);
  }

  lemma ParkedAfterFrame(st: State, count: nat, total: nat)
    requires Valid(st) && total == Framing.FrameLength + count
    requires var mid := BitTicks(st, Framing.FrameLength).st;
             mid.cfg == st.cfg && mid.repeatCounter == st.repeatCounter
             && ParkedAtTerminator(BitTicks(mid, count).st, mid)
    ensures ParkedAtTerminator(BitTicks(st, total).st, st)
  {
    BitTicksStateAppend(st, count);
  }

  lemma FrameTicksCursor(st: State)
    requires Valid(st) && st.configured && !AtTerminator(st) && st.bitPos == 0
    ensures var mid := BitTicks(st, Framing.FrameLength).st;
            && mid.configured && mid.bitPos == 0 && mid.cfg == st.cfg
            && mid.repeatCounter == st.repeatCounter
            && mid.bytePos == st.bytePos + Stride(st.cfg.altFormat)
  {
    FrameTicksState(st, 0);
  }

  lemma BitTicksStateAppend(st: State, m: nat)
    requires Valid(st)
    ensures BitTicks(st, Framing.FrameLength + m).st == BitTicks(BitTicks(st, Framing.FrameLength).st, m).st
  {
    BitTicksAppend(st, Framing.FrameLength, m);
  }

  lemma {:induction false} BitTicksAppend(st: State, n: nat, m: nat)
    requires Valid(st)
    ensures BitTicks(st, n + m).st == BitTicks(BitTicks(st, n).st, m).st
    ensures BitTicks(st, n + m).bits == BitTicks(st, n).bits + BitTicks(BitTicks(st, n).st, m).bits
    decreases n
  {
    if n == 0 {
      assert BitTicks(st, 0) == Bits(st, []);
      assert [] + BitTicks(st, m).bits == BitTicks(st, m).bits;
    } else {
      var t := BitTick(st).st;
      BitTicksAppend(t, n - 1, m);
      var first := BitTicks(t, n - 1);
      BitTicksAppendStep(st, n, m, first, BitTicks(first.st, m));
    }
  }

  lemma BitTicksAppendStep(st: State, n: nat, m: nat, first: Bits, second: Bits)
    requires Valid(st) && n > 0
    requires first == BitTicks(BitTick(st).st, n - 1) && Valid(first.st)
    requires second == BitTicks(first.st, m)
    requires BitTicks(BitTick(st).st, n - 1 + m).st == second.st
    requires BitTicks(BitTick(st).st, n - 1 + m).bits == first.bits + second.bits
    ensures BitTicks(st, n + m).st == second.st
    ensures BitTicks(st, n + m).bits == BitTicks(st, n).bits + second.bits
    ensures BitTicks(st, n).st == first.st
  {
    var t := BitTick(st).st;
    BitTicksUnfold(st, n);
    BitTicksUnfold(st, n + m);
    assert n + m - 1 == n - 1 + m;
    ConsAssoc(t.curBit, first.bits, second.bits);
  }

  lemma ConsAssoc(b: Bit, xs: seq<Bit>, ys: seq<Bit>)
    ensures [b] + (xs + ys) == ([b] + xs) + ys
  {
  }

  lemma BitTicksUnfold(st: State, n: nat)
    requires Valid(st) && n > 0
    ensures var t := BitTick(st).st;
            var rest := BitTicks(t, n - 1);
            BitTicks(st, n) == Bits(rest.st, [t.curBit] + rest.bits)
  {
  }

  /** Bit ticks never change the configuration. */
  lemma {:induction false} BitTicksKeepConfig(st: State, n: nat)
    requires Valid(st)
    ensures BitTicks(st, n).st.cfg == st.cfg
    decreases n
  {
    if n > 0 {
      BitTicksKeepConfig(BitTick(st).st, n - 1);
    }
  }

  /** One bit tick more: the state after `n + 1` bit ticks is one bit tick past the state after `n`. */
  lemma BitTicksSnoc(st: State, n: nat)
    requires Valid(st)
    ensures BitTicks(st, n + 1).st == BitTick(BitTicks(st, n).st).st
  {
    BitTicksAppend(st, n, 1);
    BitTicksUnfold(BitTicks(st, n).st, 1);
  }

  // ---------------------------------------------------------------------------
  // The sample loop and the bit stream

  /**
    The loop of `execute` sends the bit stream of `BitTicks`: after `n`
    output samples the sub-divider has advanced `n` times, the bit gate has
    advanced once per firing of the sub-divider (once per tone tick), and
    the encoder stands exactly where one bit tick per firing of the bit
    gate takes it.
   */
  lemma {:induction false} RunTiming(st: State, table: SineTable, n: nat)
    requires Valid(st)
    ensures var tones := Divider.Firings(st.s, ToneDivider - 1, n);
            var bits := Divider.Firings(st.sampleCount, st.cfg.samplesPerBit, tones);
            var r := Run(st, table, n).st;
            && r.s == Divider.After(st.s, ToneDivider - 1, n)
            && r.sampleCount == Divider.After(st.sampleCount, st.cfg.samplesPerBit, tones)
            && EncoderOf(r) == EncoderOf(BitTicks(st, bits).st)
    decreases n, 1
  {
    if n == 0 {
      assert BitTicks(st, 0).st == st;
    } else {
      RunTimingStep(st, table, n - 1);
    }
  }

  /** The conclusion of `RunTiming` after `n` output samples. */
  ghost predicate Timed(st: State, table: SineTable, n: nat)
    requires Valid(st)
  {
    var tones := Divider.Firings(st.s, ToneDivider - 1, n);
    var bits := Divider.Firings(st.sampleCount, st.cfg.samplesPerBit, tones);
    var r := Run(st, table, n).st;
    && r.s == Divider.After(st.s, ToneDivider - 1, n)
    && r.sampleCount == Divider.After(st.sampleCount, st.cfg.samplesPerBit, tones)
    && EncoderOf(r) == EncoderOf(BitTicks(st, bits).st)
  }

  lemma {:induction false} RunTimingStep(st: State, table: SineTable, n: nat)
    requires Valid(st)
    ensures Timed(st, table, n + 1)
    decreases n, 2
  {
    RunTiming(st, table, n);
    assert Timed(st, table, n);
    RunExtends(st, table, n);
    var prev := Run(st, table, n).st;
    var tones := Divider.Firings(st.s, ToneDivider - 1, n);
    StepEncoder(prev, table);
    Divider.GatedSnoc(st.s, ToneDivider - 1, st.sampleCount, st.cfg.samplesPerBit, n);
    StepSends(st, prev, table, Divider.Firings(st.sampleCount, st.cfg.samplesPerBit, tones));
  }

  /** One output sample from a state whose encoder has sent `bits` bit ticks takes it to `bits` or `bits + 1`. */
  lemma StepSends(st: State, prev: State, table: SineTable, bits: nat)
    requires Valid(st) && Valid(prev) && prev.cfg == st.cfg
    requires EncoderOf(prev) == EncoderOf(BitTicks(st, bits).st)
    ensures var sub := Divider.Advance(prev.s, ToneDivider - 1);
            var gate := Divider.Advance(prev.sampleCount, prev.cfg.samplesPerBit);
            EncoderOf(Step(prev, table).st)
              == EncoderOf(BitTicks(st, bits + (if sub.fires && gate.fires then 1 else 0)).st)
  {
    StepEncoder(prev, table);
    var sub := Divider.Advance(prev.s, ToneDivider - 1);
    var gate := Divider.Advance(prev.sampleCount, prev.cfg.samplesPerBit);
    if sub.fires && gate.fires {
      BitTicksKeepConfig(st, bits);
      BitTickEncoder(prev, BitTicks(st, bits).st);
      BitTicksSnoc(st, bits);
    }
  }

  /** Receiver: split the stream into frames and decode each. */
  function DecodeStream(bits: seq<Bit>, alt: bool): (r: Option<seq<Byte>>)
    ensures r.Some? ==> Framing.FrameLength * |r.value| == |bits|
    decreases |bits|
  {
    if |bits| == 0 then Some([])
    else if |bits| < Framing.FrameLength then None
    else
      match Framing.DecodeFrame(bits[..Framing.FrameLength], alt)
      case None => None
      case Some(b) =>
        match DecodeStream(bits[Framing.FrameLength..], alt)
        case None => None
        case Some(rest) => Some([b] + rest)
  }

  /** Decoding the sent stream recovers the payload bytes, in order, in both formats. */
  lemma {:induction false} MessageRoundTrip(data: Payload, alt: bool, p: nat)
    requires p % Stride(alt) == 0 && TerminatedFrom(data, alt, p)
    ensures DecodeStream(MessageBits(data, alt, p), alt) == Some(MessageBytes(data, alt, p))
    decreases PayloadSize - p
  {
    if !ZeroPair(data, p) {
      MessageBitsUnfold(data, alt, p);
      Framing.FrameRoundTrip(data[p], data[p + 1], alt);
      MessageRoundTrip(data, alt, p + Stride(alt));
      DecodeStreamCons(Framing.FrameBits(data[p], data[p + 1], alt), MessageBits(data, alt, p + Stride(alt)), alt);
    }
  }

  /** Decoding a stream that starts with a good frame gives that frame's byte first. */
  lemma DecodeStreamCons(frame: seq<Bit>, rest: seq<Bit>, alt: bool)
    requires |frame| == Framing.FrameLength
    requires Framing.DecodeFrame(frame, alt).Some? && DecodeStream(rest, alt).Some?
    ensures DecodeStream(frame + rest, alt)
              == Some([Framing.DecodeFrame(frame, alt).value] + DecodeStream(rest, alt).value)
  {
    var bits := frame + rest;
    assert bits[..Framing.FrameLength] == frame;
    assert bits[Framing.FrameLength..] == rest;
  }

  /** In the standard format the bytes sent are exactly the payload up to its first zero pair. */
  lemma {:induction false} StandardBytesArePrefix(data: Payload, p: nat)
    requires TerminatedFrom(data, false, p)
    ensures p + |MessageBytes(data, false, p)| < PayloadSize - 1
    ensures MessageBytes(data, false, p) == data[p..p + |MessageBytes(data, false, p)|]
    ensures IsTerminator(data, false, p + |MessageBytes(data, false, p)|)
    ensures forall q :: p <= q < p + |MessageBytes(data, false, p)| ==> !ZeroPair(data, q)
    decreases PayloadSize - p
  {
    if !ZeroPair(data, p) {
      NextFrameAligned(data, false, p);
      StandardBytesArePrefix(data, p + 1);
    }
  }

  /**
    After a configuration message with a terminated payload, the first bit
    ticks send the payload's frames; decoding them gives back the payload
    bytes (in the standard format, the payload up to its first zero pair).
   */
  lemma FirstPassRoundTrip(st: State, msg: ConfigureMessage)
    requires msg.id == AFSKConfigure
    requires TerminatedFrom(msg.data, msg.altFormat, 0)
    ensures var c := Configure(st, msg);
            var sent := MessageBits(msg.data, msg.altFormat, 0);
            && BitTicks(c, |sent|).bits == sent
            && DecodeStream(sent, msg.altFormat) == Some(MessageBytes(msg.data, msg.altFormat, 0))
  {
    var c := Configure(st, msg);
    MessageTicks(c);
    MessageRoundTrip(msg.data, msg.altFormat, 0);
  }
}
