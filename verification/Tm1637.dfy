/** The bit-banged TM1637 driver over a bus on which any line write may fail and any byte may go
    unacknowledged. Delays are left out. */
module Tm1637 {
  import opened NetTypes
  import opened Tm1637Device

  datatype Wire = Wire(device: Device, writes: nat, faults: nat, streak: nat, acks: seq<bool>)

  /** The two lines with the chip attached. A failed write leaves its line where it was. */
  class Bus {
    ghost var device: Device
    /** How many line writes were tried, and how many of them failed. */
    ghost var writes: nat
    ghost var faults: nat
    /** How many line writes have succeeded since the last one that failed. */
    ghost var streak: nat
    /** For each answer read so far, whether it acknowledged the byte. */
    ghost var acks: seq<bool>

    ghost function State(): Wire
      reads this
    {
      Wire(device, writes, faults, streak, acks)
    }

    method SetClk(high: bool) returns (ok: bool)
      modifies this
      ensures device == if ok then OnClk(old(device), high) else old(device)
      ensures writes == old(writes) + 1 && faults == old(faults) + if ok then 0 else 1
      ensures streak == if ok then old(streak) + 1 else 0
      ensures Recorded(old(device)) ==> Recorded(device)
      ensures acks == old(acks)
    {
      if Recorded(device) {
        EdgesAreRecorded(device, high);
      }
      ok := *;
      writes := writes + 1;
      if ok {
        device, streak := OnClk(device, high), streak + 1;
      } else {
        faults, streak := faults + 1, 0;
      }
    }

    method SetDio(high: bool) returns (ok: bool)
      modifies this
      ensures device == if ok then OnDio(old(device), high) else old(device)
      ensures writes == old(writes) + 1 && faults == old(faults) + if ok then 0 else 1
      ensures streak == if ok then old(streak) + 1 else 0
      ensures Recorded(old(device)) ==> Recorded(device)
      ensures acks == old(acks)
    {
      if Recorded(device) {
        EdgesAreRecorded(device, high);
      }
      ok := *;
      writes := writes + 1;
      if ok {
        device, streak := OnDio(device, high), streak + 1;
      } else {
        faults, streak := faults + 1, 0;
      }
    }

    /** Only meaningful while the clock is high and the host has released DIO. */
    method GetDio() returns (level: int)
      requires device.clk && device.dio
      modifies this
      ensures device == old(device) && writes == old(writes) && faults == old(faults) && streak == old(streak)
      ensures acks == old(acks) + [level == 0]
    {
      level := *;
      acks := acks + [level == 0];
    }
  }

  /** `n` answers of which only the last may be a refusal. */
  function Answers(n: nat, ok: bool): (r: seq<bool>)
    ensures |r| == n
  {
    seq(n, i requires 0 <= i < n => i + 1 < n || ok)
  }

  /** How many bytes were answered between `w` and `v`. */
  function Count(w: Wire, v: Wire): int {
    |v.acks| - |w.acks|
  }

  /** The last byte answered between `w` and `v` was refused. */
  predicate Refused(w: Wire, v: Wire) {
    Count(w, v) > 0 && !v.acks[|v.acks| - 1]
  }

  /** Whatever the faults: only the last answer may be a refusal, and that one ends the exchange
      without success; every byte answered was clocked, and at most one more, cut short by a fault
      and completed by the closing edge. */
  predicate Answered(w: Wire, v: Wire, ok: bool, sent: nat) {
    && w.acks <= v.acks
    && (forall i :: |w.acks| <= i < |v.acks| - 1 ==> v.acks[i])
    && Count(w, v) <= sent <= Count(w, v) + 1
    && (sent > Count(w, v) ==> w.faults < v.faults)
    && (Refused(w, v) ==> !ok && sent == Count(w, v))
  }

  /** A chip that stood at `d` decoded `data` since, after at most one byte made of the bits an
      earlier exchange had left in it. */
  predicate Decoded(d: Device, e: Device, data: seq<nat>) {
    || e.bytes == d.bytes + data
    || (d.active && |d.bits| >= 8 && e.bytes == d.bytes + [FromBits(d.bits)] + data)
    || (d.active && |d.bits| == 7 && data == [] && e.bytes == d.bytes + [FromBits(d.bits + [true])])
  }

  /** One frame, from `w` to `v`. Without a line fault the chip sees it up to and including the
      first byte it does not acknowledge. Whatever the faults: the chip decodes a prefix of the
      frame behind what an earlier exchange left in it; a refused byte is the last one clocked, and
      after it come only the four closing writes; and both lines end released whenever the last
      four line writes, which are the closing ones, succeeded. */
  ghost predicate FrameDone(data: seq<byte>, w: Wire, v: Wire, ok: bool, sent: nat) {
    && w.faults <= v.faults
    && (w.faults < v.faults ==> !ok)
    && (w.faults == v.faults ==>
          var n := |v.acks| - |w.acks|;
          && 1 <= n <= |data| && (ok ==> n == |data|)
          && v.acks == w.acks + Answers(n, ok)
          && v.device.events == w.device.events + Leftover(w.device) + Sent(data, n)
          && v.streak >= 4)
    && Answered(w, v, ok, sent)
    && (ok || Refused(w, v) ==> v.writes == w.writes + LineWrites(1, sent))
    && sent <= |data| && (ok ==> sent == |data|)
    && Decoded(w.device, v.device, data[..sent])
    && (v.streak >= 4 ==> Quiet(v.device))
    && (Recorded(w.device) ==> Recorded(v.device))
  }

  /** Four line writes open a frame and four close it; a byte takes three for each of its bits and
      three for its answer. */
  function LineWrites(frames: nat, bytes: nat): nat {
    8 * frames + 27 * bytes
  }

  /** In how many frames the first `n` bytes of a refresh go out. */
  function Frames(n: nat): nat {
    if n <= 1 then n else if n <= 6 then 2 else 3
  }

  /** One refresh, from `w` to `v`. It succeeds exactly when no line write failed and every byte
      was acknowledged. Without a line fault the chip sees exactly the bytes up to the first one it
      refused, in closed frames. Whatever the faults: the chip decodes a prefix of the seven bytes,
      and all of them when the refresh succeeds; and when it refuses one, that byte is the last one
      clocked and no line is written any more once its frame has been closed. */
  ghost predicate RefreshDone(segments: seq<byte>, brightness: nat, w: Wire, v: Wire, ok: bool, sent: nat)
    requires |segments| == 4 && brightness <= 7
  {
    && w.faults <= v.faults
    && (w.faults < v.faults ==> !ok)
    && (w.faults == v.faults ==>
          var n := |v.acks| - |w.acks|;
          && 1 <= n <= 7 && (ok ==> n == 7)
          && v.acks == w.acks + Answers(n, ok)
          && v.device.events == w.device.events + Leftover(w.device) + Refresh(segments, brightness, n)
          && v.streak >= 4)
    && Answered(w, v, ok, sent)
    && (ok || Refused(w, v) ==> v.writes == w.writes + LineWrites(Frames(sent), sent))
    && sent <= 7 && (ok ==> sent == 7)
    && Decoded(w.device, v.device, Payload(segments, brightness)[..sent])
    && (v.streak >= 4 ==> Quiet(v.device))
    && (Recorded(w.device) ==> Recorded(v.device))
  }

  lemma ModeSent(segments: seq<byte>, brightness: nat, w: Wire, v: Wire, ok: bool, sent: nat)
    requires |segments| == 4 && brightness <= 7
    requires FrameDone([0x40], w, v, ok, sent)
    ensures !ok ==> RefreshDone(segments, brightness, w, v, ok, sent)
    ensures ok ==> Progress(segments, brightness, 1, w, v)
  {
    hide Sent, Refresh, Recorded;
    RefreshStarts(segments, brightness);
    assert [0x40][..sent] == Payload(segments, brightness)[..sent];
  }

  /** The first `n` bytes went out and were acknowledged. */
  ghost predicate Progress(segments: seq<byte>, brightness: nat, n: nat, w: Wire, v: Wire)
    requires |segments| == 4 && brightness <= 7 && 1 <= n <= 7
  {
    && w.faults == v.faults && Quiet(v.device)
    && v.acks == w.acks + Answers(n, true)
    && v.writes == w.writes + LineWrites(Frames(n), n)
    && v.device.events == w.device.events + Leftover(w.device) + Refresh(segments, brightness, n)
    && Decoded(w.device, v.device, Payload(segments, brightness)[..n])
    && (Recorded(w.device) ==> Recorded(v.device))
  }

  /** Answers and bytes of a frame that follows `m` accepted bytes. */
  lemma FrameFollows(m: nat, before: seq<byte>, data: seq<byte>, w: Wire, v: Wire, u: Wire, ok: bool, more: nat)
    requires v.acks == w.acks + Answers(m, true) && w.faults == v.faults && m >= 1
    requires Answered(v, u, ok, more) && v.faults <= u.faults
    requires before != [] && Decoded(w.device, v.device, before) && Quiet(v.device) && Decoded(v.device, u.device, data)
    ensures Answered(w, u, ok, m + more)
    ensures Refused(w, u) <==> Refused(v, u)
    ensures Decoded(w.device, u.device, before + data)
  {
    assert forall i :: |w.acks| <= i < |v.acks| ==> v.acks[i];
    assert forall i :: 0 <= i < |v.acks| ==> u.acks[i] == v.acks[i];
    assert w.device.bytes + (before + data) == w.device.bytes + before + data;
    var stray := w.device.bytes + [FromBits(w.device.bits)];
    assert stray + (before + data) == stray + before + data;
  }

  lemma DigitsSent(segments: seq<byte>, brightness: nat, w: Wire, v: Wire, u: Wire, ok: bool, more: nat)
    returns (sent: nat)
    requires |segments| == 4 && brightness <= 7
    requires Progress(segments, brightness, 1, w, v)
    requires FrameDone(Payload(segments, brightness)[1..6], v, u, ok, more)
    ensures !ok ==> RefreshDone(segments, brightness, w, u, ok, sent)
    ensures ok ==> Progress(segments, brightness, 6, w, u)
  {
    hide Sent, Refresh, Answers, Payload, Decoded, Answered, Recorded;
    var p: seq<byte> := Payload(segments, brightness);
    PayloadLength(segments, brightness);
    sent := 1 + more;
    assert p[..1] + p[1..6][..more] == p[..1 + more];
    FrameFollows(1, p[..1], p[1..6][..more], w, v, u, ok, more);
    assert v.device.events + [] == v.device.events;
    if v.faults == u.faults {
      var n := |u.acks| - |v.acks|;
      AnswersJoin(1, n, ok);
      RefreshGrows(segments, brightness, n);
    }
  }

  lemma PayloadLength(segments: seq<byte>, brightness: nat)
    requires |segments| == 4 && brightness <= 7
    ensures |Payload(segments, brightness)| == 7 && Payload(segments, brightness)[6..] == [0x88 + brightness]
  {
  }

  lemma ControlSent(segments: seq<byte>, brightness: nat, w: Wire, v: Wire, u: Wire, ok: bool, more: nat)
    returns (sent: nat)
    requires |segments| == 4 && brightness <= 7
    requires Progress(segments, brightness, 6, w, v)
    requires FrameDone([0x88 + brightness], v, u, ok, more)
    ensures RefreshDone(segments, brightness, w, u, ok, sent)
  {
    hide Sent, Refresh, Answers, Payload, Decoded, Answered, Recorded;
    var p: seq<byte> := Payload(segments, brightness);
    PayloadLength(segments, brightness);
    sent := 6 + more;
    assert p[..6] + [0x88 + brightness][..more] == p[..6 + more];
    FrameFollows(6, p[..6], [0x88 + brightness][..more], w, v, u, ok, more);
    assert v.device.events + [] == v.device.events;
    if v.faults == u.faults {
      AnswersJoin(6, 1, ok);
      RefreshEnds(segments, brightness);
    }
  }

  lemma AnswersJoin(m: nat, n: nat, ok: bool)
    requires n > 0
    ensures Answers(m, true) + Answers(n, ok) == Answers(m + n, ok)
  {
  }

  /** When the chip refuses the k-th byte of a refresh, whatever line writes fail besides: the
      refresh fails, exactly the bytes up to that one were clocked, and the only line writes were
      those of the frames up to the one of byte k. */
  lemma RefusalEndsTheRefresh(segments: seq<byte>, brightness: nat, w: Wire, v: Wire, ok: bool, sent: nat, k: nat)
    requires |segments| == 4 && brightness <= 7 && RefreshDone(segments, brightness, w, v, ok, sent)
    requires 1 <= k <= Count(w, v) && !v.acks[|w.acks| + k - 1]
    ensures !ok && sent == k && v.acks == w.acks + Answers(k, false)
    ensures Quiet(w.device) ==> v.device.bytes == w.device.bytes + Payload(segments, brightness)[..k]
    ensures v.writes == w.writes + LineWrites(Frames(k), k)
  {
    hide Payload;
    assert v.acks == w.acks + Answers(k, false);
  }

  /** After a successful refresh the chip's registers hold the segments and are lit, whatever it
      decoded before. */
  lemma WrittenIsOnTheChip(c: Chip, segments: seq<byte>, brightness: nat, w: Wire, v: Wire, sent: nat)
    requires |segments| == 4 && brightness <= 7 && RefreshDone(segments, brightness, w, v, true, sent)
    ensures var d := ChipAfter(c, v.device.events);
            && d.digits == [segments[0] % 128, segments[1] % 128, segments[2] % 128, segments[3] % 128]
            && d.light == Some(brightness)
  {
    hide Refresh, ChipAfter;
    var before := w.device.events + Leftover(w.device);
    ChipContinues(c, before, Refresh(segments, brightness, 7));
    RefreshIsRead(ChipAfter(c, before), segments, brightness);
  }

  /** After a successful clear the registers are blank and the display is off. */
  lemma ClearedIsDark(c: Chip, brightness: nat, before: seq<WireEvent>)
    requires brightness <= 7
    ensures var d := ChipAfter(c, before + Refresh([0, 0, 0, 0], brightness, 7) + Sent([0x80], 1));
            d.digits == [0, 0, 0, 0] && d.light == None
  {
    hide Refresh, ChipAfter, Sent;
    var refresh := Refresh([0, 0, 0, 0], brightness, 7);
    ChipContinues(c, before, refresh);
    RefreshIsRead(ChipAfter(c, before), [0, 0, 0, 0], brightness);
    ChipContinues(c, before + refresh, Sent([0x80], 1));
    ChipReads(ChipAfter(c, before + refresh), [0x80]);
  }

  class Display {
    const bus: Bus
    const brightness: nat

    constructor (bus: Bus, brightness: nat)
      requires brightness <= 7
      ensures this.bus == bus && this.brightness == brightness
    {
      this.bus, this.brightness := bus, brightness;
    }

    /** What a failed attempt to open a frame leaves in a chip that stood at `d`. */
    static ghost predicate NotOpened(d: Device, e: Device) {
      || (e.bytes == d.bytes && (e.active ==>
            || e.bits == []
            || (d.active && e.bits == d.bits)
            || (d.active && |d.bits| < 8 && e.bits == d.bits + [true])))
      || (d.active && |d.bits| >= 8 && e.bytes == d.bytes + [FromBits(d.bits)] && e.bits == [])
    }

    method OpenFrame() returns (ok: bool)
      modifies bus
      ensures Recorded(old(bus.device)) ==> Recorded(bus.device)
      ensures bus.acks == old(bus.acks)
      ensures bus.faults >= old(bus.faults) && (ok <==> bus.faults == old(bus.faults))
      ensures ok ==> bus.writes == old(bus.writes) + 4
      ensures ok ==> && BetweenBytes(bus.device)
                     && bus.device.events == old(bus.device.events) + Leftover(old(bus.device)) + [Start]
      ensures ok ==> Decoded(old(bus.device), bus.device, [])
                     && (bus.device.bytes == old(bus.device.bytes) || |old(bus.device.bits)| >= 8)
      ensures !ok ==> NotOpened(old(bus.device), bus.device)
    {
      hide Recorded;
      ok := bus.SetDio(true);
      if ok {
        ok := bus.SetClk(true);
      }
      if ok {
        ok := bus.SetDio(false);
      }
      if ok {
        ok := bus.SetClk(false);
      }
    }

    /** Attempts all four writes whatever happens to each. */
    method CloseFrame() returns (ok: bool)
      modifies bus
      ensures Recorded(old(bus.device)) ==> Recorded(bus.device)
      ensures bus.acks == old(bus.acks)
      ensures bus.faults >= old(bus.faults) && (ok <==> bus.faults == old(bus.faults))
      ensures bus.writes == old(bus.writes) + 4 && (ok <==> bus.streak >= 4)
      ensures ok ==> Quiet(bus.device)
      ensures ok && BetweenBytes(old(bus.device)) ==>
                bus.device.events == old(bus.device.events) + [Stop] && bus.device.bytes == old(bus.device.bytes)
      ensures bus.device.bytes == old(bus.device.bytes)
              || (old(bus.device).active && |old(bus.device).bits| >= 8
                  && bus.device.bytes == old(bus.device.bytes) + [FromBits(old(bus.device).bits)])
    {
      hide Recorded;
      ok := bus.SetClk(false);
      var done := bus.SetDio(false);
      ok := done && ok;
      done := bus.SetClk(true);
      ok := done && ok;
      done := bus.SetDio(true);
      ok := done && ok;
    }

    method WriteBit(high: bool) returns (ok: bool)
      requires bus.device.active && !bus.device.clk && |bus.device.bits| < 8
      modifies bus
      ensures Recorded(old(bus.device)) ==> Recorded(bus.device)
      ensures bus.acks == old(bus.acks)
      ensures bus.faults >= old(bus.faults) && (ok <==> bus.faults == old(bus.faults))
      ensures ok ==> bus.writes == old(bus.writes) + 3
      ensures ok ==> bus.device == old(bus.device).(dio := high, bits := old(bus.device).bits + [high])
      ensures bus.device.active
      ensures bus.device.events == old(bus.device).events && bus.device.bytes == old(bus.device).bytes
      ensures bus.device.bits == old(bus.device).bits || bus.device.bits == old(bus.device).bits + [high]
    {
      hide Recorded;
      ok := bus.SetDio(high);
      if ok {
        ok := bus.SetClk(true);
      }
      if ok {
        ok := bus.SetClk(false);
      }
    }

    /** What an interrupted byte leaves in the chip: some of its bits. */
    static ghost predicate Interrupted(before: Device, after: Device, b: nat) {
      after.active && after.bytes == before.bytes && |after.bits| <= 8 && after.bits == LowBits(b, |after.bits|)
    }

    /** An answer is read exactly when the chip has the whole byte. */
    method WriteByte(b: byte) returns (ok: bool)
      requires BetweenBytes(bus.device)
      modifies bus
      ensures Recorded(old(bus.device)) ==> Recorded(bus.device)
      ensures bus.faults >= old(bus.faults)
      ensures bus.faults == old(bus.faults) ==>
                && bus.device == old(bus.device).(dio := true, events := old(bus.device).events + [Byte(b)],
                                                  bytes := old(bus.device).bytes + [b])
                && bus.acks == old(bus.acks) + [ok]
      ensures bus.faults > old(bus.faults) ==> !ok
      ensures if |bus.acks| == |old(bus.acks)|
              then && bus.acks == old(bus.acks) && bus.faults > old(bus.faults)
                   && Interrupted(old(bus.device), bus.device, b)
              else && |bus.acks| == |old(bus.acks)| + 1 && old(bus.acks) <= bus.acks
                   && bus.device.bytes == old(bus.device.bytes) + [b] && bus.device.bits == []
                   && bus.writes == old(bus.writes) + 27
                   && (ok ==> bus.acks[|bus.acks| - 1])
    {
      hide Recorded;
      ByteRoundTrip(b);
      for bit := 0 to 8
        invariant bus.faults == old(bus.faults) && bus.acks == old(bus.acks)
        invariant Recorded(old(bus.device)) ==> Recorded(bus.device)
        invariant bus.writes == old(bus.writes) + 3 * bit
        invariant bus.device == old(bus.device).(dio := bus.device.dio, bits := LowBits(b, bit))
      {
        ok := WriteBit(BitOf(b, bit));
        assert LowBits(b, bit + 1) == LowBits(b, bit) + [BitOf(b, bit)];
        if !ok {
          return;
        }
      }
      ok := bus.SetDio(true);
      if ok {
        ok := bus.SetClk(true);
      }
      if !ok {
        return;
      }
      var ack := bus.GetDio();
      ok := bus.SetClk(false);
      ok := ok && ack == 0;
    }

    /** The bytes of a frame, after an attempt `started` to open it: stops at the first failure. */
    method SendBytes(data: seq<byte>, started: bool) returns (ok: bool)
      requires data != []
      requires started ==> BetweenBytes(bus.device)
      modifies bus
      ensures Recorded(old(bus.device)) ==> Recorded(bus.device)
      ensures bus.faults >= old(bus.faults) && (bus.faults > old(bus.faults) || !started ==> !ok)
      ensures !started ==> bus.State() == old(bus.State())
      ensures old(bus.acks) <= bus.acks && Count(old(bus.State()), bus.State()) <= |data|
      ensures bus.device.bytes == old(bus.device.bytes) + data[..Count(old(bus.State()), bus.State())]
      ensures forall i :: |old(bus.acks)| <= i < |bus.acks| - 1 ==> bus.acks[i]
      ensures ok ==> Count(old(bus.State()), bus.State()) == |data|
      ensures started && bus.faults == old(bus.faults) ==>
                var n := Count(old(bus.State()), bus.State());
                && BetweenBytes(bus.device) && n >= 1
                && bus.acks == old(bus.acks) + Answers(n, ok)
                && bus.device.events == old(bus.device.events) + Bytes(data[..n])
      ensures ok || Refused(old(bus.State()), bus.State()) ==>
                bus.device.bits == [] && bus.writes == old(bus.writes) + 27 * Count(old(bus.State()), bus.State())
      ensures Refused(old(bus.State()), bus.State()) ==> !ok
      ensures started && bus.device.active && |bus.device.bits| >= 8 ==>
                var n := Count(old(bus.State()), bus.State());
                n < |data| && FromBits(bus.device.bits) == data[n] && bus.faults > old(bus.faults)
    {
      hide Recorded;
      ghost var w := bus.State();
      ok := started;
      var index := 0;
      while ok && index < |data|
        invariant 0 <= index <= |data| && (index > 0 ==> started)
        invariant Recorded(w.device) ==> Recorded(bus.device)
        invariant index == 0 ==> ok == started && bus.State() == w
        invariant bus.faults >= w.faults && (bus.faults > w.faults ==> !ok)
        invariant w.acks <= bus.acks && Count(w, bus.State()) <= index
        invariant ok ==> Count(w, bus.State()) == index && forall i :: |w.acks| <= i < |bus.acks| ==> bus.acks[i]
        invariant forall i :: |w.acks| <= i < |bus.acks| - 1 ==> bus.acks[i]
        invariant started && bus.faults == w.faults ==>
                    && BetweenBytes(bus.device) && Count(w, bus.State()) == index
                    && bus.acks == w.acks + Answers(index, ok)
                    && bus.device.events == w.device.events + Bytes(data[..index])
        invariant bus.device.bytes == w.device.bytes + data[..Count(w, bus.State())]
        invariant ok || Refused(w, bus.State()) ==>
                    (started ==> bus.device.bits == []) && bus.writes == w.writes + 27 * Count(w, bus.State())
        invariant Refused(w, bus.State()) ==> !ok
        invariant started && bus.device.active && |bus.device.bits| >= 8 ==>
                    var n := Count(w, bus.State());
                    n < |data| && FromBits(bus.device.bits) == data[n] && bus.faults > w.faults
        decreases |data| - index
      {
        assert data[..index + 1] == data[..index] + [data[index]];
        assert Bytes(data[..index + 1]) == Bytes(data[..index]) + [Byte(data[index])];
        ByteRoundTrip(data[index]);
        ok := WriteByte(data[index]);
        index := index + 1;
      }
    }

    method Transaction(data: seq<byte>) returns (ok: bool, ghost sent: nat)
      requires data != []
      modifies bus
      ensures FrameDone(data, old(bus.State()), bus.State(), ok, sent)
    {
      hide Recorded;
      ghost var w := bus.State();
      var started := OpenFrame();
      ok := SendBytes(data, started);
      ghost var before := bus.State();
      var closed := CloseFrame();
      sent := Count(w, before);
      if started && bus.device.bytes != before.device.bytes {
        assert data[..sent + 1] == data[..sent] + [data[sent]];
        sent := sent + 1;
      }
      ok := closed && ok;
    }

    method Write(segments: seq<byte>) returns (ok: bool, ghost sent: nat)
      requires |segments| == 4 && brightness <= 7
      modifies bus
      ensures RefreshDone(segments, brightness, old(bus.State()), bus.State(), ok, sent)
    {
      hide FrameDone, RefreshDone;
      ghost var w := bus.State();
      var data: seq<byte> := [0xc0];
      for index := 0 to 4
        invariant data == Payload(segments, brightness)[1..index + 2]
      {
        data := data + [Masked(segments[index])];
      }
      ok, sent := Transaction([0x40]);
      ghost var w1 := bus.State();
      ModeSent(segments, brightness, w, w1, ok, sent);
      if ok {
        ok, sent := Transaction(data);
        ghost var w2 := bus.State();
        sent := DigitsSent(segments, brightness, w, w1, w2, ok, sent);
        if ok {
          ok, sent := Transaction([0x88 + brightness]);
          sent := ControlSent(segments, brightness, w, w2, bus.State(), ok, sent);
        }
      }
    }

    /** Blanks the digits and switches the display off; the second frame is tried even when the
        first part fails. The ghost results are the outcomes of the two parts and the wire between
        them. */
    method Clear()
      returns (ok: bool, ghost blanked: bool, ghost off: bool, ghost between: Wire, ghost sent: nat, ghost last: nat)
      requires brightness <= 7
      modifies bus
      ensures ok <==> blanked && off
      ensures RefreshDone([0, 0, 0, 0], brightness, old(bus.State()), between, blanked, sent)
      ensures FrameDone([0x80], between, bus.State(), off, last)
      ensures ok ==> bus.device.events == old(bus.device.events) + Leftover(old(bus.device))
                                          + Refresh([0, 0, 0, 0], brightness, 7) + Sent([0x80], 1)
    {
      var done, closed;
      done, sent := Write([0, 0, 0, 0]);
      blanked, between := done, bus.State();
      closed, last := Transaction([0x80]);
      off := closed;
      ok := closed && done;
    }
  }

  /** Fills the caller's buffer with the digits of a page. */
  method EncodeNumber(page: nat, value: nat, segments: array<byte>)
    requires segments.Length == 4
    modifies segments
    ensures segments[..] == Encoded(page, value)
  {
    var v := if value > 999 then 999 else value;
    segments[0] := if 1 <= page <= 3 then DIGITS[page] else 0;
    segments[1] := DIGITS[v / 100];
    segments[2] := DIGITS[v / 10 % 10];
    segments[3] := DIGITS[v % 10];
  }
}
