/** What the display chip sees: an edge-triggered decoder of its two lines. */
module Tm1637Device {
  import opened NetTypes

  datatype WireEvent = Start | Byte(value: nat) | Stop

  /** `bits` is the byte being received, low bit first; `events` and `bytes` are everything
      decoded so far, with and without the frame marks. */
  datatype Device = Device(clk: bool, dio: bool, active: bool, bits: seq<bool>, events: seq<WireEvent>, bytes: seq<nat>)

  /** A rising clock inside a frame takes a data bit; the ninth one completes the byte. */
  function OnClk(d: Device, high: bool): Device {
    if d.active && !d.clk && high then
      if |d.bits| < 8 then d.(clk := high, bits := d.bits + [d.dio])
      else d.(clk := high, bits := [], events := d.events + [Byte(FromBits(d.bits))],
              bytes := d.bytes + [FromBits(d.bits)])
    else d.(clk := high)
  }

  /** While the clock is high, DIO falling opens a frame and DIO rising closes it. */
  function OnDio(d: Device, high: bool): Device {
    if d.clk && d.dio && !high then d.(dio := high, active := true, bits := [], events := d.events + [Start])
    else if d.clk && !d.dio && high then d.(dio := high, active := false, events := d.events + [Stop])
    else d.(dio := high)
  }

  /** The bytes among some events. */
  function BytesOf(events: seq<WireEvent>): seq<nat> {
    if events == [] then []
    else
      var last := events[|events| - 1];
      BytesOf(events[..|events| - 1]) + if last.Byte? then [last.value] else []
  }

  /** `bytes` are those of `events`. */
  predicate Recorded(d: Device) {
    d.bytes == BytesOf(d.events)
  }

  lemma EdgesAreRecorded(d: Device, high: bool)
    requires Recorded(d)
    ensures Recorded(OnClk(d, high)) && Recorded(OnDio(d, high))
  {
    assert forall e: WireEvent :: (d.events + [e])[..|d.events|] == d.events;
  }

  function FromBits(bits: seq<bool>): nat {
    if bits == [] then 0 else (if bits[0] then 1 else 0) + 2 * FromBits(bits[1..])
  }

  /** `byte >> bit` */
  function Shifted(b: nat, bit: nat): nat {
    if bit == 0 then b else Shifted(b / 2, bit - 1)
  }

  /** `(byte >> bit) & 1` */
  function BitOf(b: nat, bit: nat): bool {
    Shifted(b, bit) % 2 == 1
  }

  /** The first `n` bits of `b`, low bit first. */
  function LowBits(b: nat, n: nat): seq<bool> {
    seq(n, k requires 0 <= k < n => BitOf(b, k))
  }

  lemma {:induction false} BitsRoundTrip(b: nat, n: nat)
    requires Shifted(b, n) == 0
    ensures FromBits(LowBits(b, n)) == b
    decreases n
  {
    if n > 0 {
      BitsRoundTrip(b / 2, n - 1);
      assert LowBits(b, n)[1..] == LowBits(b / 2, n - 1);
    }
  }

  /** Reassembling the eight bits of a byte gives the byte. */
  lemma ByteRoundTrip(b: byte)
    ensures FromBits(LowBits(b, 8)) == b
  {
    var h := b / 2 / 2 / 2 / 2;
    assert Shifted(b, 8) == Shifted(b / 2, 7) == Shifted(b / 2 / 2, 6);
    assert Shifted(b / 2 / 2, 6) == Shifted(b / 2 / 2 / 2, 5) == Shifted(h, 4);
    assert Shifted(h, 4) == Shifted(h / 2, 3) == Shifted(h / 2 / 2, 2);
    assert Shifted(h / 2 / 2, 2) == Shifted(h / 2 / 2 / 2, 1) == 0;
    BitsRoundTrip(b, 8);
  }

  /** Both lines released and no frame open. */
  predicate Quiet(d: Device) {
    d.clk && d.dio && !d.active
  }

  /** Inside a frame, between two bytes. */
  predicate BetweenBytes(d: Device) {
    d.active && !d.clk && d.bits == []
  }

  function Bytes(data: seq<nat>): seq<WireEvent> {
    seq(|data|, i requires 0 <= i < |data| => Byte(data[i]))
  }

  /** A frame whose first `n` bytes were clocked before it was closed. */
  function Sent(data: seq<nat>, n: nat): seq<WireEvent>
    requires n <= |data|
  {
    [Start] + Bytes(data[..n]) + [Stop]
  }

  /** What an earlier, unfinished exchange can still make the chip decode before a new START: a
      STOP when DIO was held low under a high clock, or the byte whose ninth clock was missing. */
  function Leftover(d: Device): seq<WireEvent> {
    if d.clk then (if d.dio then [] else [Stop])
    else if d.active && |d.bits| >= 8 then [Byte(FromBits(d.bits))] else []
  }

  /** The seven bytes of one refresh, in three frames: mode, address and data, control. */
  function Payload(segments: seq<byte>, brightness: nat): seq<byte>
    requires |segments| == 4 && brightness <= 7
  {
    [0x40, 0xc0, Masked(segments[0]), Masked(segments[1]), Masked(segments[2]), Masked(segments[3]), 0x88 + brightness]
  }

  /** `segment & 0x7f` */
  function Masked(segment: byte): byte {
    segment % 128
  }

  /** What the chip sees of a refresh that stopped after byte `n`: whole frames up to there, the
      frame of byte `n` closed behind it, and nothing more. */
  function Refresh(segments: seq<byte>, brightness: nat, n: nat): seq<WireEvent>
    requires |segments| == 4 && brightness <= 7 && 1 <= n <= 7
  {
    var p := Payload(segments, brightness);
    Sent(p[..1], 1)
    + (if n >= 2 then Sent(p[1..6], if n <= 6 then n - 1 else 5) else [])
    + (if n == 7 then Sent(p[6..], 1) else [])
  }

  lemma RefreshStarts(segments: seq<byte>, brightness: nat)
    requires |segments| == 4 && brightness <= 7
    ensures Refresh(segments, brightness, 1) == Sent([0x40], 1)
  {
  }

  lemma RefreshGrows(segments: seq<byte>, brightness: nat, n: nat)
    requires |segments| == 4 && brightness <= 7 && 1 <= n <= 5
    ensures Refresh(segments, brightness, 1 + n)
         == Refresh(segments, brightness, 1) + Sent(Payload(segments, brightness)[1..6], n)
  {
  }

  lemma RefreshEnds(segments: seq<byte>, brightness: nat)
    requires |segments| == 4 && brightness <= 7
    ensures Refresh(segments, brightness, 7)
         == Refresh(segments, brightness, 6) + Sent(Payload(segments, brightness)[6..], 1)
  {
  }

  // ----- Digits -----

  const DIGITS: seq<byte> := [0x3f, 0x06, 0x5b, 0x4f, 0x66, 0x6d, 0x7d, 0x07, 0x7f, 0x6f]

  /** The digit a segment pattern shows, reading it back. */
  function DigitShown(segments: byte): Option<nat> {
    if segments == 0x3f then Some(0) else if segments == 0x06 then Some(1)
    else if segments == 0x5b then Some(2) else if segments == 0x4f then Some(3)
    else if segments == 0x66 then Some(4) else if segments == 0x6d then Some(5)
    else if segments == 0x7d then Some(6) else if segments == 0x07 then Some(7)
    else if segments == 0x7f then Some(8) else if segments == 0x6f then Some(9) else None
  }

  function Encoded(page: nat, value: nat): seq<byte> {
    var v := if value > 999 then 999 else value;
    [if 1 <= page <= 3 then DIGITS[page] else 0, DIGITS[v / 100], DIGITS[v / 10 % 10], DIGITS[v % 10]]
  }

  /** The page and the number somebody reading the four digits sees. */
  function Shown(segments: seq<byte>): Option<(nat, nat)>
    requires |segments| == 4
  {
    var a, b := DigitShown(segments[0]), DigitShown(segments[1]);
    var c, d := DigitShown(segments[2]), DigitShown(segments[3]);
    if a.Some? && b.Some? && c.Some? && d.Some? then Some((a.value, 100 * b.value + 10 * c.value + d.value)) else None
  }

  /** Reading the display gives back the page and the number up to 999, and the driver's mask
      takes no segment away. */
  lemma DigitsRoundTrip(page: nat, value: nat)
    requires 1 <= page <= 3
    ensures Shown(Encoded(page, value)) == Some((page, Cut(value)))
    ensures forall i :: 0 <= i < 4 ==> Masked(Encoded(page, value)[i]) == Encoded(page, value)[i]
  {
    var v := if value > 999 then 999 else value;
    hide DigitShown, Masked;
    DecimalDigits(v);
    DigitRoundTrip(page);
    DigitRoundTrip(v / 100);
    DigitRoundTrip(v / 10 % 10);
    DigitRoundTrip(v % 10);
  }

  /** Any other page number leaves the first digit dark. */
  lemma OtherPagesAreDark(page: nat, value: nat)
    requires page == 0 || page > 3
    ensures Encoded(page, value)[0] == 0 && Encoded(page, value)[1..] == Encoded(1, value)[1..]
  {
  }

  lemma FourDigits(page: nat, value: nat)
    ensures |Encoded(page, value)| == 4
  {
  }

  lemma DecimalDigits(v: nat)
    requires v <= 999
    ensures v / 100 < 10 && v == 100 * (v / 100) + 10 * (v / 10 % 10) + v % 10
  {
  }

  lemma DigitRoundTrip(d: nat)
    requires d < 10
    ensures DigitShown(DIGITS[d]) == Some(d) && Masked(DIGITS[d]) == DIGITS[d]
  {
  }

  // ----- The registers behind the frames -----

  /** The frame being received, and what closed frames have set: address auto-increment, the four
      digit registers, and the brightness while the display is on. */
  datatype Chip = Chip(frame: seq<nat>, increments: bool, digits: seq<nat>, light: Option<nat>)

  /** A closed frame takes effect: a mode, an address with data for all four registers, or a
      control command. */
  function Closed(c: Chip): Chip {
    var f, idle := c.frame, c.(frame := []);
    if f == [0x40] then idle.(increments := true)
    else if |f| == 5 && f[0] == 0xc0 && c.increments then idle.(digits := f[1..])
    else if |f| == 1 && 0x88 <= f[0] <= 0x8f then idle.(light := Some(f[0] - 0x88))
    else if |f| == 1 && 0x80 <= f[0] <= 0x87 then idle.(light := None)
    else idle
  }

  function Received(c: Chip, e: WireEvent): Chip {
    match e
    case Start => c.(frame := [])
    case Byte(value) => c.(frame := c.frame + [value])
    case Stop => Closed(c)
  }

  /** The chip after some more events. */
  function ChipAfter(c: Chip, events: seq<WireEvent>): Chip {
    if events == [] then c else Received(ChipAfter(c, events[..|events| - 1]), events[|events| - 1])
  }

  lemma {:induction false} ChipContinues(c: Chip, a: seq<WireEvent>, b: seq<WireEvent>)
    ensures ChipAfter(c, a + b) == ChipAfter(ChipAfter(c, a), b)
  {
    hide Received;
    if b == [] {
      assert a + b == a;
    } else {
      ChipContinues(c, a, b[..|b| - 1]);
      assert (a + b)[..|a + b| - 1] == a + b[..|b| - 1];
    }
  }

  lemma {:induction false} ChipCollects(c: Chip, data: seq<nat>)
    ensures ChipAfter(c, Bytes(data)) == c.(frame := c.frame + data)
  {
    if data == [] {
      assert c.frame + data == c.frame;
    } else {
      var n := |data| - 1;
      ChipCollects(c, data[..n]);
      assert Bytes(data)[..n] == Bytes(data[..n]);
      assert data == data[..n] + [data[n]];
      assert c.frame + data[..n] + [data[n]] == c.frame + data;
    }
  }

  lemma ChipReads(c: Chip, data: seq<nat>)
    ensures ChipAfter(c, Sent(data, |data|)) == Closed(c.(frame := data))
  {
    hide Closed, Bytes;
    assert data[..|data|] == data;
    var begun := ChipAfter(c, [Start]);
    assert [Start][..0] == [];
    assert begun == Received(ChipAfter(c, []), Start);
    assert begun == c.(frame := []);
    ChipContinues(c, [Start], Bytes(data));
    ChipCollects(begun, data);
    assert [] + data == data;
    ChipContinues(c, [Start] + Bytes(data), [Stop]);
    assert [Stop][..0] == [];
  }

  /** Whatever the chip held, after a whole refresh its registers hold the segments, lit. */
  lemma RefreshIsRead(c: Chip, segments: seq<byte>, brightness: nat)
    requires |segments| == 4 && brightness <= 7
    ensures var d := ChipAfter(c, Refresh(segments, brightness, 7));
            && d.digits == [segments[0] % 128, segments[1] % 128, segments[2] % 128, segments[3] % 128]
            && d.light == Some(brightness) && d.frame == []
  {
    hide Sent, ChipAfter;
    var p := Payload(segments, brightness);
    var mode, digits, control := p[..1], p[1..6], p[6..];
    assert mode == [0x40] && control == [0x88 + brightness];
    ChipReads(c, mode);
    var c1 := ChipAfter(c, Sent(mode, 1));
    ChipReads(c1, digits);
    ChipContinues(c, Sent(mode, 1), Sent(digits, 5));
    var c2 := ChipAfter(c1, Sent(digits, 5));
    ChipReads(c2, control);
    ChipContinues(c, Sent(mode, 1) + Sent(digits, 5), Sent(control, 1));
  }

  function Cut(value: nat): nat {
    if value > 999 then 999 else value
  }

  /** A completed refresh with an encoded number: somebody reading the registers sees the page and
      the number. */
  lemma RefreshShows(c: Chip, page: nat, value: nat, brightness: nat)
    requires 1 <= page <= 3 && brightness <= 7
    ensures var digits := ChipAfter(c, Refresh(Encoded(page, value), brightness, 7)).digits;
            digits == Encoded(page, value) && Shown(Encoded(page, value)) == Some((page, Cut(value)))
  {
    hide Shown, Encoded, Refresh;
    FourDigits(page, value);
    DigitsRoundTrip(page, value);
    RefreshIsRead(c, Encoded(page, value), brightness);
  }
}
