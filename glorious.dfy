/** The Glorious Model O configuration record: a typed overlay on a private
    bytearray that reads and writes the lighting effect (offset 0x35) and the
    single colour (offsets 0x39..0x3B, stored red, blue, green), and marks the
    record as a pending write (offset 0x03 becomes 0x7B) on every setter. */
module Glorious {
  import opened PyBytes

  /** The lighting effects, with the byte values the device uses. */
  datatype Effect =
    | Off
    | Glorious            // rainbow flow
    | SingleColour
    | Breathing
    | Tail
    | SeamlessBreathing
    | ConstantGrb
    | Rave
    | Random
    | Wave
    | SingleBreathing
  {
    function Value(): byte {
      match this
      case Off => 0
      case Glorious => 1
      case SingleColour => 2
      case Breathing => 3
      case Tail => 4
      case SeamlessBreathing => 5
      case ConstantGrb => 6
      case Rave => 7
      case Random => 8
      case Wave => 9
      case SingleBreathing => 10
    }
  }

  /** `GloriousEffect(b)`: the effect whose value is `b`, or ValueError. */
  function DecodeEffect(b: int): (r: Result<Effect>)
    ensures r.Ok? <==> 0 <= b <= 10
    ensures r.Ok? ==> r.value.Value() as int == b
    ensures r.Err? ==> r.error == ValueError
  {
    if b == 0 then Ok(Off)
    else if b == 1 then Ok(Glorious)
    else if b == 2 then Ok(SingleColour)
    else if b == 3 then Ok(Breathing)
    else if b == 4 then Ok(Tail)
    else if b == 5 then Ok(SeamlessBreathing)
    else if b == 6 then Ok(ConstantGrb)
    else if b == 7 then Ok(Rave)
    else if b == 8 then Ok(Random)
    else if b == 9 then Ok(Wave)
    else if b == 10 then Ok(SingleBreathing)
    else Err(ValueError)
  }

  /** Every effect decodes from its own value: the enum's values are distinct. */
  lemma DecodeValue(e: Effect)
    ensures DecodeEffect(e.Value() as int) == Ok(e)
  {
  }

  // Byte offsets in the record.
  const MarkerAt: nat := 0x03
  const EffectAt: nat := 0x35
  const SingleRgbAt: nat := 0x39   // three bytes, 0x39..0x3B
  const SingleRgbEnd: nat := 0x3C

  /** The command byte value that marks the record as a write. */
  const WriteCommand: byte := 0x7B

  // ---------------------------------------------------------------------
  // Colour wire order. Callers see 0xRRGGBB; the record stores red, blue,
  // green. Python's `x >> 16` is floor division by 0x10000, which is
  // Dafny's `/` for a positive divisor, and `x & 0xFF` is `Low8(x)`.

  /** The setter's wire bytes: bits 16..23 (red), bits 0..7 (blue), then
      bits 8..15 (green) of the colour. */
  function RgbToWire(rgb: int): (w: seq<byte>)
    ensures |w| == 3
    ensures w[0] as int == (rgb / 0x10000) % 0x100   // red
    ensures w[1] as int == rgb % 0x100               // blue
    ensures w[2] as int == (rgb / 0x100) % 0x100     // green
  {
    [Low8(rgb / 0x10000), Low8(rgb), Low8(rgb / 0x100)]
  }

  /** The getter's colour: wire byte 0 shifted left by 16, or-ed with byte 2
      shifted left by 8 and with byte 1. Each operand is below
      256, so the three shifted bytes occupy disjoint bits and the `|` is a
      sum. */
  function WireToRgb(w: seq<byte>): (rgb: int)
    requires |w| == 3
    ensures 0 <= rgb <= 0xFF_FFFF
    ensures rgb / 0x10000 == w[0] as int && (rgb / 0x100) % 0x100 == w[2] as int && rgb % 0x100 == w[1] as int
  {
    w[0] as int * 0x10000 + w[2] as int * 0x100 + w[1] as int
  }

  /** Dividing a number by 0x100 or 0x10000 splits off its low bits in the
      same way whatever lies above bit 23. */
  lemma {:induction false} ShiftBelow24(x: int, q: int, y: int)
    requires x == q * 0x100_0000 + y && 0 <= y < 0x100_0000
    ensures x / 0x100 == q * 0x1_0000 + y / 0x100
    ensures x / 0x10000 == q * 0x100 + y / 0x10000
    ensures x % 0x100 == y % 0x100
  {
    var z := y / 0x100;
    assert y == z * 0x100 + y % 0x100;
    assert x == (q * 0x1_0000 + z) * 0x100 + y % 0x100;
    var u := y / 0x10000;
    assert y == u * 0x10000 + y % 0x10000;
    assert x == (q * 0x100 + u) * 0x10000 + y % 0x10000;
  }

  /** A 24-bit number is its three bytes, weighted. */
  lemma {:induction false} Bytes24(y: int)
    requires 0 <= y < 0x100_0000
    ensures y / 0x10000 < 0x100
    ensures y == (y / 0x10000) * 0x10000 + ((y / 0x100) % 0x100) * 0x100 + y % 0x100
  {
    var z := y / 0x100;
    assert y == z * 0x100 + y % 0x100;
    assert z == (z / 0x100) * 0x100 + z % 0x100;
    assert z / 0x100 == y / 0x10000;
  }

  /** Reading back a written colour gives its low 24 bits (`rgb & 0xFFFFFF`). */
  lemma {:induction false} WireRoundTrip(rgb: int)
    ensures WireToRgb(RgbToWire(rgb)) == rgb % 0x100_0000
  {
    var q, y := rgb / 0x100_0000, rgb % 0x100_0000;
    ShiftBelow24(rgb, q, y);
    Bytes24(y);
    var w := RgbToWire(rgb);
    assert w[0] as int == (q * 0x100 + y / 0x10000) % 0x100 == y / 0x10000;
    assert w[2] as int == (q * 0x1_0000 + y / 0x100) % 0x100 == (y / 0x100) % 0x100;
    assert w[1] as int == y % 0x100;
  }

  /** Writing a colour read from any wire triplet restores that triplet. */
  lemma RgbRoundTrip(w: seq<byte>)
    requires |w| == 3
    ensures RgbToWire(WireToRgb(w)) == w
  {
  }

  /** The colour the mouse tool sets, and pure red. */
  lemma WireExamples()
    ensures RgbToWire(0x330066) == [0x33, 0x66, 0x00]
    ensures RgbToWire(0xFF0000) == [0xFF, 0x00, 0x00]
    ensures WireToRgb([0x33, 0x66, 0x00]) == 0x330066
  {
  }

  // ---------------------------------------------------------------------
  // The record's fields as functions of its bytes.

  /** The `effect` getter: the byte at 0x35, IndexError on a shorter buffer. */
  function EffectOf(raw: seq<byte>): (r: Result<byte>)
    ensures r.Ok? <==> |raw| > EffectAt
    ensures r.Ok? ==> r.value == raw[EffectAt]
    ensures r.Err? ==> r.error == IndexError
  {
    At(raw, EffectAt)
  }

  /** The `single_rgb` getter: the colour stored red, blue, green at
      0x39..0x3B, always within 24 bits; IndexError unless byte 0x3B exists. */
  function SingleRgbOf(raw: seq<byte>): (r: Result<int>)
    ensures r.Ok? <==> |raw| >= SingleRgbEnd
    ensures r.Ok? ==> 0 <= r.value <= 0xFF_FFFF
    ensures r.Ok? ==> RgbToWire(r.value) == raw[SingleRgbAt..SingleRgbEnd]
    ensures r.Err? ==> r.error == IndexError
  {
    // raw[0x39], raw[0x3B] and raw[0x3A] all raise IndexError alike
    if |raw| < SingleRgbEnd then Err(IndexError)
    else
      var wire := raw[SingleRgbAt..SingleRgbEnd];
      RgbRoundTrip(wire);
      Ok(WireToRgb(wire))
  }

  /** The bytes after a setter, and whether the setter raised. */
  datatype Written = Written(bytes: seq<byte>, outcome: Outcome)

  /** `__mark_changed`: byte 0x03 becomes 0x7B; IndexError on a buffer of
      three bytes or fewer, which is then unchanged. */
  function AfterMark(raw: seq<byte>): (w: Written)
    ensures w.outcome == Done <==> |raw| > MarkerAt
    ensures w.outcome == Done ==>
              |w.bytes| == |raw| && w.bytes[MarkerAt] == WriteCommand
              && forall j | 0 <= j < |raw| && j != MarkerAt :: w.bytes[j] == raw[j]
    ensures w.outcome != Done ==> w == Written(raw, Raised(IndexError))
  {
    match Store(raw, MarkerAt, WriteCommand)
    case Ok(marked) => Written(marked, Done)
    case Err(e) => Written(raw, Raised(e))
  }

  /** The `effect` setter: byte 0x35 becomes the effect's value and the
      record is marked; every other byte and the length stay. A buffer of
      0x35 bytes or fewer raises IndexError and is left unchanged. */
  function AfterSetEffect(raw: seq<byte>, e: Effect): (w: Written)
    ensures w.outcome == Done <==> |raw| > EffectAt
    ensures w.outcome == Done ==>
              |w.bytes| == |raw|
              && w.bytes[EffectAt] == e.Value() && w.bytes[MarkerAt] == WriteCommand
              && forall j | 0 <= j < |raw| && j != EffectAt && j != MarkerAt :: w.bytes[j] == raw[j]
    ensures w.outcome == Done ==> EffectOf(w.bytes) == Ok(e.Value()) && DecodeEffect(EffectOf(w.bytes).value as int) == Ok(e)
    ensures w.outcome != Done ==> w == Written(raw, Raised(IndexError))
  {
    DecodeValue(e);
    match Store(raw, EffectAt, e.Value())
    case Ok(stored) => AfterMark(stored)
    case Err(x) => Written(raw, Raised(x))
  }

  /** The `single_rgb` setter on a buffer holding the whole field (at least
      0x3C bytes): bytes 0x39..0x3B become the colour in red, blue, green
      order, the record is marked, and nothing else changes. */
  function AfterSetSingleRgb(raw: seq<byte>, rgb: int): (w: Written)
    ensures |raw| >= SingleRgbEnd ==>
              w.outcome == Done && |w.bytes| == |raw|
              && w.bytes[SingleRgbAt..SingleRgbEnd] == RgbToWire(rgb)
              && w.bytes[0x39] == Low8(rgb / 0x10000) && w.bytes[0x3A] == Low8(rgb) && w.bytes[0x3B] == Low8(rgb / 0x100)
              && w.bytes[MarkerAt] == WriteCommand
              && forall j | 0 <= j < |raw| && !(SingleRgbAt <= j < SingleRgbEnd) && j != MarkerAt :: w.bytes[j] == raw[j]
    ensures w.outcome == Done <==> |raw| > 0
    ensures |w.bytes| == |raw| <==> |raw| >= SingleRgbEnd
  {
    AfterMark(StoreSlice(raw, SingleRgbAt, SingleRgbEnd, RgbToWire(rgb)))
  }

  /** On a buffer shorter than 0x39 bytes the slice assignment appends the
      three colour bytes at the end instead, so the buffer grows by three. */
  lemma SetSingleRgbAppendsWhenShort(raw: seq<byte>, rgb: int)
    requires |raw| < SingleRgbAt
    ensures AfterSetSingleRgb(raw, rgb) == AfterMark(raw + RgbToWire(rgb))
    ensures |AfterSetSingleRgb(raw, rgb).bytes| == |raw| + 3
  {
  }

  /** Getting the colour after setting `rgb` gives `rgb & 0xFFFFFF` exactly
      when the buffer reached offset 0x39; on a shorter one the getter fails. */
  lemma SingleRgbRoundTrip(raw: seq<byte>, rgb: int)
    ensures SingleRgbOf(AfterSetSingleRgb(raw, rgb).bytes).Ok? <==> |raw| >= SingleRgbAt
    ensures |raw| >= SingleRgbAt ==> SingleRgbOf(AfterSetSingleRgb(raw, rgb).bytes) == Ok(rgb % 0x100_0000)
  {
    if |raw| >= SingleRgbAt {
      var w := AfterSetSingleRgb(raw, rgb).bytes;
      assert w[SingleRgbAt..SingleRgbEnd] == RgbToWire(rgb);
      WireRoundTrip(rgb);
    }
  }

  /** Setting the same effect twice leaves the same bytes as setting it once. */
  lemma SetEffectIdempotent(raw: seq<byte>, e: Effect)
    ensures AfterSetEffect(AfterSetEffect(raw, e).bytes, e) == AfterSetEffect(raw, e)
  {
  }

  /** Setting the same colour twice leaves the same bytes as setting it once,
      once the buffer reaches offset 0x39 (a shorter one grows each time). */
  lemma SetSingleRgbIdempotent(raw: seq<byte>, rgb: int)
    requires |raw| >= SingleRgbAt
    ensures AfterSetSingleRgb(AfterSetSingleRgb(raw, rgb).bytes, rgb) == AfterSetSingleRgb(raw, rgb)
  {
  }

  /** The two setters touch disjoint fields: on a full-length buffer their
      order does not matter, and each leaves the other's getter unchanged. */
  lemma SettersCommute(raw: seq<byte>, e: Effect, rgb: int)
    requires |raw| >= SingleRgbEnd
    ensures AfterSetEffect(AfterSetSingleRgb(raw, rgb).bytes, e).bytes
         == AfterSetSingleRgb(AfterSetEffect(raw, e).bytes, rgb).bytes
    ensures SingleRgbOf(AfterSetEffect(raw, e).bytes) == SingleRgbOf(raw)
    ensures EffectOf(AfterSetSingleRgb(raw, rgb).bytes) == EffectOf(raw)
  {
  }

  /** What `__str__` decodes: the effect (ValueError when the byte at 0x35 is
      not 0..10) and then the colour. */
  datatype Summary = Summary(mode: Effect, singleRgb: int)

  /** `__str__` up to formatting. Python evaluates the effect first, so a
      short buffer or a bad effect byte fails before the colour is read. */
  function Describe(raw: seq<byte>): (r: Result<Summary>)
    ensures r.Ok? <==> |raw| >= SingleRgbEnd && raw[EffectAt] <= 10
    ensures r == Err(ValueError) <==> |raw| > EffectAt && raw[EffectAt] > 10
    ensures r.Ok? ==> r.value.mode.Value() == raw[EffectAt] && Ok(r.value.singleRgb) == SingleRgbOf(raw)
  {
    var b :- EffectOf(raw);
    var mode :- DecodeEffect(b as int);
    var rgb :- SingleRgbOf(raw);
    Ok(Summary(mode, rgb))
  }

  /** `GloriousModelORecord`: owns a private copy of the record bytes. A
      bytearray may change length (slice assignment), so the buffer is a
      sequence that the setters replace. */
  class ModelORecord {
    var raw: seq<byte>

    /** `__init__`: copies the caller's buffer. */
    constructor (data: array<byte>)
      ensures raw == data[..]
    {
      raw := data[..];
    }

    /** `record`: a copy of the current bytes, as an immutable value. */
    function Record(): seq<byte>
      reads this
    {
      raw
    }

    /** `effect` getter. */
    function Effect(): Result<byte>
      reads this
    {
      EffectOf(raw)
    }

    /** `single_rgb` getter. */
    function SingleRgb(): Result<int>
      reads this
    {
      SingleRgbOf(raw)
    }

    /** `__str__`, up to formatting. */
    function Str(): Result<Summary>
      reads this
    {
      Describe(raw)
    }

    /** `__mark_changed`. */
    method MarkChanged() returns (outcome: Outcome)
      modifies this
      ensures Written(raw, outcome) == AfterMark(old(raw))
    {
      if MarkerAt < |raw| {
        raw := raw[MarkerAt := WriteCommand];
        outcome := Done;
      } else {
        outcome := Raised(IndexError);
      }
    }

    /** `effect` setter. */
    method SetEffect(e: Effect) returns (outcome: Outcome)
      modifies this
      ensures Written(raw, outcome) == AfterSetEffect(old(raw), e)
      ensures outcome == Done <==> |old(raw)| > EffectAt
      ensures outcome == Done ==> Effect() == Ok(e.Value()) && |raw| == |old(raw)| && raw[MarkerAt] == WriteCommand
    {
      if EffectAt < |raw| {
        raw := raw[EffectAt := e.Value()];
        outcome := MarkChanged();
      } else {
        outcome := Raised(IndexError);
      }
    }

    /** `single_rgb` setter. */
    method SetSingleRgb(rgb: int) returns (outcome: Outcome)
      modifies this
      ensures Written(raw, outcome) == AfterSetSingleRgb(old(raw), rgb)
      ensures |old(raw)| >= SingleRgbEnd ==>
                outcome == Done && |raw| == |old(raw)| && SingleRgb() == Ok(rgb % 0x100_0000)
                && raw[MarkerAt] == WriteCommand
    {
      raw := StoreSlice(raw, SingleRgbAt, SingleRgbEnd, RgbToWire(rgb));
      outcome := MarkChanged();
      SingleRgbRoundTrip(old(raw), rgb);
    }
  }

  /** The record is a copy: changing the caller's buffer afterwards, or
      reading `record` again, does not change what the record holds. */
  method CallerMutationDoesNotLeak(data: array<byte>, i: nat, v: byte) returns (rec: ModelORecord)
    requires i < data.Length
    modifies data
    ensures rec.Record() == old(data[..])
    ensures data[..] == old(data[..])[i := v]
  {
    rec := new ModelORecord(data);
    var before := rec.Record();
    data[i] := v;
    assert rec.Record() == before;
  }
}
