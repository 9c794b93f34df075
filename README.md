# Glorious Model O record and keyboard command frames, in Dafny

This project models the logic of two small USB HID lighting tools.

- **The Glorious Model O configuration record** (`GloriousModelORecord`). It
  is a typed view over a private bytearray that the mouse sends as a feature
  report. The `effect` property reads and writes the byte at offset 0x35.
  The `single_rgb` property presents a colour as 0xRRGGBB but stores it at
  0x39..0x3B in the device's red, blue, green order. Every setter marks the
  record as a pending write by setting byte 0x03 to 0x7B.
- **The keyboard command frame.** It is the magic `NIC`, one command byte
  (on 0x01, off 0x02, set 0x03, get 0x04, save 0x05), the `--set` argument
  bytes, then zero padding to 64 bytes. Beside it sit the HSV value read back
  from the reply and the search for the first attached device whose four
  identifiers match a known keyboard.
- **The mouse tool's on/off rule.** It is modelled as a client of the record.

Files:

- `py_bytes.dfy` (module `PyBytes`): the Python semantics the code relies on.
  This covers the byte type, indexing and index assignment (IndexError past
  the end) and slice assignment, which clamps its bounds and can change the
  length of a bytearray. It also covers `bytes(list)` (ValueError outside
  0..255) and `x & 0xFF` on Python integers.
- `glorious.dfy` (module `Glorious`): the effect enum and its decoding, and
  the colour wire order with its two round-trip laws. Each getter and setter
  is a function of the record's bytes, with its frame, idempotence and
  independence laws. The class `ModelORecord` owns the buffer as a `seq<byte>`
  field that its setters replace.
- `board.dfy` (module `Board`): the frame builder, the HSV read-back and the
  device search. The search is a nested loop proved against a recursive
  definition of "the first match".
- `mouse_client.dfy` (module `MouseClient`): `--on` and `--off` as methods on
  a record.

Some Python details and how the model handles them:

- Python's `x >> 16` and `x >> 8` are floor division. That is Dafny's `/` for
  a positive divisor.
- `x & 0xFF` is the residue modulo 256, also for negative integers.
- The getter combines three bytes below 256, shifted to disjoint bit ranges.
  Its `|` is therefore written as a sum.
- `GloriousEffect(b)` raises ValueError for a byte outside 0..10.
- An index past the end raises IndexError.
- After a raised exception, the record is left holding whatever Python had
  already written before the exception.

What the code checks, and what it does not:

- The code never checks the buffer length. Each accessor has its own
  threshold:
  - the `effect` getter and setter need more than 0x35 bytes and raise
    IndexError otherwise;
  - the `single_rgb` getter needs at least 0x3C bytes and raises IndexError
    otherwise;
  - the `single_rgb` setter grows any buffer shorter than 0x3C bytes. An
    empty buffer grows to 3 bytes and then raises IndexError while marking.
- An unknown effect byte surfaces only in `__str__`, as Python's ValueError.
- Enum value 6 is named `CONSTANT_GRB`; the model calls it `ConstantGrb`.

## Model

| member | source | states |
|---|---|---|
| `Glorious.DecodeEffect` | hid_glorious.py:20-31 | decoding a byte as an effect succeeds exactly for 0..10 and yields the effect with that value; any other value is ValueError |
| `Glorious.DecodeValue` | hid_glorious.py:20-31 | every effect decodes back from its own value, so the eleven values are distinct |
| `Glorious.RgbToWire` | hid_glorious.py:67 | the setter's three wire bytes of a colour are, in order, its red (bits 16..23), blue (bits 0..7) and green (bits 8..15) components, for any integer; WireRoundTrip and RgbRoundTrip are its inverse laws |
| `Glorious.WireToRgb` | hid_glorious.py:62 | the getter's combination of the stored red, blue, green bytes is a 24-bit colour whose red, green and blue components are exactly those bytes |
| `Glorious.WireRoundTrip` | hid_glorious.py:59-67 | reading back a colour written in wire order gives `rgb & 0xFFFFFF`, for every integer, negative ones included |
| `Glorious.RgbRoundTrip` | hid_glorious.py:59-67 | writing the colour read from any three wire bytes gives back those same bytes |
| `Glorious.WireExamples` | hid_glorious.py:67 | 0x330066 is stored as [0x33, 0x66, 0x00] and 0xFF0000 as [0xFF, 0x00, 0x00], and [0x33, 0x66, 0x00] reads back as 0x330066 |
| `Glorious.EffectOf` | hid_glorious.py:50-52 | the `effect` getter returns exactly the byte at 0x35, and raises IndexError when the buffer is 0x35 bytes or shorter |
| `Glorious.SingleRgbOf` | hid_glorious.py:59-62 | the `single_rgb` getter succeeds exactly when byte 0x3B exists; the result is at most 0xFFFFFF and its wire form is bytes 0x39..0x3B |
| `Glorious.AfterMark` | hid_glorious.py:70-71 | marking sets byte 0x03 to 0x7B and keeps the length and every other byte; a buffer of 3 bytes or fewer raises IndexError and is unchanged |
| `Glorious.AfterSetEffect` | hid_glorious.py:54-57 | the `effect` setter succeeds exactly when byte 0x35 exists; it then sets 0x35 to the effect's value and 0x03 to 0x7B, keeps the length and all other bytes, and the getter then returns and decodes to the effect; otherwise it raises IndexError and nothing changes |
| `Glorious.AfterSetSingleRgb` | hid_glorious.py:64-68 | on a buffer of at least 0x3C bytes, the `single_rgb` setter stores bits 16..23, 0..7 and 8..15 of x (red, blue, green) at 0x39, 0x3A, 0x3B and 0x7B at 0x03, and keeps the length and every other byte; the length is kept exactly when the buffer has at least 0x3C bytes; the setter raises only on an empty buffer |
| `Glorious.SetSingleRgbAppendsWhenShort` | hid_glorious.py:67 | on a buffer shorter than 0x39 bytes, the slice assignment appends the three colour bytes before marking, so the buffer grows by three |
| `Glorious.SingleRgbRoundTrip` | hid_glorious.py:59-68 | after setting x, the getter succeeds exactly when the buffer reached offset 0x39, and it then returns `x & 0xFFFFFF` |
| `Glorious.SetEffectIdempotent` | hid_glorious.py:54-57 | setting the same effect twice leaves the same bytes and outcome as setting it once, for every buffer |
| `Glorious.SetSingleRgbIdempotent` | hid_glorious.py:64-68 | setting the same colour twice leaves the same bytes as setting it once, on any buffer that reaches offset 0x39 |
| `Glorious.SettersCommute` | hid_glorious.py:54-68 | on a buffer of at least 0x3C bytes the two setters commute; setting the effect leaves the colour getter unchanged, and setting the colour leaves the effect getter unchanged |
| `Glorious.Describe` | hid_glorious.py:41-44 | `__str__` decodes successfully exactly when the buffer holds byte 0x3B and the effect byte is 0..10; it raises ValueError exactly when byte 0x35 exists and exceeds 10; it reports the decoded effect and the colour getter's value |
| `Glorious.ModelORecord.constructor` | hid_glorious.py:38-39 | the record holds a copy of the caller's bytes, of the same length |
| `Glorious.ModelORecord.MarkChanged` | hid_glorious.py:70-71 | the new buffer and the outcome are those of AfterMark on the old buffer |
| `Glorious.ModelORecord.SetEffect` | hid_glorious.py:54-57 | the new buffer and the outcome are those of AfterSetEffect; on success the getter returns the effect's value, the length is kept and byte 0x03 is 0x7B |
| `Glorious.ModelORecord.SetSingleRgb` | hid_glorious.py:64-68 | the new buffer and the outcome are those of AfterSetSingleRgb; on a buffer of at least 0x3C bytes the length is kept, the getter then returns `rgb & 0xFFFFFF` and byte 0x03 is 0x7B |
| `Glorious.CallerMutationDoesNotLeak` | hid_glorious.py:38-48 | after the record is built, changing the caller's buffer does not change what `record` returns |
| `PyBytes.StoreSlice` | hid_glorious.py:67 | slice assignment changes the length by the difference between the new bytes and the clamped slice; when the slice is in range and the lengths agree, it replaces exactly that slice and keeps everything else |
| `PyBytes.FromInts` | hid_board.py:102 | `bytes(args)` succeeds exactly when every argument is in 0..255, and then gives the same values in order; otherwise it raises ValueError |
| `Board.Message` | hid_board.py:100-110 | the message is `NIC`, then the command that the if/elif chain selects (set first, then on, off, get, save), then the set arguments in order; it fails with ValueError exactly when a set argument is not a byte |
| `Board.Padded` | hid_board.py:112 | padding keeps the message as a prefix, fills with zeros, and gives 64 bytes, or the message's own length when that is longer |
| `Board.CommandOf` | hid_board.py:101-110 | a command byte is chosen exactly when some option is given; it is the set command exactly when `--set` is given, whatever else is, and it is always one of the five commands 0x01..0x05 |
| `Board.Frame` | hid_board.py:100-112 | the written frame exists exactly when the message does; it keeps the message as a prefix, so it starts with `NIC`; it is 64 bytes, or the message's length when that is longer; byte 3 is the selected command (0 when no option is given); the set arguments sit at indices 4.. in order; every byte after the message is zero |
| `Board.SetFrameNeedsBytes` | hid_board.py:102 | a set frame exists exactly when every argument is in 0..255; otherwise building it raises ValueError |
| `Board.Hsv` | hid_board.py:113-115 | the HSV value shown for get is reply bytes 4, 5 and 6, and IndexError when the reply is shorter than 7 bytes |
| `Board.FirstMatchFrom` | hid_board.py:82-91 | the result is the first device at or after the start whose vendor, product, usage and usage page all match, or none exactly when no such device exists |
| `Board.SelectFrom` | hid_board.py:77-93 | the result is the least (keyboard, device) pair that matches, in table order and then enumeration order, or none exactly when no keyboard has a matching device |
| `Board.SelectedPath` | hid_board.py:90-94 | no path is selected exactly when no enumerated device matches its keyboard; a selected path is the path of some matching device |
| `Board.FindDevicePath` | hid_board.py:76-93 | the nested loop, with its breaks, returns the path of the device that SelectFrom picks, or none |
| `MouseClient.SwitchOn` | hid_mouse.py:58-62 | if the effect is not single colour already, it is set to single colour and the colour to 0x330066, and an update is reported; otherwise nothing changes; afterwards the effect is single colour; a record too short to hold an effect raises IndexError |
| `MouseClient.SwitchOff` | hid_mouse.py:63-66 | if the effect is not off already, it is set to off and an update is reported; otherwise nothing changes; afterwards the effect is off and the length is unchanged |

The class's getters `Record`, `Effect`, `SingleRgb` and `Str` are the
`record`, `effect`, `single_rgb` and `__str__` properties. They return
`raw`, `EffectOf(raw)`, `SingleRgbOf(raw)` and `Describe(raw)`, so their
contracts are the ones listed above. `record` returns an immutable value,
which is the copy the source makes.

`Board.Matches` is the four-way test of hid_board.py:84-89. A device is the
keyboard when its vendor id, product id, usage and usage page all equal the
keyboard's. It is a transparent predicate with no contract of its own;
`FirstMatchFrom`, `SelectFrom` and `FindDevicePath` are stated in terms of it.

## Left out

- All HID transport is left out. This covers `hid.enumerate`, `hid.Device`,
  `write`, `read` with its 200 ms timeout, `send_feature_report` and
  `get_feature_report`. These are foreign library calls and I/O. The
  enumeration is a function parameter of the device search. The reply is a
  parameter of `Hsv`.
- argparse and the command-line dispatch are left out. The parsed command
  line is the `Request` value, and nothing enforces that its options are
  mutually exclusive.
- `print`, the `exit(0)` when no device is found, and the catching of
  `HIDException` are left out. So is the string formatting of `__str__`
  beyond the effect decoding and the colour value.
- `MouseClient.SwitchOn` and `MouseClient.SwitchOff` are stated for every
  record. The mouse tool prints the record (hid_mouse.py:56) before the
  on/off rule runs, and printing calls `__str__`. A record with an effect
  byte above 10 and more than 0x35 bytes therefore raises ValueError
  first. A record of 0x35 bytes or fewer, or one shorter than 0x3C bytes
  whose effect byte is 0..10, raises IndexError first. The tool never
  reaches the rule for such records.
- The device identifier tables (`keyboards_hid_ids`, `model_O_ids`) are
  constant data. They are inputs of the device search. The mouse tool's own
  device search (hid_mouse.py:30-42) uses the same four-way match as
  `Board.Matches`, and is not modelled separately.
- Python's `|` in the colour getter is not modelled bit by bit. The model
  uses the equal sum of the three shifted bytes, which is justified in the
  comment on `Glorious.WireToRgb`.
- The `effect` setter accepts only `Effect` values. Python would take any
  object that has a `.value` attribute, or raise AttributeError for others.
