/** The keyboard side: the command frame sent to the keyboard (the magic
    `NIC`, one command byte, the argument bytes, zero padding to 64 bytes),
    the HSV value read back from the reply, and the search for the first
    attached device that matches one of the known keyboards. */
module Board {
  import opened PyBytes

  /** `b'NIC'`. */
  const Magic: seq<byte> := [0x4E, 0x49, 0x43]

  // The command bytes.
  const HncOn: byte := 0x01
  const HncOff: byte := 0x02
  const HncSet: byte := 0x03
  const HncGet: byte := 0x04
  const HncSave: byte := 0x05

  /** Frames shorter than this are padded with zero bytes up to it. */
  const FrameSize: nat := 64

  /** The parsed command line: `--set` carries its integers, the others
      are flags. */
  datatype Request = Request(setArgs: Option<seq<int>>, on: bool, off: bool, get: bool, save: bool)

  /** The command byte the if/elif chain picks: `--set` first, then
      `--on`, `--off`, `--get`, `--save`; none when no option is given. */
  function CommandOf(q: Request): (c: Option<byte>)
    ensures c.Some? <==> q.setArgs.Some? || q.on || q.off || q.get || q.save
    ensures c == Some(HncSet) <==> q.setArgs.Some?
    ensures c.Some? ==> HncOn <= c.value <= HncSave
  {
    if q.setArgs.Some? then Some(HncSet)
    else if q.on then Some(HncOn)
    else if q.off then Some(HncOff)
    else if q.get then Some(HncGet)
    else if q.save then Some(HncSave)
    else None
  }

  /** The message before padding. Converting the `--set` integers to bytes
      raises ValueError when one lies outside 0..255. */
  function Message(q: Request): (r: Result<seq<byte>>)
    ensures r.Ok? <==> (q.setArgs.Some? ==> forall i | 0 <= i < |q.setArgs.value| :: 0 <= q.setArgs.value[i] < 0x100)
    ensures r.Err? ==> r.error == ValueError
    ensures r.Ok? ==> |r.value| == 3 + (if CommandOf(q).Some? then 1 else 0) + (if q.setArgs.Some? then |q.setArgs.value| else 0)
    ensures r.Ok? ==> r.value[..3] == Magic
    ensures r.Ok? && CommandOf(q).Some? ==> r.value[3] == CommandOf(q).value
    ensures r.Ok? && q.setArgs.Some? ==> forall i | 0 <= i < |q.setArgs.value| :: r.value[4 + i] as int == q.setArgs.value[i]
  {
    match q.setArgs
    case Some(xs) =>
      var args :- FromInts(xs);
      Ok(Magic + [HncSet] + args)
    case None =>
      match CommandOf(q)
      case Some(c) => Ok(Magic + [c])
      case None => Ok(Magic)
  }

  /** n zero bytes; none when n is zero or negative. */
  function Zeros(n: int): (z: seq<byte>)
    ensures |z| == if n <= 0 then 0 else n
    ensures forall i | 0 <= i < |z| :: z[i] == 0
  {
    if n <= 0 then [] else seq(n, _ => 0)
  }

  /** The message, then zeros up to 64 bytes; Python repeats a byte string
      a negative number of times as the empty string, so a message of 64
      bytes or more is sent as it is. */
  function Padded(msg: seq<byte>): (f: seq<byte>)
    ensures |f| == if |msg| <= FrameSize then FrameSize else |msg|
    ensures f[..|msg|] == msg
    ensures forall i | |msg| <= i < |f| :: f[i] == 0
  {
    msg + Zeros(FrameSize - |msg|)
  }

  /** The bytes written to the keyboard. Every frame starts with `NIC` and
      is at least 64 bytes long, exactly 64 whenever magic, command and
      arguments fit in 64. Byte 3 is the selected command (with no option at
      all it is padding, so zero), the `--set` arguments follow it in order,
      and everything after the message is zero. */
  function Frame(q: Request): (r: Result<seq<byte>>)
    ensures r.Ok? <==> Message(q).Ok?
    ensures r.Ok? ==> |r.value| == if |Message(q).value| <= FrameSize then FrameSize else |Message(q).value|
    ensures r.Ok? ==> r.value[..|Message(q).value|] == Message(q).value
    ensures r.Ok? ==> r.value[..3] == Magic && |r.value| >= FrameSize
    ensures r.Ok? && CommandOf(q).Some? ==> r.value[3] == CommandOf(q).value
    ensures r.Ok? && CommandOf(q).None? ==> r.value[3] == 0
    ensures r.Ok? && q.setArgs.Some? ==>
              forall i | 0 <= i < |q.setArgs.value| :: r.value[4 + i] as int == q.setArgs.value[i]
    ensures r.Ok? ==> forall i | |Message(q).value| <= i < |r.value| :: r.value[i] == 0
  {
    var msg :- Message(q);
    Ok(Padded(msg))
  }

  /** A `--set` frame exists exactly when every argument is a byte value;
      otherwise building it raises ValueError. */
  lemma SetFrameNeedsBytes(xs: seq<int>, on: bool, off: bool, get: bool, save: bool)
    ensures Frame(Request(Some(xs), on, off, get, save)).Ok? <==> forall i | 0 <= i < |xs| :: 0 <= xs[i] < 0x100
    ensures Frame(Request(Some(xs), on, off, get, save)).Err? ==> Frame(Request(Some(xs), on, off, get, save)).error == ValueError
  {
  }

  /** The HSV value printed for `--get`: reply bytes 4, 5 and 6; IndexError
      when the reply is shorter (a read that timed out is empty). */
  function Hsv(reply: seq<byte>): (r: Result<(byte, byte, byte)>)
    ensures r.Ok? <==> |reply| >= 7
    ensures r.Ok? ==> r.value == (reply[4], reply[5], reply[6])
    ensures r.Err? ==> r.error == IndexError
  {
    var h :- At(reply, 4);
    var s :- At(reply, 5);
    var v :- At(reply, 6);
    Ok((h, s, v))
  }

  // ---------------------------------------------------------------------
  // Device selection.

  /** The identifiers of one known keyboard. */
  datatype KeyboardIds = KeyboardIds(vid: int, pid: int, usagePage: int, usageId: int)

  /** One entry of the enumeration: the fields the search compares, and
      the path it returns. */
  datatype Device = Device(vendorId: int, productId: int, usage: int, usagePage: int, path: seq<byte>)

  /** `hid.enumerate(vid, pid)`: the attached devices, in the order the
      platform lists them. */
  type Enumerator = (int, int) -> seq<Device>

  /** A device is the keyboard when all four identifiers agree. */
  predicate Matches(d: Device, k: KeyboardIds) {
    d.vendorId == k.vid && d.productId == k.pid && d.usage == k.usageId && d.usagePage == k.usagePage
  }

  /** The devices enumerated for the i-th keyboard. */
  function Candidates(keyboards: seq<KeyboardIds>, enumerate: Enumerator, i: nat): (r: seq<Device>)
    requires i < |keyboards|
  {
    enumerate(keyboards[i].vid, keyboards[i].pid)
  }

  /** Device j of keyboard i's enumeration matches keyboard i. */
  predicate MatchAt(keyboards: seq<KeyboardIds>, enumerate: Enumerator, i: nat, j: nat) {
    i < |keyboards| && j < |Candidates(keyboards, enumerate, i)|
    && Matches(Candidates(keyboards, enumerate, i)[j], keyboards[i])
  }

  /** The first matching device of one enumeration at position j or later. */
  function FirstMatchFrom(devices: seq<Device>, k: KeyboardIds, j: nat): (r: Option<nat>)
    decreases |devices| - j
    ensures r.None? <==> forall m | j <= m < |devices| :: !Matches(devices[m], k)
    ensures r.Some? ==> j <= r.value < |devices| && Matches(devices[r.value], k)
                        && forall m | j <= m < r.value :: !Matches(devices[m], k)
  {
    if j >= |devices| then None
    else if Matches(devices[j], k) then Some(j)
    else FirstMatchFrom(devices, k, j + 1)
  }

  /** The first keyboard, from the i-th on, with a matching device, and that
      device: the least (keyboard, device) pair in table order, then
      enumeration order. */
  function SelectFrom(keyboards: seq<KeyboardIds>, enumerate: Enumerator, i: nat): (r: Option<(nat, nat)>)
    decreases |keyboards| - i
    ensures r.None? <==> forall a: nat, b: nat | i <= a :: !MatchAt(keyboards, enumerate, a, b)
    ensures r.Some? ==> i <= r.value.0 && MatchAt(keyboards, enumerate, r.value.0, r.value.1)
    ensures r.Some? ==> forall a: nat, b: nat | i <= a && MatchAt(keyboards, enumerate, a, b) ::
                          r.value.0 < a || (r.value.0 == a && r.value.1 <= b)
  {
    if i >= |keyboards| then None
    else
      match FirstMatchFrom(Candidates(keyboards, enumerate, i), keyboards[i], 0)
      case Some(j) =>
        assert MatchAt(keyboards, enumerate, i, j);
        Some((i, j))
      case None => SelectFrom(keyboards, enumerate, i + 1)
  }

  /** The path the script opens, or None when no known keyboard is attached. */
  function SelectedPath(keyboards: seq<KeyboardIds>, enumerate: Enumerator): (r: Option<seq<byte>>)
    ensures r.None? <==> forall a: nat, b: nat :: !MatchAt(keyboards, enumerate, a, b)
    ensures r.Some? ==> exists a: nat, b: nat :: MatchAt(keyboards, enumerate, a, b) && Candidates(keyboards, enumerate, a)[b].path == r.value
  {
    match SelectFrom(keyboards, enumerate, 0)
    case Some((i, j)) => Some(Candidates(keyboards, enumerate, i)[j].path)
    case None => None
  }

  /** The nested search loop: each keyboard in table order, each of its
      enumerated devices in order, stopping at the first match. */
  method FindDevicePath(keyboards: seq<KeyboardIds>, enumerate: Enumerator) returns (path: Option<seq<byte>>)
    ensures path == SelectedPath(keyboards, enumerate)
  {
    path := None;
    var i := 0;
    while i < |keyboards|
      invariant 0 <= i <= |keyboards|
      invariant path == None
      invariant SelectFrom(keyboards, enumerate, 0) == SelectFrom(keyboards, enumerate, i)
    {
      var keys := keyboards[i];
      var devices := enumerate(keys.vid, keys.pid);
      var j := 0;
      while j < |devices|
        invariant 0 <= j <= |devices|
        invariant path == None
        invariant FirstMatchFrom(devices, keys, 0) == FirstMatchFrom(devices, keys, j)
      {
        var device := devices[j];
        if device.vendorId == keys.vid && device.productId == keys.pid
           && device.usage == keys.usageId && device.usagePage == keys.usagePage
        {
          path := Some(device.path);
          break;
        }
        j := j + 1;
      }
      if path.Some? {
        return;
      }
      i := i + 1;
    }
  }
}
