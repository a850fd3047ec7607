/** The reparse buffer of an NT symbolic link, as `symlink` packs it and `read_link` takes it apart
    (crates/platform-windows/src/sys/fileio.rs; section 2.1.2.4 of [MS-FSCC]). */
module Reparse {
  import opened Wrappers
  import opened Endian
  import WinArgv

  type Unit = WinArgv.Unit
  type Wide = seq<Unit>

  const SLASH: Unit := 47
  const COLON: Unit := 58
  const BACKSLASH: Unit := 92

  /** `\??\` and `\??\UNC` */
  const NT_PREFIX: Wide := [92, 63, 63, 92]
  const UNC_PREFIX: Wide := [92, 63, 63, 92, 85, 78, 67]

  const SYMLINK_TAG := 0xA000_000C
  const FLAG_RELATIVE := 1
  const PAYLOAD := 8
  const PATH_BUFFER := 20
  const MAXIMUM := 16384

  // ----- Names -----

  /** `to_wide_nt_component` */
  function Normalised(target: Wide): (r: Wide)
    ensures |r| == |target|
  {
    seq(|target|, i requires 0 <= i < |target| => if target[i] == SLASH then BACKSLASH else target[i])
  }

  /** The wire form of a target: what the file system resolves. */
  datatype WireName = WireName(units: Wide, absolute: bool)

  /** `nt_substitute_name` */
  function SubstituteName(target: Wide): (r: WireName)
    ensures |target| <= |r.units| <= |target| + 6
  {
    if |target| >= 2 && target[1] == COLON then WireName(NT_PREFIX + target, true)
    else if |target| >= 2 && target[0] == BACKSLASH && target[1] == BACKSLASH then WireName(UNC_PREFIX + target[1..], true)
    else WireName(target, false)
  }

  function Spelled(s: string): Wide
    requires forall i :: 0 <= i < |s| ==> s[i] as int < 128
  {
    seq(|s|, i requires 0 <= i < |s| => (s[i] as int) as Unit)
  }

  /** The wire name spelled out: a target with a colon in second place goes after `\??\`, one that
      starts with two backslashes goes on after `\??\UNC\`, and any other is itself. */
  lemma NameSpelled(target: Wide)
    ensures var drive := |target| >= 2 && target[1] as int == ':' as int;
      drive ==> SubstituteName(target) == WireName(Spelled("\\??\\") + target, true)
    ensures var drive := |target| >= 2 && target[1] as int == ':' as int;
      var unc := |target| >= 2 && target[0] as int == target[1] as int == '\\' as int;
      && (!drive && unc ==> SubstituteName(target) == WireName(Spelled("\\??\\UNC\\") + target[2..], true))
      && (!drive && !unc ==> SubstituteName(target) == WireName(target, false))
  {
    assert Spelled("\\??\\") == NT_PREFIX;
    assert Spelled("\\??\\UNC\\") == UNC_PREFIX + [BACKSLASH];
    if |target| >= 2 && target[0] == target[1] == BACKSLASH {
      assert target[1..] == [BACKSLASH] + target[2..];
    }
  }

  /** The target a wire name stands for. */
  function TargetOf(name: WireName): Wide {
    if !name.absolute then name.units
    else if |name.units| >= 6 && name.units[5] == COLON then name.units[4..]
    else if |name.units| >= 7 then [BACKSLASH] + name.units[7..]
    else []
  }

  /** The wire name and its flag determine the target. */
  lemma TargetRecovered(target: Wide)
    ensures TargetOf(SubstituteName(target)) == target
  {
    var units := SubstituteName(target).units;
    if |target| >= 2 && target[1] == COLON {
      assert units[5] == target[1];
      assert units[4..] == target;
    } else if |target| >= 2 && target[0] == BACKSLASH && target[1] == BACKSLASH {
      assert units[5] == UNC_PREFIX[5];
      assert [BACKSLASH] + units[7..] == target;
    }
  }

  // ----- Layout -----

  function UnitBytes(units: Wide): (r: seq<Octet>)
    ensures |r| == 2 * |units|
  {
    if units == [] then [] else UnitBytes(units[..|units| - 1]) + Bytes(units[|units| - 1] as nat, 2)
  }

  /** Eight fields side by side. */
  function Fields(tag: seq<Octet>, len: seq<Octet>, reserved: seq<Octet>, subAt: seq<Octet>, subLen: seq<Octet>,
    printAt: seq<Octet>, printLen: seq<Octet>, flags: seq<Octet>): seq<Octet>
  {
    tag + len + reserved + subAt + subLen + printAt + printLen + flags
  }

  function Header(sub: nat, printed: nat, absolute: bool): (r: seq<Octet>)
    ensures |r| == PATH_BUFFER
  {
    Fields(Bytes(SYMLINK_TAG, 4), Bytes(PATH_BUFFER - PAYLOAD + sub + printed, 2), [0, 0], Bytes(0, 2),
           Bytes(sub, 2), Bytes(sub, 2), Bytes(printed, 2), Bytes(if absolute then 0 else FLAG_RELATIVE, 4))
  }

  function Packed(name: WireName, printed: Wide): (r: seq<Octet>)
    ensures |r| == PATH_BUFFER + 2 * |name.units| + 2 * |printed|
  {
    Header(2 * |name.units|, 2 * |printed|, name.absolute) + UnitBytes(name.units) + UnitBytes(printed)
  }

  function WireNameOf(target: Wide): WireName {
    SubstituteName(Normalised(target))
  }

  /** The 16-bit lengths of the two names hold; otherwise the buffer is allocated too short for
      the units and a slice bound fails. */
  predicate LengthsHold(target: Wide) {
    2 * |WireNameOf(target).units| < 0x1_0000
  }

  /** The packed buffer is one the file system accepts. */
  predicate Fits(target: Wide) {
    PATH_BUFFER + 2 * |WireNameOf(target).units| + 2 * |target| <= MAXIMUM
  }

  // ----- Building in place -----

  /** `buf[at..at + |bytes|].copy_from_slice(bytes)` */
  method Put(buf: array<Octet>, at: nat, bytes: seq<Octet>)
    requires at + |bytes| <= buf.Length
    modifies buf
    ensures buf[..at + |bytes|] == old(buf[..at]) + bytes
    ensures forall i :: at + |bytes| <= i < buf.Length ==> buf[i] == old(buf[i])
  {
    forall i | 0 <= i < |bytes| {
      buf[at + i] := bytes[i];
    }
  }

  method PutTag(buf: array<Octet>)
    requires buf.Length >= PATH_BUFFER && forall i :: 0 <= i < buf.Length ==> buf[i] == 0
    modifies buf
    ensures buf[..PAYLOAD] == Bytes(SYMLINK_TAG, 4) + Bytes(buf.Length - PAYLOAD, 2) + [0, 0]
  {
    Put(buf, 0, Bytes(SYMLINK_TAG, 4));
    Put(buf, 4, Bytes(buf.Length - PAYLOAD, 2));
    assert buf[..6] == Bytes(SYMLINK_TAG, 4) + Bytes(buf.Length - PAYLOAD, 2);
    assert buf[..PAYLOAD] == buf[..6] + [0, 0];
  }

  method PutHeader(buf: array<Octet>, sub: nat, printed: nat, absolute: bool)
    requires buf.Length == PATH_BUFFER + sub + printed
    requires forall i :: 0 <= i < buf.Length ==> buf[i] == 0
    modifies buf
    ensures buf[..PATH_BUFFER] == Header(sub, printed, absolute)
  {
    var p := PAYLOAD;
    PutTag(buf);
    Put(buf, p, Bytes(0, 2));
    Put(buf, p + 2, Bytes(sub, 2));
    Put(buf, p + 4, Bytes(sub, 2));
    Put(buf, p + 6, Bytes(printed, 2));
    Put(buf, p + 8, Bytes(if absolute then 0 else FLAG_RELATIVE, 4));
  }

  /** One of the packing loops; false is the failed slice bound. */
  method PutUnits(buf: array<Octet>, start: nat, units: Wide) returns (ok: bool)
    requires start <= buf.Length
    modifies buf
    ensures ok <==> start + 2 * |units| <= buf.Length
    ensures ok ==> buf[..start + 2 * |units|] == old(buf[..start]) + UnitBytes(units)
  {
    for i := 0 to |units|
      invariant start + 2 * i <= buf.Length
      invariant buf[..start + 2 * i] == old(buf[..start]) + UnitBytes(units[..i])
    {
      var at := start + i * 2;
      if at + 2 > buf.Length {
        return false;
      }
      Put(buf, at, Bytes(units[i] as nat, 2));
      assert units[..i + 1][..i] == units[..i];
    }
    assert units[..|units|] == units;
    ok := true;
  }

  /** `n as u16` */
  function Cut16(n: nat): nat {
    n % 0x1_0000
  }

  /** A substitute name that wraps its length leaves too little room for its own units. */
  lemma WrappedIsShort(sub: nat, printed: nat)
    requires printed <= sub
    ensures sub <= Cut16(sub) + Cut16(printed) <==> sub < 0x1_0000
    ensures sub < 0x1_0000 ==> Cut16(sub) == sub && Cut16(printed) == printed
  {
    assert sub == 0x1_0000 * (sub / 0x1_0000) + sub % 0x1_0000;
  }

  /** Both packing loops, the second one `sub` bytes into the path buffer. */
  method PutNames(buf: array<Octet>, sub: nat, units: Wide, printed: Wide) returns (ok: bool)
    requires PATH_BUFFER + sub <= buf.Length
    requires 2 * |units| <= buf.Length - PATH_BUFFER ==> sub == 2 * |units|
    modifies buf
    ensures ok <==> PATH_BUFFER + 2 * |units| <= buf.Length && PATH_BUFFER + 2 * |units| + 2 * |printed| <= buf.Length
    ensures ok ==> buf[..PATH_BUFFER + 2 * |units| + 2 * |printed|] == old(buf[..PATH_BUFFER]) + UnitBytes(units) + UnitBytes(printed)
  {
    ok := PutUnits(buf, PATH_BUFFER, units);
    if ok {
      ok := PutUnits(buf, PATH_BUFFER + sub, printed);
    }
  }

  method Pack(name: WireName, printed: Wide) returns (r: Option<array<Octet>>)
    requires |printed| <= |name.units|
    ensures r.Some? <==> 2 * |name.units| < 0x1_0000
    ensures r.Some? ==> fresh(r.value) && r.value[..] == Packed(name, printed)
  {
    var sub, len := Cut16(2 * |name.units|), Cut16(2 * |printed|);
    WrappedIsShort(2 * |name.units|, 2 * |printed|);
    var buf := new Octet[PATH_BUFFER + sub + len](_ => 0);
    PutHeader(buf, sub, len, name.absolute);
    var ok := PutNames(buf, sub, name.units, printed);
    if !ok {
      return None;
    }
    WholeIsPrefix(buf);
    r := Some(buf);
  }

  lemma WholeIsPrefix(buf: array<Octet>)
    ensures buf[..] == buf[..buf.Length]
  {
  }

  /** `symlink`, up to the system call: the whole buffer, or a panic exactly when the substitute
      name does not fit its 16-bit length. */
  method BuildBuffer(target: Wide) returns (r: Option<array<Octet>>)
    ensures r.Some? <==> LengthsHold(target)
    ensures r.Some? ==> fresh(r.value) && r.value[..] == Packed(WireNameOf(target), target)
  {
    r := Pack(SubstituteName(Normalised(target)), target);
  }

  // ----- Taking apart -----

  datatype LinkRead = Target(units: Wide) | InvalidInput | SliceOutOfRange

  /** The `u16::from_le_bytes` pairs of `chunks_exact(2)`: a last odd byte is dropped. */
  function Chunks(s: seq<Octet>): Wide {
    if |s| < 2 then [] else [UnitAt(s, 0)] + Chunks(s[2..])
  }

  function UnitAt(s: seq<Octet>, i: nat): Unit
    requires i + 2 <= |s|
  {
    (s[i] as int + 256 * s[i + 1] as int) as Unit
  }

  /** The name at an offset of the path buffer; none if the slice is out of range. */
  function Name(buf: seq<Octet>, offset: nat, length: nat): Option<Wide> {
    var start := PATH_BUFFER + offset;
    if start + length > |buf| then None else Some(Chunks(buf[start..start + length]))
  }

  /** `read_link`, on the buffer and the count the system call returned. */
  function ReadLink(buf: seq<Octet>, returned: nat): LinkRead
    requires |buf| == MAXIMUM
  {
    if returned < 8 then InvalidInput
    else if Read(buf[0..4]) != SYMLINK_TAG then InvalidInput
    else
      match Name(buf, UnitAt(buf, PAYLOAD + 4) as nat, UnitAt(buf, PAYLOAD + 6) as nat)
      case None => SliceOutOfRange
      case Some(units) => Target(units)
  }

  /** What the file system reads: the substitute name and the relative flag. */
  function Resolves(buf: seq<Octet>): Option<WireName>
    requires |buf| >= PATH_BUFFER
  {
    match Name(buf, UnitAt(buf, PAYLOAD) as nat, UnitAt(buf, PAYLOAD + 2) as nat)
    case None => None
    case Some(units) => Some(WireName(units, Read(buf[16..20]) == 0))
  }

  // ----- What is read is what was built -----

  lemma UnitOfBytes(n: nat)
    ensures UnitAt(Bytes(n, 2), 0) as nat == Cut16(n)
  {
    var b := Bytes(n, 2);
    assert Bytes(n / 256, 1) == [(n / 256 % 256) as Octet] + Bytes(n / 256 / 256, 0);
    assert b[0] as nat == n % 256 && b[1] as nat == n / 256 % 256;
    assert n == 0x1_0000 * (n / 256 / 256) + 256 * (n / 256 % 256) + n % 256;
  }

  lemma {:induction false} ChunksAppend(a: seq<Octet>, b: seq<Octet>)
    requires |a| % 2 == 0
    ensures Chunks(a + b) == Chunks(a) + Chunks(b)
    decreases |a|
  {
    if a == [] {
      assert a + b == b;
    } else {
      assert (a + b)[2..] == a[2..] + b;
      ChunksAppend(a[2..], b);
    }
  }

  lemma {:induction false} ChunksOfUnits(units: Wide)
    ensures Chunks(UnitBytes(units)) == units
    decreases |units|
  {
    if units != [] {
      var last := units[|units| - 1];
      var b := Bytes(last as nat, 2);
      ChunksOfUnits(units[..|units| - 1]);
      UnitOfBytes(last as nat);
      ChunksAppend(UnitBytes(units[..|units| - 1]), b);
      assert Chunks(b) == [UnitAt(b, 0)] + Chunks(b[2..]);
    }
  }

  lemma FieldOffsets(tag: seq<Octet>, len: seq<Octet>, reserved: seq<Octet>, subAt: seq<Octet>, subLen: seq<Octet>,
    printAt: seq<Octet>, printLen: seq<Octet>, flags: seq<Octet>, h: seq<Octet>)
    requires |tag| == |flags| == 4
    requires |len| == |reserved| == |subAt| == |subLen| == |printAt| == |printLen| == 2
    requires h == Fields(tag, len, reserved, subAt, subLen, printAt, printLen, flags)
    ensures |h| == PATH_BUFFER && h[0..4] == tag && h[4..6] == len && h[8..10] == subAt && h[10..12] == subLen
    ensures h[12..14] == printAt && h[14..16] == printLen && h[16..20] == flags
  {
  }

  /** Every field of the header, at its offset; a length that is too long is cut to 16 bits. */
  lemma HeaderFields(sub: nat, printed: nat, absolute: bool, buf: seq<Octet>)
    requires |buf| >= PATH_BUFFER && buf[..PATH_BUFFER] == Header(sub, printed, absolute)
    ensures HeaderHolds(buf, sub, printed, absolute)
  {
    var h := buf[..PATH_BUFFER];
    var total, flags := PATH_BUFFER - PAYLOAD + sub + printed, if absolute then 0 else FLAG_RELATIVE;
    FieldOffsets(Bytes(SYMLINK_TAG, 4), Bytes(total, 2), [0, 0], Bytes(0, 2), Bytes(sub, 2), Bytes(sub, 2), Bytes(printed, 2),
                 Bytes(flags, 4), h);
    LowWord(SYMLINK_TAG);
    LowWord(flags);
    Lengths(h, total, sub, printed);
    SamePrefix(buf, h);
  }

  lemma Lengths(h: seq<Octet>, total: nat, sub: nat, printed: nat)
    requires |h| == PATH_BUFFER && h[4..6] == Bytes(total, 2) && h[8..10] == Bytes(0, 2)
    requires h[10..12] == Bytes(sub, 2) && h[12..14] == Bytes(sub, 2) && h[14..16] == Bytes(printed, 2)
    ensures UnitAt(h, 4) as nat == Cut16(total) && UnitAt(h, 8) as nat == 0
    ensures UnitAt(h, 10) as nat == UnitAt(h, 12) as nat == Cut16(sub) && UnitAt(h, 14) as nat == Cut16(printed)
  {
    Field(h, 4, total);
    Field(h, 8, 0);
    Field(h, 10, sub);
    Field(h, 12, sub);
    Field(h, 14, printed);
  }

  lemma SamePrefix(buf: seq<Octet>, h: seq<Octet>)
    requires |h| == PATH_BUFFER <= |buf| && buf[..PATH_BUFFER] == h
    ensures buf[0..4] == h[0..4] && buf[16..20] == h[16..20]
    ensures forall i :: 0 <= i < PATH_BUFFER - 1 ==> UnitAt(buf, i) == UnitAt(h, i)
  {
  }

  lemma Field(h: seq<Octet>, at: nat, n: nat)
    requires at + 2 <= |h| && h[at..at + 2] == Bytes(n, 2)
    ensures UnitAt(h, at) as nat == Cut16(n)
  {
    UnitOfBytes(n);
    assert h[at] == h[at..at + 2][0] && h[at + 1] == h[at..at + 2][1];
  }

  /** What a reader finds in the header. */
  predicate HeaderHolds(b: seq<Octet>, sub: nat, printed: nat, absolute: bool)
    requires |b| >= PATH_BUFFER
  {
    && Read(b[0..4]) == SYMLINK_TAG
    && UnitAt(b, 4) as nat == Cut16(PATH_BUFFER - PAYLOAD + sub + printed)
    && UnitAt(b, PAYLOAD) as nat == 0
    && UnitAt(b, PAYLOAD + 2) as nat == UnitAt(b, PAYLOAD + 4) as nat == Cut16(sub)
    && UnitAt(b, PAYLOAD + 6) as nat == Cut16(printed)
    && Read(b[16..20]) == (if absolute then 0 else FLAG_RELATIVE)
  }

  /** The two names, one after the other from the start of the path buffer. */
  predicate NamesHold(b: seq<Octet>, units: Wide, printed: Wide) {
    Name(b, 0, 2 * |units|) == Some(units) && Name(b, 2 * |units|, 2 * |printed|) == Some(printed)
  }

  lemma Parts(h: seq<Octet>, x: seq<Octet>, y: seq<Octet>, b: seq<Octet>)
    requires |h| + |x| + |y| <= |b| && b[..|h| + |x| + |y|] == h + x + y
    ensures b[..|h|] == h && b[|h|..|h| + |x|] == x && b[|h| + |x|..|h| + |x| + |y|] == y
  {
    var s := h + x + y;
    assert b[..|h|] == s[..|h|] && b[|h|..|h| + |x|] == s[|h|..|h| + |x|] && b[|h| + |x|..|h| + |x| + |y|] == s[|h| + |x|..];
  }

  lemma PackedHolds(name: WireName, printed: Wide, b: seq<Octet>)
    requires |Packed(name, printed)| <= |b| && b[..|Packed(name, printed)|] == Packed(name, printed)
    ensures HeaderHolds(b, 2 * |name.units|, 2 * |printed|, name.absolute) && NamesHold(b, name.units, printed)
  {
    var header := Header(2 * |name.units|, 2 * |printed|, name.absolute);
    NamesAfter(header, UnitBytes(name.units), UnitBytes(printed), name.units, printed, b);
    HeaderFields(2 * |name.units|, 2 * |printed|, name.absolute, b);
  }

  lemma NamesAfter(h: seq<Octet>, x: seq<Octet>, y: seq<Octet>, units: Wide, printed: Wide, b: seq<Octet>)
    requires |h| == PATH_BUFFER && x == UnitBytes(units) && y == UnitBytes(printed)
    requires |h| + |x| + |y| <= |b| && b[..|h| + |x| + |y|] == h + x + y
    ensures NamesHold(b, units, printed) && b[..PATH_BUFFER] == h
  {
    Parts(h, x, y, b);
    NameIs(b, 0, units, x);
    NameIs(b, |x|, printed, y);
  }

  lemma NameIs(b: seq<Octet>, offset: nat, units: Wide, x: seq<Octet>)
    requires x == UnitBytes(units) && PATH_BUFFER + offset + |x| <= |b|
    requires b[PATH_BUFFER + offset..PATH_BUFFER + offset + |x|] == x
    ensures Name(b, offset, |x|) == Some(units)
  {
    ChunksOfUnits(units);
  }

  lemma HeldTarget(b: seq<Octet>, returned: nat, units: Wide, printed: Wide, absolute: bool)
    requires NamesHold(b, units, printed) && |b| == MAXIMUM && returned >= 8
    requires HeaderHolds(b, 2 * |units|, 2 * |printed|, absolute)
    ensures ReadLink(b, returned) == Target(printed)
  {
    NotCut(2 * |units|);
    NotCut(2 * |printed|);
  }

  lemma NotCut(n: nat)
    ensures Cut16(n) == n <==> n < 0x1_0000
  {
  }

  lemma HeldName(b: seq<Octet>, units: Wide, printed: Wide, absolute: bool)
    requires NamesHold(b, units, printed) && 2 * |units| < 0x1_0000
    requires HeaderHolds(b, 2 * |units|, 2 * |printed|, absolute)
    ensures Resolves(b) == Some(WireName(units, absolute))
  {
  }

  /** Reading a link returns the target it was created with, unit for unit and not normalised,
      whatever the rest of the read buffer holds. */
  lemma LinkRoundTrip(target: Wide, buf: seq<Octet>, returned: nat)
    requires Fits(target)
    requires |buf| == MAXIMUM && returned == |Packed(WireNameOf(target), target)|
    requires buf[..returned] == Packed(WireNameOf(target), target)
    ensures ReadLink(buf, returned) == Target(target)
  {
    PackedHolds(WireNameOf(target), target, buf);
    HeldTarget(buf, returned, WireNameOf(target).units, target, WireNameOf(target).absolute);
  }

  /** The file system sees the wire name, and from it and the flag the normalised target. */
  lemma LinkResolves(target: Wide)
    requires LengthsHold(target)
    ensures var resolved := Resolves(Packed(WireNameOf(target), target));
      resolved == Some(WireNameOf(target)) && TargetOf(resolved.value) == Normalised(target)
  {
    var name := WireNameOf(target);
    PackedHoldsItself(name, target);
    HeldName(Packed(name, target), name.units, target, name.absolute);
    TargetRecovered(Normalised(target));
  }

  lemma PackedHoldsItself(name: WireName, printed: Wide)
    ensures NamesHold(Packed(name, printed), name.units, printed)
    ensures HeaderHolds(Packed(name, printed), 2 * |name.units|, 2 * |printed|, name.absolute)
  {
    var b := Packed(name, printed);
    assert b[..|b|] == b;
    PackedHolds(name, printed, b);
  }

  lemma HeldRegions(b: seq<Octet>, sub: nat, printed: nat, absolute: bool)
    requires printed <= sub < 0x1_0000 && |b| == PATH_BUFFER + sub + printed
    requires HeaderHolds(b, sub, printed, absolute)
    ensures UnitAt(b, PAYLOAD) == 0
    ensures UnitAt(b, PAYLOAD + 4) as nat == UnitAt(b, PAYLOAD + 2) as nat
    ensures PATH_BUFFER + UnitAt(b, PAYLOAD + 4) as nat + UnitAt(b, PAYLOAD + 6) as nat == |b|
    ensures UnitAt(b, 4) as nat == |b| - PAYLOAD <==> |b| - PAYLOAD < 0x1_0000
  {
    NotCut(sub);
    NotCut(printed);
    NotCut(|b| - PAYLOAD);
  }

  /** The substitute region starts the path buffer, the print region follows it without a gap and
      ends the buffer. The recorded data length is the real one exactly when it fits 16 bits,
      which it does in every buffer within the file system's maximum. */
  lemma RegionsFill(target: Wide, b: seq<Octet>)
    requires LengthsHold(target) && b == Packed(WireNameOf(target), target)
    ensures UnitAt(b, PAYLOAD) == 0
    ensures UnitAt(b, PAYLOAD + 4) as nat == UnitAt(b, PAYLOAD + 2) as nat
    ensures PATH_BUFFER + UnitAt(b, PAYLOAD + 4) as nat + UnitAt(b, PAYLOAD + 6) as nat == |b|
    ensures UnitAt(b, 4) as nat == |b| - PAYLOAD <==> |b| - PAYLOAD < 0x1_0000
    ensures Fits(target) ==> |b| - PAYLOAD < 0x1_0000
  {
    PackedHoldsItself(WireNameOf(target), target);
    HeldRegions(b, 2 * |WireNameOf(target).units|, 2 * |target|, WireNameOf(target).absolute);
  }

  // ----- Where the lengths wrap -----

  /** `n` times the letter `a`. */
  function Plain(n: nat): Wide {
    seq(n, _ => 97)
  }

  lemma PlainName(n: nat)
    ensures WireNameOf(Plain(n)) == WireName(Plain(n), false)
  {
    assert Normalised(Plain(n)) == Plain(n);
  }

  /** A relative target for which a buffer is built whose data length is recorded as 0. */
  lemma DataLengthWraps(b: seq<Octet>)
    requires b == Packed(WireNameOf(Plain(16381)), Plain(16381))
    ensures LengthsHold(Plain(16381)) && |b| - PAYLOAD == 0x1_0000 && UnitAt(b, 4) == 0
  {
    PlainName(16381);
    PackedHoldsItself(WireName(Plain(16381), false), Plain(16381));
  }

  /** Relative targets for which none is built, from this length on. */
  lemma NameLengthWraps(n: nat)
    ensures LengthsHold(Plain(n)) <==> n < 32768
  {
    PlainName(n);
  }

  // ----- In numbers -----

  lemma HeaderInNumbers(b: seq<Octet>, sub: nat, printed: nat, absolute: bool)
    requires |b| >= PATH_BUFFER && HeaderHolds(b, sub, printed, absolute) && sub < 0x1_0000 && printed < 0x1_0000
    ensures Read(b[0..4]) == 0xA000_000C
    ensures UnitAt(b, 8) == 0 && UnitAt(b, 10) as nat == UnitAt(b, 12) as nat == sub && UnitAt(b, 14) as nat == printed
    ensures Read(b[16..20]) == if absolute then 0 else 1
  {
    NotCut(sub);
    NotCut(printed);
  }

  /** Every field of a built buffer at its offset, as section 2.1.2.4 of [MS-FSCC] lays it out. */
  lemma LayoutInNumbers(target: Wide, name: WireName, b: seq<Octet>)
    requires LengthsHold(target) && name == WireNameOf(target) && b == Packed(name, target)
    ensures Read(b[0..4]) == 0xA000_000C && b[6] == 0 && b[7] == 0
    ensures UnitAt(b, 8) == 0 && UnitAt(b, 10) as nat == UnitAt(b, 12) as nat == 2 * |name.units|
    ensures UnitAt(b, 14) as nat == 2 * |target|
    ensures Read(b[16..20]) == if name.absolute then 0 else 1
    ensures |b| == 20 + 2 * |name.units| + 2 * |target|
  {
    PackedHoldsItself(name, target);
    HeaderInNumbers(b, 2 * |name.units|, 2 * |target|, name.absolute);
    ReservedIsZero(name, target, b);
  }

  lemma ReservedIsZero(name: WireName, printed: Wide, b: seq<Octet>)
    requires b == Packed(name, printed)
    ensures b[6] == 0 && b[7] == 0
  {
    var h := Header(2 * |name.units|, 2 * |printed|, name.absolute);
    assert b[6] == h[6] && b[7] == h[7];
  }

  /** What `read_link` refuses, and where its slice fails. */
  lemma ReadLinkRefuses(buf: seq<Octet>, returned: nat)
    requires |buf| == 16384
    ensures ReadLink(buf, returned) == InvalidInput <==> returned < 8 || Read(buf[0..4]) != 0xA000_000C
    ensures ReadLink(buf, returned) == SliceOutOfRange <==>
      returned >= 8 && Read(buf[0..4]) == 0xA000_000C && 20 + UnitAt(buf, 12) as nat + UnitAt(buf, 14) as nat > 16384
  {
  }
}
