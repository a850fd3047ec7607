/** Base64 decoding with a 32-bit accumulator that overflows silently
    (`b64_decode`, crates/platform-linux/src/sys/trust_anchors.rs), against the bit stream that
    section 4 of RFC 4648 describes. */
module Base64 {
  import opened Wrappers
  import opened Endian

  // ----- Characters -----

  const PAD: Octet := 61

  /** ASCII whitespace: tab, line feed, form feed, carriage return, space. */
  predicate IsSpace(c: Octet) {
    c == 9 || c == 10 || c == 12 || c == 13 || c == 32
  }

  function Sextet(c: Octet): (r: Option<nat>)
    ensures r.Some? ==> r.value < 64
  {
    if 65 <= c <= 90 then Some(c as nat - 65)
    else if 97 <= c <= 122 then Some(c as nat - 97 + 26)
    else if 48 <= c <= 57 then Some(c as nat - 48 + 52)
    else if c == 43 then Some(62)
    else if c == 47 then Some(63)
    else None
  }

  /** The alphabet of section 4 of RFC 4648. */
  function Symbol(v: nat): Octet
    requires v < 64
  {
    if v < 26 then (v + 65) as Octet
    else if v < 52 then (v - 26 + 97) as Octet
    else if v < 62 then (v - 52 + 48) as Octet
    else if v == 62 then 43
    else 47
  }

  // ----- The bit stream -----

  /** The six-bit values of a text: whitespace skipped, up to the first pad; `None` if another
      character comes first. */
  function Sextets(s: seq<Octet>): (r: Option<seq<nat>>)
    ensures r.Some? ==> forall i :: 0 <= i < |r.value| ==> r.value[i] < 64
  {
    if s == [] || s[0] == PAD then Some([])
    else if IsSpace(s[0]) then Sextets(s[1..])
    else
      match Sextet(s[0])
      case None => None
      case Some(v) =>
        match Sextets(s[1..])
        case None => None
        case Some(rest) => Some([v] + rest)
  }

  /** Bit `i` of `n`, counted from the least significant. */
  predicate Bit(n: nat, i: nat)
    decreases i, n
  {
    if i == 0 then n % 2 == 1 else Bit(n / 2, i - 1)
  }

  /** The low `width` bits of `n`, most significant first. */
  function ToBits(n: nat, width: nat): (b: seq<bool>)
    ensures |b| == width
  {
    seq(width, i requires 0 <= i < width => Bit(n, width - 1 - i))
  }

  function FromBits(b: seq<bool>): nat {
    if b == [] then 0 else 2 * FromBits(b[..|b| - 1]) + if b[|b| - 1] then 1 else 0
  }

  /** The values of `width` bits each, as one stream. */
  function Stream(vs: seq<nat>, width: nat): seq<bool> {
    if vs == [] then [] else Stream(vs[..|vs| - 1], width) + ToBits(vs[|vs| - 1], width)
  }

  function Values(bytes: seq<Octet>): seq<nat> {
    seq(|bytes|, i requires 0 <= i < |bytes| => bytes[i] as nat)
  }

  function ByteOf(b: seq<bool>): Octet
    requires |b| == 8
  {
    FromBitsBound(b);
    assert Pow2(8) == 256;
    FromBits(b) as Octet
  }

  /** The complete octets of a stream; at most seven bits are left over. */
  function Pack(b: seq<bool>): seq<Octet>
    decreases |b|
  {
    if |b| < 8 then [] else [ByteOf(b[..8])] + Pack(b[8..])
  }

  /** The decoder without a bound on its accumulator. */
  function Decode(input: seq<Octet>): Option<seq<Octet>> {
    match Sextets(input)
    case None => None
    case Some(vs) => Some(Pack(Stream(vs, 6)))
  }

  function Pow2(n: nat): (p: nat)
    ensures p > 0
  {
    if n == 0 then 1 else 2 * Pow2(n - 1)
  }

  // ----- Facts about bits -----

  lemma {:induction false} FromBitsBound(b: seq<bool>)
    ensures FromBits(b) < Pow2(|b|)
  {
    if b != [] {
      FromBitsBound(b[..|b| - 1]);
    }
  }

  lemma {:induction false} FromToBits(n: nat, width: nat)
    requires n < Pow2(width)
    ensures FromBits(ToBits(n, width)) == n
  {
    if width > 0 {
      FromToBits(n / 2, width - 1);
      assert ToBits(n, width)[width - 1] == Bit(n, 0);
      var front, half := ToBits(n, width)[..width - 1], ToBits(n / 2, width - 1);
      forall i | 0 <= i < width - 1
        ensures front[i] == half[i]
      {
        assert Bit(n, width - 1 - i) == Bit(n / 2, width - 2 - i);
      }
      assert front == half;
    }
  }

  lemma JoinHalf(hi: nat, p: nat, lo: nat)
    ensures (hi * (2 * p) + lo) / 2 == hi * p + lo / 2
    ensures (hi * (2 * p) + lo) % 2 == lo % 2
  {
    var q := hi * p;
    assert hi * (2 * p) == 2 * q;
  }

  lemma {:induction false} BitOfJoin(hi: nat, lo: nat, b: nat, i: nat)
    requires lo < Pow2(b)
    ensures Bit(hi * Pow2(b) + lo, i) == if i < b then Bit(lo, i) else Bit(hi, i - b)
    decreases b, i
  {
    if b > 0 {
      JoinHalf(hi, Pow2(b - 1), lo);
      if i > 0 {
        BitOfJoin(hi, lo / 2, b - 1, i - 1);
      }
    }
  }

  /** Bits concatenate as numbers do. */
  lemma JoinBits(hi: nat, lo: nat, a: nat, b: nat)
    requires lo < Pow2(b)
    ensures ToBits(hi * Pow2(b) + lo, a + b) == ToBits(hi, a) + ToBits(lo, b)
  {
    forall i | 0 <= i < a + b
      ensures ToBits(hi * Pow2(b) + lo, a + b)[i] == (ToBits(hi, a) + ToBits(lo, b))[i]
    {
      BitOfJoin(hi, lo, b, a + b - 1 - i);
    }
  }

  lemma BitsAssoc(a: seq<bool>, b: seq<bool>, c: seq<bool>)
    ensures a + b + c == a + (b + c)
  {
  }

  lemma StreamSnoc(vs: seq<nat>, v: nat, width: nat)
    ensures Stream(vs + [v], width) == Stream(vs, width) + ToBits(v, width)
  {
    assert (vs + [v])[..|vs|] == vs;
  }

  lemma {:induction false} StreamAppend(a: seq<nat>, b: seq<nat>, width: nat)
    ensures Stream(a + b, width) == Stream(a, width) + Stream(b, width)
  {
    if b == [] {
      assert a + b == a;
    } else {
      var b', v := b[..|b| - 1], b[|b| - 1];
      StreamAppend(a, b', width);
      StreamSnoc(a + b', v, width);
      assert a + b == a + b' + [v];
      BitsAssoc(Stream(a, width), Stream(b', width), ToBits(v, width));
    }
  }

  lemma StreamOne(v: nat, width: nat)
    ensures Stream([v], width) == ToBits(v, width)
  {
    StreamSnoc([], v, width);
    assert [] + [v] == [v];
  }

  lemma ByteOfBits(v: Octet, rest: seq<bool>)
    ensures var b := ToBits(v as nat, 8) + rest;
      ByteOf(b[..8]) == v && b[8..] == rest
  {
    var b := ToBits(v as nat, 8) + rest;
    assert b[..8] == ToBits(v as nat, 8) && b[8..] == rest;
    assert Pow2(8) == 256;
    FromToBits(v as nat, 8);
  }

  lemma StreamHead(out: seq<Octet>)
    requires out != []
    ensures Stream(Values(out), 8) == ToBits(out[0] as nat, 8) + Stream(Values(out[1..]), 8)
  {
    assert Values(out) == [out[0] as nat] + Values(out[1..]);
    StreamAppend([out[0] as nat], Values(out[1..]), 8);
    StreamOne(out[0] as nat, 8);
  }

  /** A stream of whole octets and at most seven further bits packs to those octets. */
  lemma {:induction false} PackUnique(out: seq<Octet>, rest: seq<bool>)
    requires |rest| < 8
    ensures Pack(Stream(Values(out), 8) + rest) == out
  {
    if out != [] {
      var v, out' := out[0], out[1..];
      StreamHead(out);
      BitsAssoc(ToBits(v as nat, 8), Stream(Values(out'), 8), rest);
      ByteOfBits(v, Stream(Values(out'), 8) + rest);
      PackUnique(out', rest);
    } else {
      assert Stream(Values(out), 8) + rest == rest;
    }
  }

  // ----- The accumulator -----

  const U32 := 0x1_0000_0000

  /** `(acc << 6) | v` on 32 bits: what is shifted out at the top is lost. */
  function Shifted(acc: nat, v: nat): (r: nat)
    requires acc < U32 && v < 64
    ensures r < U32
  {
    acc * 64 % U32 + v
  }

  /** The only counts that occur: at most 12 bits are pending, and after an octet is emitted at
      most 6. */
  type BitCount = n: nat | n == 0 || n == 2 || n == 4 || n == 6 || n == 8 || n == 10 || n == 12

  /** The low bits of `n`. */
  function Low(n: nat, bits: BitCount): nat {
    if bits == 0 then 0
    else if bits == 2 then n % 4
    else if bits == 4 then n % 16
    else if bits == 6 then n % 64
    else if bits == 8 then n % 256
    else if bits == 10 then n % 1024
    else n % 4096
  }

  /** `n >> bits`. */
  function ShiftRight(n: nat, bits: BitCount): nat
    requires bits <= 4
  {
    if bits == 0 then n else if bits == 2 then n / 4 else n / 16
  }

  lemma ShiftedLow(acc: nat, v: nat)
    requires acc < U32 && v < 64
    ensures Shifted(acc, v) == acc % 0x400_0000 * 64 + v
  {
    var top, low := acc / 0x400_0000, acc % 0x400_0000;
    assert acc * 64 == U32 * top + 64 * low;
  }

  lemma Survive0(low: nat, v: nat)
    requires v < 64
    ensures (low * 64 + v) % 64 == v
  {
  }

  lemma Rem4(n: nat, q: nat, r: nat)
    requires n == 4 * q + r && r < 4
    ensures n % 4 == r
  {
  }

  lemma Rem16(n: nat, q: nat, r: nat)
    requires n == 16 * q + r && r < 16
    ensures n % 16 == r
  {
  }

  lemma Rem64(n: nat, q: nat, r: nat)
    requires n == 64 * q + r && r < 64
    ensures n % 64 == r
  {
  }

  lemma Rem256(n: nat, q: nat, r: nat)
    requires n == 256 * q + r && r < 256
    ensures n % 256 == r
  {
  }

  lemma Rem1024(n: nat, q: nat, r: nat)
    requires n == 1024 * q + r && r < 1024
    ensures n % 1024 == r
  {
  }

  lemma Rem4096(n: nat, q: nat, r: nat)
    requires n == 4096 * q + r && r < 4096
    ensures n % 4096 == r
  {
  }

  lemma Survive2(acc: nat, v: nat)
    requires v < 64
    ensures (acc % 0x400_0000 * 64 + v) % 256 == acc % 4 * 64 + v
  {
    var top, low := acc / 0x400_0000, acc % 0x400_0000;
    var x, y := low / 4, low % 4;
    Rem4(acc, 0x100_0000 * top + x, y);
    Rem256(low * 64 + v, x, y * 64 + v);
  }

  lemma Survive4(acc: nat, v: nat)
    requires v < 64
    ensures (acc % 0x400_0000 * 64 + v) % 1024 == acc % 16 * 64 + v
  {
    var top, low := acc / 0x400_0000, acc % 0x400_0000;
    var x, y := low / 16, low % 16;
    Rem16(acc, 0x40_0000 * top + x, y);
    Rem1024(low * 64 + v, x, y * 64 + v);
  }

  lemma Survive6(acc: nat, v: nat)
    requires v < 64
    ensures (acc % 0x400_0000 * 64 + v) % 4096 == acc % 64 * 64 + v
  {
    var top, low := acc / 0x400_0000, acc % 0x400_0000;
    var x, y := low / 64, low % 64;
    Rem64(acc, 0x10_0000 * top + x, y);
    Rem4096(low * 64 + v, x, y * 64 + v);
  }

  /** The low bits, which are all that is ever emitted, are as if nothing were lost. */
  lemma LowBitsSurvive(acc: nat, v: nat, bits: BitCount)
    requires acc < U32 && v < 64 && bits <= 6
    ensures Low(Shifted(acc, v), bits + 6) == Low(acc, bits) * 64 + v
  {
    ShiftedLow(acc, v);
    if bits == 0 {
      Survive0(acc % 0x400_0000, v);
    } else if bits == 2 {
      Survive2(acc, v);
    } else if bits == 4 {
      Survive4(acc, v);
    } else {
      Survive6(acc, v);
    }
  }

  lemma Cut2(acc: nat)
    ensures acc % 1024 == acc / 4 % 256 * 4 + acc % 4
  {
    assert acc == 1024 * (acc / 4 / 256) + (acc / 4 % 256 * 4 + acc % 4);
  }

  lemma Cut4(acc: nat)
    ensures acc % 4096 == acc / 16 % 256 * 16 + acc % 16
  {
    assert acc == 4096 * (acc / 16 / 256) + (acc / 16 % 256 * 16 + acc % 16);
  }

  /** Taking eight bits off the top of `keep + 8` leaves `keep`. */
  lemma EmitBits(acc: nat, keep: BitCount)
    requires keep <= 4
    ensures ToBits(Low(acc, keep + 8), keep + 8) == ToBits(ShiftRight(acc, keep) % 256, 8) + ToBits(Low(acc, keep), keep)
  {
    assert Pow2(0) == 1 && Pow2(2) == 4;
    assert Pow2(4) == 16;
    JoinBits(ShiftRight(acc, keep) % 256, Low(acc, keep), 8, keep);
    if keep == 2 {
      Cut2(acc);
    } else if keep == 4 {
      Cut4(acc);
    }
  }

  /** What the loop knows: the stream read so far is the octets written so far and the low
      `bits` bits of the accumulator. */
  ghost predicate Pending(vs: seq<nat>, out: seq<Octet>, acc: nat, bits: BitCount) {
    && acc < U32 && bits <= 6
    && Stream(vs, 6) == Stream(Values(out), 8) + ToBits(Low(acc, bits), bits)
  }

  lemma ShiftedBits(acc: nat, v: nat, bits: BitCount)
    requires acc < U32 && v < 64 && bits <= 6
    ensures ToBits(Low(Shifted(acc, v), bits + 6), bits + 6) == ToBits(Low(acc, bits), bits) + ToBits(v, 6)
  {
    assert Pow2(6) == 64;
    JoinBits(Low(acc, bits), v, bits, 6);
    LowBitsSurvive(acc, v, bits);
  }

  lemma TakeSextet(vs: seq<nat>, out: seq<Octet>, acc: nat, bits: BitCount, v: nat)
    requires Pending(vs, out, acc, bits) && v < 64
    ensures Stream(vs + [v], 6) == Stream(Values(out), 8) + ToBits(Low(Shifted(acc, v), bits + 6), bits + 6)
  {
    StreamSnoc(vs, v, 6);
    ShiftedBits(acc, v, bits);
    BitsAssoc(Stream(Values(out), 8), ToBits(Low(acc, bits), bits), ToBits(v, 6));
  }

  lemma EmitOctet(out: seq<Octet>, acc: nat, keep: BitCount)
    requires keep <= 4
    ensures Stream(Values(out), 8) + ToBits(Low(acc, keep + 8), keep + 8) ==
      Stream(Values(out + [(ShiftRight(acc, keep) % 256) as Octet]), 8) + ToBits(Low(acc, keep), keep)
  {
    var b := ShiftRight(acc, keep) % 256;
    EmitBits(acc, keep);
    assert Values(out + [b as Octet]) == Values(out) + [b];
    StreamSnoc(Values(out), b, 8);
    BitsAssoc(Stream(Values(out), 8), ToBits(b, 8), ToBits(Low(acc, keep), keep));
  }

  /** `vs` has been read from `input[..i]`, and the rest is still to be read. */
  ghost predicate ReadUpTo(input: seq<Octet>, i: nat, vs: seq<nat>) {
    && i <= |input|
    && match Sextets(input[i..])
       case None => Sextets(input) == None
       case Some(ws) => Sextets(input) == Some(vs + ws)
  }

  lemma ReadNothing(input: seq<Octet>)
    ensures ReadUpTo(input, 0, [])
  {
    assert input[0..] == input;
    assert Sextets(input).Some? ==> [] + Sextets(input).value == Sextets(input).value;
  }

  lemma ReadPad(input: seq<Octet>, i: nat, vs: seq<nat>)
    requires ReadUpTo(input, i, vs) && i < |input| && input[i] == PAD
    ensures Sextets(input) == Some(vs)
  {
    assert input[i..][0] == PAD && vs + [] == vs;
  }

  lemma ReadSpace(input: seq<Octet>, i: nat, vs: seq<nat>)
    requires ReadUpTo(input, i, vs) && i < |input| && input[i] != PAD && IsSpace(input[i])
    ensures ReadUpTo(input, i + 1, vs)
  {
    assert input[i..][0] == input[i] && input[i..][1..] == input[i + 1..];
  }

  lemma ReadForeign(input: seq<Octet>, i: nat, vs: seq<nat>)
    requires ReadUpTo(input, i, vs) && i < |input| && Foreign(input[i])
    ensures Sextets(input) == None
  {
    assert input[i..][0] == input[i];
  }

  lemma ReadSymbol(input: seq<Octet>, i: nat, vs: seq<nat>)
    requires ReadUpTo(input, i, vs) && i < |input|
    requires input[i] != PAD && !IsSpace(input[i]) && Sextet(input[i]).Some?
    ensures ReadUpTo(input, i + 1, vs + [Sextet(input[i]).value])
  {
    var v := Sextet(input[i]).value;
    assert input[i..][0] == input[i] && input[i..][1..] == input[i + 1..];
    if Sextets(input[i + 1..]).Some? {
      assert vs + ([v] + Sextets(input[i + 1..]).value) == vs + [v] + Sextets(input[i + 1..]).value;
    }
  }

  lemma ReadAll(input: seq<Octet>, vs: seq<nat>)
    requires ReadUpTo(input, |input|, vs)
    ensures Sextets(input) == Some(vs)
  {
    assert input[|input|..] == [] && vs + [] == vs;
  }

  /** `b64_decode`: the wrapping accumulator emits what the unbounded decoder emits, on every
      input. */
  method B64Decode(input: seq<Octet>) returns (r: Option<seq<Octet>>)
    ensures r == Decode(input)
  {
    var out: seq<Octet> := [];
    var acc: nat, bits: BitCount := 0, 0;
    ghost var vs: seq<nat> := [];
    ReadNothing(input);
    assert Stream(Values(out), 8) == [];
    for i := 0 to |input|
      invariant Pending(vs, out, acc, bits)
      invariant ReadUpTo(input, i, vs)
    {
      var c := input[i];
      if c == PAD {
        ReadPad(input, i, vs);
        PackUnique(out, ToBits(Low(acc, bits), bits));
        return Some(out);
      }
      if IsSpace(c) {
        ReadSpace(input, i, vs);
        continue;
      }
      var v := Sextet(c);
      if v.None? {
        ReadForeign(input, i, vs);
        return None;
      }
      ReadSymbol(input, i, vs);
      TakeSextet(vs, out, acc, bits, v.value);
      acc := Shifted(acc, v.value);
      bits := bits + 6;
      vs := vs + [v.value];
      if bits >= 8 {
        bits := bits - 8;
        EmitOctet(out, acc, bits);
        out := out + [(ShiftRight(acc, bits) % 256) as Octet];
      }
    }
    ReadAll(input, vs);
    PackUnique(out, ToBits(Low(acc, bits), bits));
    r := Some(out);
  }

  // ----- What is refused -----

  /** Tab, line feed, form feed, carriage return and space. */
  const WHITESPACE: set<Octet> := {9, 10, 12, 13, 32}

  /** Neither a letter nor a digit, nor `+`, `/`, `=` or whitespace. */
  predicate Foreign(c: Octet) {
    !(65 <= c <= 90) && !(97 <= c <= 122) && !(48 <= c <= 57) && c != 43 && c != 47 && c != 61 && c !in WHITESPACE
  }

  /** Whitespace counts for nothing, wherever it stands. */
  lemma {:induction false} SpaceSkipped(a: seq<Octet>, c: Octet, b: seq<Octet>)
    requires c in WHITESPACE
    ensures Decode(a + [c] + b) == Decode(a + b)
  {
    SpaceSkippedIn(a, c, b);
  }

  lemma {:induction false} SpaceSkippedIn(a: seq<Octet>, c: Octet, b: seq<Octet>)
    requires c in WHITESPACE
    ensures Sextets(a + [c] + b) == Sextets(a + b)
    decreases |a|
  {
    var long, short := a + [c] + b, a + b;
    if a == [] {
      assert long[1..] == b && short == b;
    } else {
      assert long[1..] == a[1..] + [c] + b && short[1..] == a[1..] + b;
      SpaceSkippedIn(a[1..], c, b);
    }
  }

  /** Decoding fails exactly if a character outside the alphabet comes before the first pad. */
  lemma {:induction false} RefusedExactly(s: seq<Octet>)
    ensures Decode(s).None? <==> exists i :: 0 <= i < |s| && Foreign(s[i]) && PAD !in s[..i]
  {
    if s != [] && s[0] != PAD && !Foreign(s[0]) {
      RefusedExactly(s[1..]);
      if i :| 0 <= i < |s[1..]| && Foreign(s[1..][i]) && PAD !in s[1..][..i] {
        assert Foreign(s[i + 1]) && s[..i + 1] == [s[0]] + s[1..][..i];
      }
      if i :| 0 <= i < |s| && Foreign(s[i]) && PAD !in s[..i] {
        assert i > 0 && Foreign(s[1..][i - 1]);
        assert forall j :: 0 <= j < i - 1 ==> s[1..][j] == s[..i][j + 1];
      }
    } else if s != [] && Foreign(s[0]) {
      assert s[..0] == [];
    }
  }

  // ----- The encoding -----

  /** Section 4 of RFC 4648: 24-bit groups, the last one padded. */
  function Encode(b: seq<Octet>): seq<Octet> {
    if b == [] then []
    else if |b| == 1 then
      [Symbol(b[0] as nat / 4), Symbol(b[0] as nat % 4 * 16), PAD, PAD]
    else if |b| == 2 then
      [Symbol(b[0] as nat / 4), Symbol(b[0] as nat % 4 * 16 + b[1] as nat / 16), Symbol(b[1] as nat % 16 * 4), PAD]
    else
      var x, y, z := b[0] as nat, b[1] as nat, b[2] as nat;
      Symbols(x / 4, x % 4 * 16 + y / 16, y % 16 * 4 + z / 64, z % 64) + Encode(b[3..])
  }

  function Symbols(p: nat, q: nat, r: nat, t: nat): seq<Octet>
    requires p < 64 && q < 64 && r < 64 && t < 64
  {
    [Symbol(p), Symbol(q), Symbol(r), Symbol(t)]
  }

  function Strip(s: seq<Octet>): seq<Octet> {
    if s == [] then [] else (if s[0] in WHITESPACE then [] else [s[0]]) + Strip(s[1..])
  }

  lemma {:induction false} StripKeepsSextets(s: seq<Octet>)
    ensures Sextets(Strip(s)) == Sextets(s)
  {
    if s != [] {
      StripKeepsSextets(s[1..]);
      if s[0] in WHITESPACE {
        assert Strip(s) == Strip(s[1..]);
      } else {
        assert Strip(s)[0] == s[0] && Strip(s)[1..] == Strip(s[1..]);
      }
    }
  }

  /** The alphabet is `A` to `Z`, `a` to `z`, `0` to `9`, `+` and `/`, in this order. */
  lemma SymbolSpelled(v: nat)
    requires v < 64
    ensures v < 26 ==> Symbol(v) as int == 'A' as int + v
    ensures 26 <= v < 52 ==> Symbol(v) as int == 'a' as int + (v - 26)
    ensures 52 <= v < 62 ==> Symbol(v) as int == '0' as int + (v - 52)
    ensures v == 62 ==> Symbol(v) as int == '+' as int
    ensures v == 63 ==> Symbol(v) as int == '/' as int
  {
  }

  lemma SymbolSextet(v: nat)
    requires v < 64
    ensures Sextet(Symbol(v)) == Some(v) && Symbol(v) != PAD && !IsSpace(Symbol(v))
  {
  }

  lemma SextetsCons(v: nat, rest: seq<Octet>)
    requires v < 64 && Sextets(rest).Some?
    ensures Sextets([Symbol(v)] + rest) == Some([v] + Sextets(rest).value)
  {
    SymbolSextet(v);
    assert ([Symbol(v)] + rest)[1..] == rest;
  }

  lemma Join62(hi: nat, lo: nat)
    requires lo < 4
    ensures ToBits(hi * 4 + lo, 8) == ToBits(hi, 6) + ToBits(lo, 2)
  {
    assert Pow2(2) == 4;
    JoinBits(hi, lo, 6, 2);
  }

  lemma Join44(hi: nat, lo: nat)
    requires lo < 16
    ensures ToBits(hi * 16 + lo, 8) == ToBits(hi, 4) + ToBits(lo, 4)
  {
    assert Pow2(4) == 16;
    JoinBits(hi, lo, 4, 4);
  }

  lemma Join26(hi: nat, lo: nat, n: nat)
    requires lo < 64 && n == hi * 64 + lo
    ensures ToBits(hi, 2) + ToBits(lo, 6) == ToBits(n, 8)
  {
    assert Pow2(6) == 64;
    JoinBits(hi, lo, 2, 6);
  }

  lemma Join24(hi: nat, lo: nat)
    requires lo < 16
    ensures ToBits(hi * 16 + lo, 6) == ToBits(hi, 2) + ToBits(lo, 4)
  {
    assert Pow2(4) == 16;
    JoinBits(hi, lo, 2, 4);
  }

  lemma Join42(hi: nat, lo: nat)
    requires lo < 4
    ensures ToBits(hi * 4 + lo, 6) == ToBits(hi, 4) + ToBits(lo, 2)
  {
    assert Pow2(2) == 4;
    JoinBits(hi, lo, 4, 2);
  }

  /** Across the first border of a group, between an octet `x` and the high half `y1` of the next
      one: twelve bits, cut either way. */
  lemma Border1(x1: nat, x2: nat, y1: nat, x: nat, q: nat)
    requires x2 < 4 && y1 < 16 && x == x1 * 4 + x2 && q == x2 * 16 + y1
    ensures ToBits(x1, 6) + ToBits(q, 6) == ToBits(x, 8) + ToBits(y1, 4)
  {
    Join62(x1, x2);
    Join24(x2, y1);
    BitsAssoc(ToBits(x1, 6), ToBits(x2, 2), ToBits(y1, 4));
  }

  lemma Border2(y1: nat, y2: nat, z1: nat, y: nat, r: nat)
    requires y2 < 16 && z1 < 4 && y == y1 * 16 + y2 && r == y2 * 4 + z1
    ensures ToBits(y1, 4) + ToBits(r, 6) == ToBits(y, 8) + ToBits(z1, 2)
  {
    Join44(y1, y2);
    Join42(y2, z1);
    BitsAssoc(ToBits(y1, 4), ToBits(y2, 4), ToBits(z1, 2));
  }

  lemma Chain(p: seq<bool>, q: seq<bool>, r: seq<bool>, t: seq<bool>, x: seq<bool>, y: seq<bool>, z: seq<bool>,
    y1: seq<bool>, z1: seq<bool>)
    requires p + q == x + y1 && y1 + r == y + z1 && z1 + t == z
    ensures p + q + r + t == x + y + z
  {
    BitsAssoc(x, y1, r);
    BitsAssoc(x, y, z1);
    BitsAssoc(x + y, z1, t);
  }

  /** Three octets and four six-bit values are the same 24 bits. */
  lemma GroupBits(x1: nat, x2: nat, y1: nat, y2: nat, z1: nat, z2: nat, x: nat, y: nat, z: nat, q: nat, r: nat)
    requires x2 < 4 && y1 < 16 && y2 < 16 && z1 < 4 && z2 < 64
    requires x == x1 * 4 + x2 && y == y1 * 16 + y2 && z == z1 * 64 + z2
    requires q == x2 * 16 + y1 && r == y2 * 4 + z1
    ensures ToBits(x1, 6) + ToBits(q, 6) + ToBits(r, 6) + ToBits(z2, 6) == ToBits(x, 8) + ToBits(y, 8) + ToBits(z, 8)
  {
    Border1(x1, x2, y1, x, q);
    Border2(y1, y2, z1, y, r);
    Join26(z1, z2, z);
    Chain(ToBits(x1, 6), ToBits(q, 6), ToBits(r, 6), ToBits(z2, 6), ToBits(x, 8), ToBits(y, 8), ToBits(z, 8), ToBits(y1, 4), ToBits(z1, 2));
  }

  lemma TwoBits(x1: nat, x2: nat, y1: nat, y2: nat, x: nat, y: nat, q: nat, r: nat)
    requires x2 < 4 && y1 < 16 && y2 < 16
    requires x == x1 * 4 + x2 && y == y1 * 16 + y2 && q == x2 * 16 + y1 && r == y2 * 4
    ensures ToBits(x1, 6) + ToBits(q, 6) + ToBits(r, 6) == ToBits(x, 8) + ToBits(y, 8) + ToBits(0, 2)
  {
    Border1(x1, x2, y1, x, q);
    Border2(y1, y2, 0, y, r);
    BitsAssoc(ToBits(x, 8), ToBits(y1, 4), ToBits(r, 6));
    BitsAssoc(ToBits(x, 8), ToBits(y, 8), ToBits(0, 2));
  }

  lemma StreamCons(v: nat, vs: seq<nat>, width: nat)
    ensures Stream([v] + vs, width) == ToBits(v, width) + Stream(vs, width)
  {
    StreamAppend([v], vs, width);
    StreamOne(v, width);
  }

  lemma Assoc4(a: seq<bool>, b: seq<bool>, c: seq<bool>, d: seq<bool>)
    ensures a + (b + (c + d)) == a + b + c + d
  {
  }

  lemma Assoc5(a: seq<bool>, b: seq<bool>, c: seq<bool>, d: seq<bool>, e: seq<bool>)
    ensures a + (b + (c + (d + e))) == a + b + c + d + e
  {
  }

  lemma Stream4(p: nat, q: nat, r: nat, t: nat, vs: seq<nat>)
    ensures Stream([p] + ([q] + ([r] + ([t] + vs))), 6) == ToBits(p, 6) + ToBits(q, 6) + ToBits(r, 6) + ToBits(t, 6) + Stream(vs, 6)
  {
    StreamCons(t, vs, 6);
    StreamCons(r, [t] + vs, 6);
    StreamCons(q, [r] + ([t] + vs), 6);
    StreamCons(p, [q] + ([r] + ([t] + vs)), 6);
    Assoc5(ToBits(p, 6), ToBits(q, 6), ToBits(r, 6), ToBits(t, 6), Stream(vs, 6));
  }

  lemma Stream8(b: seq<Octet>)
    requires |b| >= 3
    ensures Stream(Values(b), 8) == ToBits(b[0] as nat, 8) + ToBits(b[1] as nat, 8) + ToBits(b[2] as nat, 8) + Stream(Values(b[3..]), 8)
  {
    StreamHead(b);
    StreamHead(b[1..]);
    StreamHead(b[2..]);
    assert b[1..][1..] == b[2..] && b[2..][1..] == b[3..];
    Assoc4(ToBits(b[0] as nat, 8), ToBits(b[1] as nat, 8), ToBits(b[2] as nat, 8), Stream(Values(b[3..]), 8));
  }

  lemma GroupSextets(p: nat, q: nat, r: nat, t: nat, rest: seq<Octet>)
    requires p < 64 && q < 64 && r < 64 && t < 64 && Sextets(rest).Some?
    ensures Sextets(Symbols(p, q, r, t) + rest) == Some([p] + ([q] + ([r] + ([t] + Sextets(rest).value))))
  {
    SextetsCons(t, rest);
    SextetsCons(r, [Symbol(t)] + rest);
    SextetsCons(q, [Symbol(r)] + ([Symbol(t)] + rest));
    SextetsCons(p, [Symbol(q)] + ([Symbol(r)] + ([Symbol(t)] + rest)));
    assert Symbols(p, q, r, t) + rest == [Symbol(p)] + ([Symbol(q)] + ([Symbol(r)] + ([Symbol(t)] + rest)));
  }

  /** The stream of the encoding is that of the octets and fewer than eight padding bits. */
  lemma {:induction false} EncodeStream(b: seq<Octet>) returns (vs: seq<nat>, rest: seq<bool>)
    ensures Sextets(Encode(b)) == Some(vs)
    ensures Stream(vs, 6) == Stream(Values(b), 8) + rest && |rest| < 8
  {
    if b == [] {
      vs, rest := [], [];
    } else if |b| == 1 {
      vs, rest := EncodeOne(b[0]);
      assert b == [b[0]];
    } else if |b| == 2 {
      vs, rest := EncodeTwo(b[0], b[1]);
      assert b == [b[0], b[1]];
    } else {
      var ws;
      ws, rest := EncodeStream(b[3..]);
      var x1, x2, y1, y2, z1, z2 := ThreeCuts(b);
      vs := EncodeCuts(b, x1, x2, y1, y2, z1, z2, Encode(b[3..]), ws, rest);
    }
  }

  /** How the encoding cuts three octets, without the divisions. */
  lemma ThreeCuts(b: seq<Octet>) returns (x1: nat, x2: nat, y1: nat, y2: nat, z1: nat, z2: nat)
    requires |b| >= 3
    ensures x1 < 64 && x2 < 4 && y1 < 16 && y2 < 16 && z1 < 4 && z2 < 64
    ensures b[0] as nat == x1 * 4 + x2 && b[1] as nat == y1 * 16 + y2 && b[2] as nat == z1 * 64 + z2
    ensures Encode(b) == Symbols(x1, x2 * 16 + y1, y2 * 4 + z1, z2) + Encode(b[3..])
  {
    var x, y, z := b[0] as nat, b[1] as nat, b[2] as nat;
    x1, x2, y1, y2, z1, z2 := x / 4, x % 4, y / 16, y % 16, z / 64, z % 64;
  }

  lemma EncodeGroup(b: seq<Octet>, p: nat, q: nat, r: nat, t: nat, text: seq<Octet>, ws: seq<nat>, rest: seq<bool>) returns (vs: seq<nat>)
    requires |b| >= 3 && p < 64 && q < 64 && r < 64 && t < 64
    requires ToBits(p, 6) + ToBits(q, 6) + ToBits(r, 6) + ToBits(t, 6)
      == ToBits(b[0] as nat, 8) + ToBits(b[1] as nat, 8) + ToBits(b[2] as nat, 8)
    requires Sextets(text) == Some(ws) && Stream(ws, 6) == Stream(Values(b[3..]), 8) + rest
    ensures Sextets(Symbols(p, q, r, t) + text) == Some(vs)
    ensures Stream(vs, 6) == Stream(Values(b), 8) + rest
  {
    GroupSextets(p, q, r, t, text);
    vs := [p] + ([q] + ([r] + ([t] + ws)));
    Stream4(p, q, r, t, ws);
    Stream8(b);
    BitsAssoc(ToBits(b[0] as nat, 8) + ToBits(b[1] as nat, 8) + ToBits(b[2] as nat, 8), Stream(Values(b[3..]), 8), rest);
  }

  lemma EncodeCuts(b: seq<Octet>, x1: nat, x2: nat, y1: nat, y2: nat, z1: nat, z2: nat, text: seq<Octet>, ws: seq<nat>, rest: seq<bool>)
    returns (vs: seq<nat>)
    requires |b| >= 3 && x1 < 64 && x2 < 4 && y1 < 16 && y2 < 16 && z1 < 4 && z2 < 64
    requires b[0] as nat == x1 * 4 + x2 && b[1] as nat == y1 * 16 + y2 && b[2] as nat == z1 * 64 + z2
    requires Sextets(text) == Some(ws) && Stream(ws, 6) == Stream(Values(b[3..]), 8) + rest
    ensures Sextets(Symbols(x1, x2 * 16 + y1, y2 * 4 + z1, z2) + text) == Some(vs)
    ensures Stream(vs, 6) == Stream(Values(b), 8) + rest
  {
    var q, r := x2 * 16 + y1, y2 * 4 + z1;
    GroupBits(x1, x2, y1, y2, z1, z2, b[0] as nat, b[1] as nat, b[2] as nat, q, r);
    vs := EncodeGroup(b, x1, q, r, z2, text, ws, rest);
  }

  /** The last group: two or three values, whose spare low bits are zero. */
  lemma EncodeTail(x: seq<Octet>, p: nat, q: nat, symbols: seq<Octet>, ws: seq<nat>, rest: seq<bool>) returns (vs: seq<nat>)
    requires p < 64 && q < 64 && Sextets(symbols) == Some(ws)
    requires ToBits(p, 6) + ToBits(q, 6) + Stream(ws, 6) == Stream(Values(x), 8) + rest
    ensures Sextets([Symbol(p)] + ([Symbol(q)] + symbols)) == Some(vs)
    ensures Stream(vs, 6) == Stream(Values(x), 8) + rest
  {
    SextetsCons(q, symbols);
    SextetsCons(p, [Symbol(q)] + symbols);
    vs := [p] + ([q] + ws);
    StreamCons(q, ws, 6);
    StreamCons(p, [q] + ws, 6);
    BitsAssoc(ToBits(p, 6), ToBits(q, 6), Stream(ws, 6));
  }

  lemma OneParts(x: Octet) returns (p: nat, q: nat)
    ensures p < 64 && q < 64 && Encode([x]) == [Symbol(p)] + ([Symbol(q)] + [PAD, PAD])
    ensures ToBits(p, 6) + ToBits(q, 6) == ToBits(x as nat, 8) + ToBits(0, 4)
  {
    var n := x as nat;
    p, q := n / 4, n % 4 * 16;
    Border1(p, n % 4, 0, n, q);
  }

  lemma EncodeOne(x: Octet) returns (vs: seq<nat>, rest: seq<bool>)
    ensures Sextets(Encode([x])) == Some(vs)
    ensures Stream(vs, 6) == Stream(Values([x]), 8) + rest && |rest| < 8
  {
    var p, q := OneParts(x);
    rest := ToBits(0, 4);
    assert Values([x]) == [x as nat] && Stream([], 6) == [];
    StreamOne(x as nat, 8);
    vs := EncodeTail([x], p, q, [PAD, PAD], [], rest);
  }

  lemma TwoCuts(x: Octet, y: Octet) returns (x1: nat, x2: nat, y1: nat, y2: nat)
    ensures x1 < 64 && x2 < 4 && y1 < 16 && y2 < 16
    ensures x as nat == x1 * 4 + x2 && y as nat == y1 * 16 + y2
    ensures Encode([x, y]) == [Symbol(x1)] + ([Symbol(x2 * 16 + y1)] + ([Symbol(y2 * 4)] + [PAD]))
  {
    var m, n := x as nat, y as nat;
    x1, x2, y1, y2 := m / 4, m % 4, n / 16, n % 16;
  }

  lemma TwoParts(x: Octet, y: Octet) returns (p: nat, q: nat, r: nat)
    ensures p < 64 && q < 64 && r < 64
    ensures Encode([x, y]) == [Symbol(p)] + ([Symbol(q)] + ([Symbol(r)] + [PAD]))
    ensures ToBits(p, 6) + ToBits(q, 6) + ToBits(r, 6) == ToBits(x as nat, 8) + ToBits(y as nat, 8) + ToBits(0, 2)
  {
    var x1, x2, y1, y2 := TwoCuts(x, y);
    p, q, r := x1, x2 * 16 + y1, y2 * 4;
    TwoBits(x1, x2, y1, y2, x as nat, y as nat, q, r);
  }

  lemma EncodeTwo(x: Octet, y: Octet) returns (vs: seq<nat>, rest: seq<bool>)
    ensures Sextets(Encode([x, y])) == Some(vs)
    ensures Stream(vs, 6) == Stream(Values([x, y]), 8) + rest && |rest| < 8
  {
    var p, q, r := TwoParts(x, y);
    rest := ToBits(0, 2);
    assert Values([x, y]) == [x as nat] + [y as nat];
    StreamCons(x as nat, [y as nat], 8);
    StreamOne(y as nat, 8);
    StreamOne(r, 6);
    SextetsCons(r, [PAD]);
    assert [r] + [] == [r];
    vs := EncodeTail([x, y], p, q, [Symbol(r)] + [PAD], [r], rest);
  }

  /** Decoding the encoding of any octets, with whitespace put in anywhere, gives them back. */
  lemma RoundTrip(b: seq<Octet>, text: seq<Octet>)
    requires Strip(text) == Encode(b)
    ensures Decode(text) == Some(b)
  {
    StripKeepsSextets(text);
    var vs, rest := EncodeStream(b);
    PackUnique(b, rest);
  }
}
