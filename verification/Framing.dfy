/**
 Length-prefixed messages in gem5/util/protolib.py: base-128 varints as in the
 "Base 128 Varints" section of the Protocol Buffers Encoding specification, and
 the message framing built on them.  Message bodies are opaque payloads.
 */
module Framing {

  import opened Bytes

  const TWO_32: int := 0x1_0000_0000
  const TWO_63: int := 0x8000_0000_0000_0000

  // ---------- encoding ----------

  /** The varint of `value`: seven bits a byte, least significant first, the high bit on all but the last. */
  function Varint(value: nat): (s: seq<Byte>)
    ensures |s| > 0
    ensures forall i :: 0 <= i < |s| - 1 ==> s[i] >= 128
    ensures s[|s| - 1] < 128
  {
    if value < 128 then [value] else [128 + value % 128] + Varint(value / 128)
  }

  /** _EncodeVarint32. */
  method EncodeVarint32(value: nat) returns (out: seq<Byte>)
    ensures out == Varint(value)
  {
    var bits: nat, v: nat := value % 128, value / 128;
    out := [];
    while v != 0
      invariant bits < 128 && out + Remaining(bits, v) == Varint(value)
      decreases v
    {
      VarintStep(out, bits, v);
      out := out + [128 + bits];
      bits, v := v % 128, v / 128;
    }
    out := out + [bits];
  }

  /** What is still to be written when the loop holds the digit `bits` and `v` is left. */
  ghost function Remaining(bits: nat, v: nat): seq<Byte>
    requires bits < 128
  {
    if v == 0 then [bits] else [128 + bits] + Varint(v)
  }

  lemma {:induction false} VarintStep(out: seq<Byte>, bits: nat, v: nat)
    requires bits < 128 && v != 0
    ensures out + Remaining(bits, v) == (out + [128 + bits]) + Remaining(v % 128, v / 128)
  {
    var b: Byte := 128 + bits;
    assert out + ([b] + Varint(v)) == (out + [b]) + Varint(v);
  }

  // ---------- decoding ----------

  datatype Parsed = EndOfFile | TooManyBytes | Value(value: nat, size: nat)

  /** Reads a varint of at most `n` bytes from the front of `s`. */
  function Raw(s: seq<Byte>, n: nat): (p: Parsed)
    requires n > 0
    ensures p.Value? ==> 0 < p.size <= |s|
  {
    if s == [] then EndOfFile
    else if s[0] < 128 then Value(s[0], 1)
    else if n == 1 then TooManyBytes
    else
      var p := Raw(s[1..], n - 1);
      if p.Value? then Value(s[0] - 128 + 128 * p.value, p.size + 1) else p
  }

  /** The 32-bit mask with the sign rule of lines 121-125: `x | ~0xffffffff` is x mod 2^32 - 2^32. */
  function Masked(result: nat): int {
    if result >= TWO_63 then result % TWO_32 - TWO_32 else result % TWO_32
  }

  /** The result agrees with the value modulo 2^32; it is negative exactly from 2^63 on, and read() takes it all. */
  lemma {:induction false} MaskedMeaning(value: nat, s: seq<Byte>)
    ensures (value - Masked(value)) % 0x1_0000_0000 == 0
    ensures value <= 0x7fff_ffff_ffff_ffff ==> 0 <= Masked(value) <= 0xffff_ffff
    ensures value > 0x7fff_ffff_ffff_ffff ==> -0x1_0000_0000 <= Masked(value) < 0 && Taken(s, Masked(value)) == s
  {
    var q, r := value / 0x1_0000_0000, value % 0x1_0000_0000;
    assert value == q * 0x1_0000_0000 + r;
    assert value - Masked(value) == (if value >= TWO_63 then q + 1 else q) * 0x1_0000_0000;
  }

  function Pow128(k: nat): nat {
    if k == 0 then 1 else 128 * Pow128(k - 1)
  }

  lemma {:induction false} DigitFits(r: nat, b: nat, place: nat)
    requires b < 128
    ensures r < place ==> r + b * place < 128 * place
  {
    assert b * place <= 127 * place;
  }

  /** `result | ((b & 0x7f) << 7 * pos)`: the places from 7 * pos up are still free, so the or is a sum. */
  function AddDigit(result: nat, b: Byte, pos: nat): (r: nat)
    ensures result < Pow128(pos) ==> r < Pow128(pos + 1)
  {
    DigitFits(result, b % 128, Pow128(pos));
    result + (b % 128) * Pow128(pos)
  }

  /** A file open for reading. */
  class InFile {
    const data: seq<Byte>
    var pos: nat

    constructor (data: seq<Byte>)
      ensures this.data == data && pos == 0
    {
      this.data, pos := data, 0;
    }

    ghost predicate Valid()
      reads this
    {
      pos <= |data|
    }

    ghost function Rest(): seq<Byte>
      reads this
      requires Valid()
    {
      data[pos..]
    }

    /** read(n): up to `n` bytes, or everything that is left when `n` is negative. */
    method Read(n: int) returns (bytes: seq<Byte>)
      requires Valid()
      modifies this
      ensures Valid() && bytes == Taken(old(Rest()), n) && pos == old(pos) + |bytes|
      ensures Rest() == old(Rest())[|bytes|..]
    {
      var left := |data| - pos;
      var k := if n < 0 || n > left then left else n;
      bytes := data[pos..pos + k];
      pos := pos + k;
    }
  }

  /** What read(n) returns when `s` is left. */
  function Taken(s: seq<Byte>, n: int): (t: seq<Byte>)
    ensures |t| <= |s|
  {
    if n < 0 || n > |s| then s else s[..n]
  }

  /** After `pos` bytes the decoder holds `result`; `q` is what is still to come of `p`. */
  ghost predicate Tracks(p: Parsed, q: Parsed, result: nat, pos: nat) {
    && (q.Value? <==> p.Value?) && (q.TooManyBytes? <==> p.TooManyBytes?)
    && (p.Value? ==> p.value == result + Pow128(pos) * q.value && p.size == pos + q.size)
  }

  /** One more continuation byte. */
  lemma {:induction false} TrackStep(p: Parsed, s: seq<Byte>, n: nat, result: nat, pos: nat)
    requires n > 1 && s != [] && s[0] >= 128 && Tracks(p, Raw(s, n), result, pos)
    ensures Tracks(p, Raw(s[1..], n - 1), AddDigit(result, s[0], pos), pos + 1)
  {
    if p.Value? {
      var v, a := Raw(s[1..], n - 1).value, s[0] - 128;
      Distribute(Pow128(pos), a, v);
    }
  }

  lemma {:induction false} TrackEnd(p: Parsed, s: seq<Byte>, n: nat, result: nat, pos: nat)
    requires n > 0 && s != [] && s[0] < 128 && Tracks(p, Raw(s, n), result, pos)
    ensures p.Value? && p.value == AddDigit(result, s[0], pos) && p.size == pos + 1
  {
  }

  lemma {:induction false} Distribute(x: nat, a: nat, v: nat)
    ensures x * (a + 128 * v) == a * x + 128 * x * v
  {
    assert x * (a + 128 * v) == x * a + x * (128 * v);
    assert x * (128 * v) == 128 * x * v;
  }

  /** The first `pos` bytes have been read and hold the digits of `result`. */
  ghost predicate Reading(bytes: seq<Byte>, result: nat, pos: nat) {
    && pos < 10 && pos <= |bytes| && result < Pow128(pos)
    && Tracks(Raw(bytes, 10), Raw(bytes[pos..], 10 - pos), result, pos)
  }

  /** What the next byte means. */
  lemma {:induction false} ReadingOn(bytes: seq<Byte>, result: nat, pos: nat)
    requires Reading(bytes, result, pos)
    ensures pos == |bytes| ==> Raw(bytes, 10).EndOfFile? && bytes[pos..] == []
    ensures pos < |bytes| ==>
              && bytes[pos..] != [] && bytes[pos..][0] == bytes[pos] && bytes[pos..][1..] == bytes[pos + 1..]
              && (bytes[pos] < 128 ==> Raw(bytes, 10) == Value(AddDigit(result, bytes[pos], pos), pos + 1))
              && (bytes[pos] >= 128 && pos == 9 ==> Raw(bytes, 10).TooManyBytes?)
              && (bytes[pos] >= 128 && pos < 9 ==> Reading(bytes, AddDigit(result, bytes[pos], pos), pos + 1))
  {
    if pos < |bytes| {
      assert bytes[pos..][1..] == bytes[pos + 1..];
      if bytes[pos] < 128 {
        TrackEnd(Raw(bytes, 10), bytes[pos..], 10 - pos, result, pos);
      } else if pos < 9 {
        TrackStep(Raw(bytes, 10), bytes[pos..], 10 - pos, result, pos);
      }
    }
  }

  /** One byte, if there is one (lines 114-117). */
  method ReadByte(f: InFile) returns (some: bool, b: Byte)
    requires f.Valid()
    modifies f
    ensures f.Valid() && (some <==> old(f.Rest()) != [])
    ensures some ==> b == old(f.Rest())[0] && f.Rest() == old(f.Rest())[1..]
    ensures !some ==> f.Rest() == []
  {
    var c := f.Read(1);
    some := |c| > 0;
    b := if some then c[0] else 0;
  }

  /** _DecodeVarint32.  (0, 0) stands for the end of the file; `ok` is false when IOError is raised. */
  method DecodeVarint32(f: InFile) returns (ok: bool, value: int, size: nat)
    requires f.Valid()
    modifies f
    ensures f.Valid()
    ensures var p := Raw(old(f.Rest()), 10);
            && (ok <==> !p.TooManyBytes?)
            && (p.EndOfFile? ==> value == 0 && size == 0 && f.Rest() == [])
            && (p.Value? ==> value == Masked(p.value) && size == p.size && f.Rest() == old(f.Rest())[size..])
  {
    ghost var bytes := f.Rest();
    var result: nat, pos: nat := 0, 0;
    while true
      invariant f.Valid() && pos < 10 && Reading(bytes, result, pos) && f.Rest() == bytes[pos..]
      decreases 10 - pos
    {
      ReadingOn(bytes, result, pos);
      var some, b := ReadByte(f);
      if !some {
        return true, 0, 0;
      }
      if b < 128 {
        return true, Masked(AddDigit(result, b, pos)), pos + 1;
      }
      if pos == 9 {
        return false, 0, 0;
      }
      result := AddDigit(result, b, pos);
      pos := pos + 1;
    }
  }

  // ---------- varints round trip ----------

  /** The decoder reads back the value and consumes exactly the bytes of its encoding, whatever follows. */
  lemma {:induction false} VarintRoundTrip(v: nat, rest: seq<Byte>, n: nat)
    requires n > 0 && v < Pow128(n)
    ensures Raw(Varint(v) + rest, n) == Value(v, |Varint(v)|)
  {
    var s := Varint(v) + rest;
    if v >= 128 {
      assert n > 1 by {
        assert Pow128(1) == 128 * Pow128(0);
      }
      assert Pow128(n) == 128 * Pow128(n - 1);
      VarintRoundTrip(v / 128, rest, n - 1);
      assert s[1..] == Varint(v / 128) + rest;
    }
  }

  lemma {:induction false} FirstByte(v: nat)
    ensures v < 128 ==> Varint(v) == [v]
    ensures v >= 128 ==> Varint(v)[0] == 128 + v % 128 && Varint(v)[1..] == Varint(v / 128)
  {
  }

  /** No encoding is the beginning of another one. */
  lemma {:induction false} PrefixFree(a: nat, b: nat)
    requires Varint(a) <= Varint(b)
    ensures a == b
    decreases a
  {
    FirstByte(a);
    FirstByte(b);
    assert Varint(a)[0] == Varint(b)[0];
    if a >= 128 {
      PrefixFree(a / 128, b / 128);
    }
  }

  lemma {:induction false} Bounds()
    ensures Pow128(10) > TWO_63
  {
    assert Pow128(2) == 0x4000;
    assert Pow128(4) == 0x1000_0000;
    assert Pow128(6) == 0x400_0000_0000;
    assert Pow128(8) == 0x100_0000_0000_0000;
    assert Pow128(10) == 0x40_0000_0000_0000_0000;
  }

  // ---------- messages ----------

  type Payload = seq<Byte>

  function Frame(p: Payload): seq<Byte> {
    Varint(|p|) + p
  }

  function FrameAll(ps: seq<Payload>): seq<Byte> {
    if ps == [] then [] else Frame(ps[0]) + FrameAll(ps[1..])
  }

  datatype Incoming = Stop | Message(payload: Payload, rest: seq<Byte>)

  /** What decodeMessage makes of the rest of a file. */
  function ReadMessage(s: seq<Byte>): (r: Incoming)
    ensures r.Message? ==> |r.rest| < |s|
  {
    var p := Raw(s, 10);
    if !p.Value? || Masked(p.value) == 0 then Stop
    else
      var body := s[p.size..];
      var t := Taken(body, Masked(p.value));
      Message(t, body[|t|..])
  }

  /** The payloads that a loop over decodeMessage yields. */
  function ReadAll(s: seq<Byte>): seq<Payload>
    decreases |s|
  {
    var m := ReadMessage(s);
    if m.Stop? then [] else [m.payload] + ReadAll(m.rest)
  }

  /** encodeMessage, onto the bytes written so far. */
  method EncodeMessage(out: seq<Byte>, payload: Payload) returns (out': seq<Byte>)
    ensures out' == out + Frame(payload)
  {
    var size := EncodeVarint32(|payload|);
    out' := out + size + payload;
    assert out + size + payload == out + (size + payload);
  }

  lemma {:induction false} FrameNext(out: seq<Byte>, ps: seq<Payload>, i: nat)
    requires i < |ps|
    ensures out + FrameAll(ps[i..]) == (out + Frame(ps[i])) + FrameAll(ps[i + 1..])
  {
    assert ps[i..][0] == ps[i] && ps[i..][1..] == ps[i + 1..];
    Associate(out, Frame(ps[i]), FrameAll(ps[i + 1..]));
  }

  lemma {:induction false} Associate(a: seq<Byte>, b: seq<Byte>, c: seq<Byte>)
    ensures a + (b + c) == (a + b) + c
  {
  }

  method EncodeAll(ps: seq<Payload>) returns (out: seq<Byte>)
    ensures out == FrameAll(ps)
  {
    out := [];
    for i := 0 to |ps|
      invariant out + FrameAll(ps[i..]) == FrameAll(ps)
    {
      FrameNext(out, ps, i);
      out := EncodeMessage(out, ps[i]);
    }
  }

  /** decodeMessage: IOError and a size of 0 both end the trace. */
  method DecodeMessage(f: InFile) returns (more: bool, buf: Payload)
    requires f.Valid()
    modifies f
    ensures f.Valid()
    ensures var m := ReadMessage(old(f.Rest()));
            (more <==> m.Message?) && (more ==> buf == m.payload && f.Rest() == m.rest)
  {
    var ok, size, pos := DecodeVarint32(f);
    if !ok || size == 0 {
      return false, [];
    }
    buf := f.Read(size);
    more := true;
  }

  method DecodeAll(f: InFile) returns (ps: seq<Payload>)
    requires f.Valid()
    modifies f
    ensures ps == ReadAll(old(f.Rest()))
  {
    ghost var all := ReadAll(f.Rest());
    var more := true;
    ps := [];
    while more
      invariant f.Valid() && all == if more then ps + ReadAll(f.Rest()) else ps
      decreases more, |f.Rest()|
    {
      ReadAllStep(f.Rest(), ps);
      var buf;
      more, buf := DecodeMessage(f);
      ps := if more then ps + [buf] else ps;
    }
  }

  lemma {:induction false} ReadAllStep(s: seq<Byte>, ps: seq<Payload>)
    ensures var m := ReadMessage(s);
            ps + ReadAll(s) == if m.Stop? then ps else (ps + [m.payload]) + ReadAll(m.rest)
  {
    var m := ReadMessage(s);
    if m.Stop? {
      assert ps + [] == ps;
    } else {
      Reassociate(ps, m.payload, ReadAll(m.rest));
    }
  }

  lemma {:induction false} Reassociate(ps: seq<Payload>, p: Payload, rest: seq<Payload>)
    ensures ps + ([p] + rest) == (ps + [p]) + rest
  {
  }

  ghost predicate Frameable(p: Payload) {
    0 < |p| < TWO_32
  }

  /** What comes back for one framed payload: itself if it can be framed, otherwise something of another length. */
  lemma {:induction false} ReadFrame(p: Payload, rest: seq<Byte>)
    requires |p| < TWO_63
    ensures Frameable(p) ==> ReadMessage(Frame(p) + rest) == Message(p, rest)
    ensures !Frameable(p) ==> var m := ReadMessage(Frame(p) + rest); m.Stop? || |m.payload| != |p|
  {
    var s, v := Frame(p) + rest, Varint(|p|);
    Bounds();
    assert s == v + (p + rest);
    VarintRoundTrip(|p|, p + rest, 10);
    assert s[|v|..] == p + rest;
    MaskedLength(|p|);
    if Frameable(p) {
      assert Taken(p + rest, |p|) == p;
      assert (p + rest)[|p|..] == rest;
    }
  }

  /** Below 2^63 the mask keeps a length exactly when it fits 32 bits. */
  lemma {:induction false} MaskedLength(n: nat)
    requires n < TWO_63
    ensures 0 <= Masked(n) <= n && (Masked(n) == n <==> n < TWO_32)
  {
  }

  /**
   Framed payloads come back exactly when none of them is empty or longer than a 32-bit
   size: an empty one ends the trace early, a longer one is cut.
   */
  lemma {:induction false} FramingRoundTripIff(ps: seq<Payload>)
    requires forall p :: p in ps ==> |p| < TWO_63
    ensures ReadAll(FrameAll(ps)) == ps <==> forall p :: p in ps ==> Frameable(p)
  {
    if ps == [] {
      assert Raw([], 10) == EndOfFile;
    } else {
      var p, rest := ps[0], ps[1..];
      assert ps == [p] + rest;
      FramingRoundTripIff(rest);
      ReadFrame(p, FrameAll(rest));
      if Frameable(p) {
        assert ReadAll(FrameAll(ps)) == [p] + ReadAll(FrameAll(rest));
        assert [p] + ReadAll(FrameAll(rest)) == [p] + rest <==> ReadAll(FrameAll(rest)) == rest by {
          assert ([p] + rest)[1..] == rest && ([p] + ReadAll(FrameAll(rest)))[1..] == ReadAll(FrameAll(rest));
        }
      } else {
        assert p in ps;
        var m := ReadMessage(FrameAll(ps));
        if m.Message? {
          assert ReadAll(FrameAll(ps))[0] == m.payload;
        }
      }
    }
  }
}
