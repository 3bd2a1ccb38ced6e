/** Messages in a file, each preceded by its length as a varint. */
module Framing {
  import opened Arith
  import opened Words

  type Byte = x: int | 0 <= x < 256

  // ----- the encoding

  /** Groups of seven bits, least significant first; all but the last have the top bit set. */
  function Varint(v: nat): (s: seq<Byte>)
    ensures |s| >= 1
  {
    if v < 128 then [v] else [128 + v % 128] + Varint(v / 128)
  }

  /** `n` groups are enough exactly for numbers of 7n bits. */
  lemma {:induction false} VarintLength(v: nat, n: nat)
    requires n >= 1
    ensures |Varint(v)| <= n <==> v < Pow2(7 * n)
    decreases n
  {
    hide Pow2;
    Seven();
    Pow2Add(7, 7 * (n - 1));
    assert 7 + 7 * (n - 1) == 7 * n;
    if v < 128 {
      MulAtLeast(Pow2(7 * (n - 1)), 128);
    } else if n > 1 {
      VarintLength(v / 128, n - 1);
      assert v / 128 < Pow2(7 * (n - 1)) <==> v < 128 * Pow2(7 * (n - 1));
    } else {
      NoBits();
    }
  }

  /** Byte `i` holds bits 7i to 7i + 6; the top bit says whether another byte follows. */
  lemma {:induction false} VarintByte(v: nat, i: nat)
    requires i < |Varint(v)|
    ensures Varint(v)[i] == v / Pow2(7 * i) % 128 + if i + 1 < |Varint(v)| then 128 else 0
    decreases i
  {
    hide Pow2;
    NoBits();
    if i > 0 {
      VarintByte(v / 128, i - 1);
      Seven();
      Pow2Add(7 * (i - 1), 7);
      assert 7 * (i - 1) + 7 == 7 * i;
      DivDiv(v, 128, Pow2(7 * (i - 1)));
    }
  }

  lemma Seven()
    ensures Pow2(7) == 128
  {
    Pow2Table();
    assert Pow2(8) == 2 * Pow2(7);
  }

  lemma NoBits()
    ensures Pow2(0) == 1
  {
  }

  // ----- decoding

  datatype Decoded = EndOfFile(consumed: nat) | Value(value: int, consumed: nat) | TooManyBytes(consumed: nat)

  /** The conversion of the collected bits to a 32-bit result. */
  function Finish(result: int): int {
    if result > 0x7fff_ffff_ffff_ffff then result % 0x1_0000_0000 - 0x1_0000_0000 else result % 0x1_0000_0000
  }

  /** Decode when `result` has been collected from bytes worth `shift` bits. */
  function DecodeFrom(s: seq<Byte>, result: int, shift: nat, consumed: nat): (r: Decoded)
    decreases |s|
  {
    if s == [] then EndOfFile(consumed)
    else
      var collected := result + s[0] % 128 * Pow2(shift);
      if s[0] < 128 then Value(Finish(collected), consumed + 1)
      else if shift + 7 >= 64 then TooManyBytes(consumed + 1)
      else DecodeFrom(s[1..], collected, shift + 7, consumed + 1)
  }

  function Decode(s: seq<Byte>): Decoded {
    DecodeFrom(s, 0, 0, 0)
  }

  /** The number whose groups of seven bits, least significant first, are in the first `n` bytes. */
  ghost function Collected(s: seq<Byte>, n: nat): int
    requires n <= |s|
  {
    if n == 0 then 0 else Collected(s, n - 1) + s[n - 1] % 128 * Pow2(7 * (n - 1))
  }

  /** Decoding any bytes, when the first `n` have the top bit set: it goes on from byte `n`. */
  lemma {:induction false} DecodePrefix(s: seq<Byte>, n: nat)
    requires n <= |s| && n < 10 && forall i :: 0 <= i < n ==> s[i] >= 128
    ensures Decode(s) == DecodeFrom(s[n..], Collected(s, n), 7 * n, n)
  {
    hide Pow2, Finish;
    if n == 0 {
      assert s[0..] == s;
    } else {
      DecodePrefix(s, n - 1);
      assert s[n - 1..][1..] == s[n..];
    }
  }

  /**
   * Decoding any bytes. The first byte without the top bit ends the number if it is one of the first ten; the number
   * is cut to 32 bits, and reduced by 2^32 if it does not fit 63 bits. Otherwise the file ends too early, or after
   * ten bytes the decoder gives up.
   */
  lemma DecodeLaw(s: seq<Byte>, n: nat)
    requires n <= |s| && n <= 10 && forall i :: 0 <= i < n ==> s[i] >= 128
    ensures n < 10 && n < |s| && s[n] < 128 ==>
              Decode(s) == Value(Collected(s, n + 1) % 0x1_0000_0000
                                 - if Collected(s, n + 1) < 0x8000_0000_0000_0000 then 0 else 0x1_0000_0000, n + 1)
    ensures n < 10 && n == |s| ==> Decode(s) == EndOfFile(n)
    ensures n == 10 ==> Decode(s) == TooManyBytes(10)
  {
    hide Pow2;
    if n < 10 {
      DecodePrefix(s, n);
    } else {
      DecodePrefix(s, 9);
    }
  }

  lemma Regroup(v: nat, p: int)
    ensures v % 128 * p + v / 128 * (128 * p) == v * p
  {
    assert v == v / 128 * 128 + v % 128;
    assert v / 128 * (128 * p) == (v / 128 * 128) * p;
  }

  lemma {:induction false} DecodeVarint(v: nat, rest: seq<Byte>, result: int, shift: nat, consumed: nat)
    requires shift % 7 == 0 && shift < 64
    ensures DecodeFrom(Varint(v) + rest, result, shift, consumed)
         == if shift + 7 * (|Varint(v)| - 1) < 64 then Value(Finish(result + v * Pow2(shift)), consumed + |Varint(v)|)
            else TooManyBytes(consumed + (64 - shift + 6) / 7)
    decreases v
  {
    hide Pow2, Finish;
    var s := Varint(v) + rest;
    if v >= 128 {
      assert s[1..] == Varint(v / 128) + rest;
      if shift + 7 < 64 {
        DecodeVarint(v / 128, rest, result + v % 128 * Pow2(shift), shift + 7, consumed + 1);
        Seven();
        Pow2Add(7, shift);
        Regroup(v, Pow2(shift));
      }
    }
  }

  /**
   * Decoding an encoded number, whatever follows it: below 2^63 the number modulo 2^32 comes back, up to 2^70 that
   * minus 2^32, and beyond that the decoder gives up.
   */
  lemma VarintRoundTrip(v: nat, rest: seq<Byte>)
    ensures v < 0x1_0000_0000 ==> Decode(Varint(v) + rest) == Value(v, |Varint(v)|)
    ensures v < 0x8000_0000_0000_0000 ==> Decode(Varint(v) + rest) == Value(v % 0x1_0000_0000, |Varint(v)|)
    ensures 0x8000_0000_0000_0000 <= v < Pow2(70) ==>
              Decode(Varint(v) + rest) == Value(v % 0x1_0000_0000 - 0x1_0000_0000, |Varint(v)|)
    ensures v >= Pow2(70) ==> Decode(Varint(v) + rest) == TooManyBytes(10)
  {
    hide Pow2;
    DecodeVarint(v, rest, 0, 0, 0);
    VarintLength(v, 10);
    NoBits();
    assert v * Pow2(0) == v;
    Wide();
  }

  lemma Wide()
    ensures Pow2(70) > 0x8000_0000_0000_0000
  {
    hide Pow2;
    Pow2Table();
    Pow2Add(32, 32);
    Pow2Mono(64, 70);
  }

  /** A file that ends inside an encoded number reads as the end of the file. */
  lemma {:induction false} Truncated(v: nat, n: nat, result: int, shift: nat, consumed: nat)
    requires n < |Varint(v)| && shift + 7 * (|Varint(v)| - 1) < 64
    ensures DecodeFrom(Varint(v)[..n], result, shift, consumed) == EndOfFile(consumed + n)
    decreases v
  {
    hide Pow2;
    if n > 0 {
      assert Varint(v)[..n][1..] == Varint(v / 128)[..n - 1];
      Truncated(v / 128, n - 1, result + Varint(v)[0] % 128 * Pow2(shift), shift + 7, consumed + 1);
    }
  }

  // ----- files

  class OutFile {
    var data: seq<Byte>

    constructor ()
      ensures data == []
    {
      data := [];
    }

    method Write(s: seq<Byte>)
      modifies this
      ensures data == old(data) + s
    {
      data := data + s;
    }
  }

  class InFile {
    const data: seq<Byte>
    var pos: nat

    constructor (data: seq<Byte>)
      ensures this.data == data && pos == 0
    {
      this.data := data;
      pos := 0;
    }

    ghost predicate Valid()
      reads this
    {
      pos <= |data|
    }

    ghost function Rest(): seq<Byte>
      requires Valid()
      reads this
    {
      data[pos..]
    }

    /** At most `size` bytes, fewer at the end; all of them if `size` is negative. */
    method Read(size: int) returns (s: seq<Byte>)
      requires Valid()
      modifies this
      ensures Valid() && s == Taken(old(Rest()), size) && Rest() == old(Rest())[|s|..]
      ensures s + Rest() == old(Rest()) && (Rest() == [] || |s| == size) && (size >= 0 ==> |s| <= size)
    {
      if size < 0 || pos + size > |data| {
        s := data[pos..];
      } else {
        s := data[pos..pos + size];
      }
      pos := pos + |s|;
    }
  }

  function Taken(s: seq<Byte>, size: int): (t: seq<Byte>)
    ensures |t| <= |s|
  {
    if 0 <= size <= |s| then s[..size] else s
  }

  /** Write a varint byte by byte. */
  method EncodeVarint32(out: OutFile, value0: nat)
    modifies out
    ensures out.data == old(out.data) + Varint(value0)
  {
    var bits, value := value0 % 128, value0 / 128;
    ghost var written: seq<Byte> := [];
    while value != 0
      invariant 0 <= bits < 128 && value >= 0
      invariant out.data == old(out.data) + written
      invariant written + Varint(128 * value + bits) == Varint(value0)
      decreases value
    {
      out.Write([128 + bits]);
      VarintStep(value, bits, written);
      written := written + [128 + bits];
      bits, value := value % 128, value / 128;
    }
    out.Write([bits]);
  }

  lemma VarintStep(value: nat, bits: nat, written: seq<Byte>)
    requires value > 0 && bits < 128
    ensures written + [128 + bits] + Varint(128 * (value / 128) + value % 128) == written + Varint(128 * value + bits)
  {
    var v := 128 * value + bits;
    assert v % 128 == bits && v / 128 == value && 128 * (value / 128) + value % 128 == value;
    assert written + [128 + bits] + Varint(value) == written + ([128 + bits] + Varint(value));
  }

  /** Read a varint byte by byte. */
  method DecodeVarint32(f: InFile) returns (r: Decoded)
    requires f.Valid()
    modifies f
    ensures f.Valid() && r == Decode(old(f.Rest())) && r.consumed <= |old(f.Rest())|
    ensures f.Rest() == old(f.Rest())[r.consumed..]
  {
    hide Pow2, Finish;
    ghost var s := f.Rest();
    var result: nat, shift: nat, pos: nat := 0, 0, 0;
    NoBits();
    while true
      invariant f.Valid() && pos <= |s| && f.Rest() == s[pos..] && result < Pow2(shift) && shift < 64
      invariant DecodeFrom(s[pos..], result, shift, pos) == Decode(s)
      decreases |s| - pos
    {
      var c := f.Read(1);
      if |c| == 0 {
        return EndOfFile(pos);
      }
      var b := c[0];
      assert s[pos..][1..] == s[pos + 1..];
      NextGroup(b, shift, result);
      result := Or(b % 128 * Pow2(shift), result);
      pos := pos + 1;
      if b < 128 {
        return Value(Finish(result), pos);
      }
      shift := shift + 7;
      if shift >= 64 {
        return TooManyBytes(pos);
      }
    }
  }

  lemma NextGroup(b: Byte, shift: nat, result: nat)
    requires result < Pow2(shift)
    ensures b % 128 * Pow2(shift) >= 0
    ensures Or(b % 128 * Pow2(shift), result) == result + b % 128 * Pow2(shift) < Pow2(shift + 7)
  {
    hide Pow2, Or;
    var g, p := b % 128, Pow2(shift);
    OrDisjoint(g, shift, result);
    Seven();
    Pow2Add(7, shift);
    MulMono(g + 1, 128, p);
    assert (g + 1) * p == g * p + p;
  }

  // ----- messages

  /** A message, by its serialised bytes. */
  type Message = seq<Byte>

  function Framed(m: Message): seq<Byte> {
    Varint(|m|) + m
  }

  function FramedAll(ms: seq<Message>): seq<Byte> {
    if ms == [] then [] else Framed(ms[0]) + FramedAll(ms[1..])
  }

  method EncodeMessage(out: OutFile, message: Message)
    modifies out
    ensures out.data == old(out.data) + Framed(message)
  {
    EncodeVarint32(out, |message|);
    out.Write(message);
  }

  /** What is found, and the bytes read to find it. */
  datatype Attempt = NoMessage(used: nat) | Got(message: Message, used: nat)

  /** What one attempt to read a message finds; a length of zero counts as no message. */
  function ReadOne(s: seq<Byte>): (a: Attempt)
    ensures a.used <= |s| && (a.Got? ==> a.used > 0)
  {
    var d := Decode(s);
    DecodeConsumes(s, 0, 0, 0);
    if !d.Value? || d.value == 0 then NoMessage(d.consumed)
    else
      var m := Taken(s[d.consumed..], d.value);
      Got(m, d.consumed + |m|)
  }

  lemma {:induction false} DecodeConsumes(s: seq<Byte>, result: int, shift: nat, consumed: nat)
    ensures DecodeFrom(s, result, shift, consumed).consumed <= consumed + |s|
    ensures DecodeFrom(s, result, shift, consumed).Value? ==> DecodeFrom(s, result, shift, consumed).consumed > consumed
    decreases |s|
  {
    hide Pow2, Finish;
    if s != [] {
      DecodeConsumes(s[1..], result + s[0] % 128 * Pow2(shift), shift + 7, consumed + 1);
    }
  }

  method DecodeMessage(f: InFile) returns (ok: bool, message: Message)
    requires f.Valid()
    modifies f
    ensures f.Valid()
    ensures var a := ReadOne(old(f.Rest()));
            && ok == a.Got? && (ok ==> message == a.message)
            && f.Rest() == old(f.Rest())[a.used..]
  {
    hide Decode;
    var d := DecodeVarint32(f);
    if !d.Value? || d.value == 0 {
      return false, [];
    }
    message := f.Read(d.value);
    ok := true;
  }

  /** Read messages until there is none. */
  function ReadAll(s: seq<Byte>): (ms: seq<Message>)
    decreases |s|
  {
    var a := ReadOne(s);
    if a.NoMessage? then [] else [a.message] + ReadAll(s[a.used..])
  }

  /** The messages before the first empty one. */
  function UpToEmpty(ms: seq<Message>): seq<Message> {
    if ms == [] || ms[0] == [] then [] else [ms[0]] + UpToEmpty(ms[1..])
  }

  lemma ReadFramed(m: Message, rest: seq<Byte>)
    requires |m| < 0x1_0000_0000
    ensures ReadOne(Framed(m) + rest) == if m == [] then NoMessage(|Framed(m)|) else Got(m, |Framed(m)|)
  {
    hide Decode, Varint;
    var s := Framed(m) + rest;
    assert s == Varint(|m|) + (m + rest);
    VarintRoundTrip(|m|, m + rest);
    assert s[|Varint(|m|)|..] == m + rest;
    assert (m + rest)[..|m|] == m;
  }

  /** What has been written is read back up to the first empty message. */
  lemma {:induction false} ReadBack(ms: seq<Message>)
    requires forall i :: 0 <= i < |ms| ==> |ms[i]| < 0x1_0000_0000
    ensures ReadAll(FramedAll(ms)) == UpToEmpty(ms)
  {
    hide ReadOne, Framed;
    if ms == [] {
      NothingToRead();
    } else {
      ReadFramed(ms[0], FramedAll(ms[1..]));
      if ms[0] != [] {
        assert FramedAll(ms)[|Framed(ms[0])|..] == FramedAll(ms[1..]);
        ReadBack(ms[1..]);
      }
    }
  }

  lemma NothingToRead()
    ensures ReadAll([]) == []
  {
  }

  /** So the messages come back exactly if none of them is empty. */
  lemma {:induction false} ReadBackExact(ms: seq<Message>)
    requires forall i :: 0 <= i < |ms| ==> |ms[i]| < 0x1_0000_0000
    ensures ReadAll(FramedAll(ms)) == ms <==> [] !in ms
  {
    hide ReadAll, FramedAll;
    ReadBack(ms);
    UpToEmptyAll(ms);
  }

  lemma {:induction false} UpToEmptyAll(ms: seq<Message>)
    ensures UpToEmpty(ms) == ms <==> [] !in ms
  {
    if ms != [] && ms[0] != [] {
      UpToEmptyAll(ms[1..]);
      assert ms == [ms[0]] + ms[1..];
      assert UpToEmpty(ms)[1..] == UpToEmpty(ms[1..]);
    }
  }
}
