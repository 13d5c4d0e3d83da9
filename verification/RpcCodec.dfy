/** cmake/rpc_c/rpc_util.c, cmake/rpc_c/rpc_c.h: the tagged argument codec of the RPC library. */
module RpcCodec {
  import opened Bits
  import opened Options

  type Byte = b: int | 0 <= b < 256 witness 0

  // ---- little-endian integers ---------------------------------------------------------------

  function Limit(n: nat): (p: nat)
    ensures p > 0
  {
    if n == 0 then 1 else 256 * Limit(n - 1)
  }

  function Little(v: nat, n: nat): (s: seq<Byte>)
    ensures |s| == n
  {
    if n == 0 then [] else [v % 256] + Little(v / 256, n - 1)
  }

  function FromLittle(s: seq<Byte>): (v: nat) {
    if |s| == 0 then 0 else s[0] + 256 * FromLittle(s[1..])
  }

  lemma {:induction false} LittleRoundTrip(v: nat, n: nat)
    requires v < Limit(n)
    ensures FromLittle(Little(v, n)) == v
  {
    if n > 0 {
      LittleRoundTrip(v / 256, n - 1);
      assert Little(v, n)[1..] == Little(v / 256, n - 1);
    }
  }

  lemma {:induction false} FromLittleRoundTrip(s: seq<Byte>)
    ensures FromLittle(s) < Limit(|s|) && Little(FromLittle(s), |s|) == s
  {
    if |s| > 0 {
      FromLittleRoundTrip(s[1..]);
      LowByte(s[0], FromLittle(s[1..]));
      assert s == [s[0]] + s[1..];
    }
  }

  lemma LowByte(low: int, high: int)
    requires 0 <= low < 256
    ensures (low + 256 * high) % 256 == low && (low + 256 * high) / 256 == high
  {
    DivModUnique(low + 256 * high, 256, high, low);
  }

  // Byte i of an integer counts 256^i, and n bytes hold what is below 2^8n.
  lemma {:induction false} LittleByte(v: nat, n: nat, i: nat)
    requires i < n
    ensures Little(v, n)[i] == v / Limit(i) % 256
  {
    if i > 0 {
      LittleByte(v / 256, n - 1, i - 1);
      DivDiv(v, 256, Limit(i - 1));
    }
  }

  lemma {:induction false} LimitIs(n: nat)
    ensures Limit(n) == Pow2(8 * n)
  {
    if n > 0 {
      LimitIs(n - 1);
      Pow2Add(8, 8 * (n - 1));
      Pow2Consts();
    }
  }

  // ---- arguments and handler calls ------------------------------------------------------------

  // data_type_t: 1-8 are the integers, 9, 10, 17 and 18 the strings, 27 a packed message
  const DT_PB: Byte := 27

  function IntSize(tag: Byte): nat {
    if 1 <= tag <= 2 then 1
    else if 3 <= tag <= 4 then 2
    else if 5 <= tag <= 6 then 4
    else if 7 <= tag <= 8 then 8
    else 0
  }

  predicate IsString(tag: Byte) { tag == 9 || tag == 10 || tag == 17 || tag == 18 }

  // data_type_t, in the order of its codes
  datatype DataType =
    | UNKNOWN | S8 | U8 | S16 | U16 | S32 | U32 | S64 | U64
    | S8P | U8P | S16P | U16P | S32P | U32P | S64P | U64P
    | S8CP | U8CP | S16CP | U16CP | S32CP | U32CP | S64CP | U64CP
    | VP | CVP | PB

  function Code(t: DataType): (c: Byte)
    ensures c < 28
  {
    match t
    case UNKNOWN => 0
    case S8 => 1 case U8 => 2 case S16 => 3 case U16 => 4
    case S32 => 5 case U32 => 6 case S64 => 7 case U64 => 8
    case S8P => 9 case U8P => 10 case S16P => 11 case U16P => 12
    case S32P => 13 case U32P => 14 case S64P => 15 case U64P => 16
    case S8CP => 17 case U8CP => 18 case S16CP => 19 case U16CP => 20
    case S32CP => 21 case U32CP => 22 case S64CP => 23 case U64CP => 24
    case VP => 25 case CVP => 26 case PB => 27
  }

  // The list that data_type_t numbers from zero
  const TYPES: seq<DataType> := [
    UNKNOWN, S8, U8, S16, U16, S32, U32, S64, U64,
    S8P, U8P, S16P, U16P, S32P, U32P, S64P, U64P,
    S8CP, U8CP, S16CP, U16CP, S32CP, U32CP, S64CP, U64CP,
    VP, CVP, PB]

  // The width of an integer type in bits, 0 for the other types
  function BitWidth(t: DataType): nat {
    match t
    case S8 => 8 case U8 => 8
    case S16 => 16 case U16 => 16
    case S32 => 32 case U32 => 32
    case S64 => 64 case U64 => 64
    case _ => 0
  }

  // Exactly the integer types are sent as integers, in as many bytes as they are wide, exactly the
  // pointers to characters as strings, and every value of a type that wide can be sent.
  lemma WidthsAre(t: DataType)
    ensures 8 * IntSize(Code(t)) == BitWidth(t)
    ensures IsString(Code(t)) <==> t.S8P? || t.U8P? || t.S8CP? || t.U8CP?
    ensures Code(t) == DT_PB <==> t.PB?
    ensures forall v: nat :: Supported(Int(Code(t), v)) <==> BitWidth(t) > 0 && v < Pow2(BitWidth(t))
  {
    LimitIs(IntSize(Code(t)));
  }

  lemma CodesInOrder(t: DataType)
    ensures |TYPES| == 28 && TYPES[Code(t)] == t
  {}

  // No other tag is known.
  lemma UnknownTags(tag: Byte)
    requires tag >= 28
    ensures IntSize(tag) == 0 && !IsString(tag) && tag != DT_PB
  {}

  // An argument as the caller passes it: the bits of an integer, the bytes of a string before its
  // terminating zero, or the bytes of a packed message
  datatype Arg = Int(tag: Byte, bits: nat) | Str(tag: Byte, text: seq<Byte>) | Message(packed: seq<Byte>)

  predicate Supported(a: Arg) {
    match a
    case Int(tag, bits) => IntSize(tag) > 0 && bits < Limit(IntSize(tag))
    case Str(tag, _) => IsString(tag)
    case Message(_) => true
  }

  // What a handler is called with: the tag, then a 64-bit integer or a block of bytes
  datatype Call = OfInt(tag: Byte, v: nat, len: nat) | OfBytes(tag: Byte, bytes: seq<Byte>)

  function CallOf(a: Arg): Call {
    match a
    case Int(tag, bits) => OfInt(tag, bits, IntSize(tag))
    case Str(tag, text) => OfBytes(tag, text)
    case Message(packed) => OfBytes(DT_PB, packed)
  }

  function CallsOf(args: seq<Arg>): (calls: seq<Call>)
    ensures |calls| == |args|
  {
    seq(|args|, i requires 0 <= i < |args| => CallOf(args[i]))
  }

  // ---- the format ------------------------------------------------------------------------------

  // GET_TYPE
  function TagOf(a: Arg): Byte { if a.Message? then DT_PB else a.tag }

  // Strings are cut to the length that fits the 16-bit prefix; messages are not.
  function Payload(a: Arg): seq<Byte> {
    match a
    case Int(tag, bits) => Little(bits, IntSize(tag))
    case Str(tag, text) => Little(|text| % 65536, 2) + text[..|text| % 65536]
    case Message(packed) => Little(|packed| % 65536, 2) + packed
  }

  function Encode(a: Arg): (s: seq<Byte>) { [TagOf(a)] + Payload(a) }

  function EncodeAll(args: seq<Arg>): seq<Byte> {
    if |args| == 0 then [] else Encode(args[0]) + EncodeAll(args[1..])
  }

  datatype Decoded = Decoded(call: Call, size: nat)

  // The argument at the front of b
  function Decode(b: seq<Byte>): (d: Option<Decoded>)
    ensures d.Some? ==> 0 < d.value.size <= |b|
  {
    if |b| == 0 then None else
    var n := IntSize(b[0]);
    if n > 0 then
      if |b| < 1 + n then None else Some(Decoded(OfInt(b[0], FromLittle(b[1..1 + n]), n), 1 + n))
    else if IsString(b[0]) || b[0] == DT_PB then
      if |b| < 3 then None else
      var len := FromLittle(b[1..3]);
      if |b| < 3 + len then None else Some(Decoded(OfBytes(b[0], b[3..3 + len]), 3 + len))
    else None
  }

  // What has been read when there is no argument at the front: the tag, and the length if the
  // bytes it announces are missing
  function Spent(b: seq<Byte>): (n: nat)
    ensures n <= |b|
  {
    if |b| == 0 then 0
    else if IntSize(b[0]) == 0 && (IsString(b[0]) || b[0] == DT_PB) && |b| >= 3 then 3
    else 1
  }

  predicate Fits(a: Arg) {
    match a
    case Int(_, _) => true
    case Str(_, text) => |text| < 65536
    case Message(packed) => |packed| < 65536
  }

  // An argument comes back as it was exactly if its length fits the prefix.
  lemma DecodeEncode(a: Arg, rest: seq<Byte>)
    requires Supported(a)
    ensures Decode(Encode(a) + rest) == Some(Decoded(CallOf(a), |Encode(a)|)) <==> Fits(a)
  {
    hide Little, FromLittle, Limit;
    var b := Encode(a) + rest;
    match a {
      case Int(tag, bits) =>
        LittleRoundTrip(bits, IntSize(tag));
        assert b[1..1 + IntSize(tag)] == Little(bits, IntSize(tag));
      case Str(tag, text) =>
        KeptLength(|text|);
        PrefixRead(b, tag, text, text[..|text| % 65536], rest, |text| % 65536);
      case Message(packed) =>
        KeptLength(|packed|);
        PrefixRead(b, DT_PB, packed, packed, rest, |packed| % 65536);
    }
  }

  lemma KeptLength(n: nat)
    ensures 0 <= n % 65536 < 65536 && n % 65536 <= n && (n % 65536 == n <==> n < 65536)
  {}

  // Behind the prefix, the receiver takes as many bytes as it says; they are the whole block only
  // if the prefix could hold its length.
  lemma PrefixRead(b: seq<Byte>, tag: Byte, block: seq<Byte>, sent: seq<Byte>, rest: seq<Byte>, k: nat)
    requires k < 65536 && k <= |block| && b == [tag] + Little(k, 2) + sent + rest
    requires sent == block || sent == block[..k]
    ensures |b| >= 3 + k && b[0] == tag && FromLittle(b[1..3]) == k && b[3..3 + k] == block[..k]
    ensures block[..k] == block <==> k == |block|
  {
    assert Limit(2) == 65536;
    hide Little, FromLittle, Limit;
    LittleRoundTrip(k, 2);
    Pieces(b, tag, Little(k, 2), sent, rest, k);
  }

  lemma Pieces(b: seq<Byte>, tag: Byte, prefix: seq<Byte>, sent: seq<Byte>, rest: seq<Byte>, k: nat)
    requires b == [tag] + prefix + sent + rest && |prefix| == 2 && k <= |sent|
    ensures |b| >= 3 + k && b[0] == tag && b[1..3] == prefix && b[3..3 + k] == sent[..k]
  {
    assert b[1..3] == prefix;
    assert b[3..3 + k] == sent[..k];
  }

  // The argument a call stands for
  function ArgOf(c: Call): Arg {
    match c
    case OfInt(tag, v, _) => Int(tag, v)
    case OfBytes(tag, bytes) => if tag == DT_PB then Message(bytes) else Str(tag, bytes)
  }

  // Only encodings are decoded: what was read off the front is the encoding of the call.
  lemma EncodeDecode(b: seq<Byte>)
    requires Decode(b).Some?
    ensures var d := Decode(b).value;
      var a := ArgOf(d.call);
      Supported(a) && Fits(a) && CallOf(a) == d.call && Encode(a) == b[..d.size]
  {
    if IntSize(b[0]) > 0 {
      DecodedInt(b);
    } else {
      DecodedBytes(b);
    }
  }

  lemma DecodedInt(b: seq<Byte>)
    requires Decode(b).Some? && IntSize(b[0]) > 0
    ensures var d := Decode(b).value;
      var a := ArgOf(d.call);
      Supported(a) && Fits(a) && CallOf(a) == d.call && Encode(a) == b[..d.size]
  {
    hide Little, FromLittle, Limit;
    var n := IntSize(b[0]);
    FromLittleRoundTrip(b[1..1 + n]);
    assert b[..1 + n] == [b[0]] + b[1..1 + n];
  }

  lemma DecodedBytes(b: seq<Byte>)
    requires Decode(b).Some? && IntSize(b[0]) == 0
    ensures var d := Decode(b).value;
      var a := ArgOf(d.call);
      Supported(a) && Fits(a) && CallOf(a) == d.call && Encode(a) == b[..d.size]
  {
    assert Limit(2) == 65536;
    hide Little, FromLittle, Limit;
    FromLittleRoundTrip(b[1..3]);
    var len := FromLittle(b[1..3]);
    KeptLength(len);
    assert b[..3 + len] == [b[0]] + (b[1..3] + b[3..3 + len]);
    assert b[3..3 + len][..len] == b[3..3 + len];
  }

  // How many bytes an argument takes, behind its tag
  lemma PayloadSize(a: Arg)
    requires Supported(a)
    ensures match a
      case Int(tag, _) => 1 <= tag <= 8 && |Payload(a)| == Pow2((tag - 1) / 2)
      case Str(_, text) => |Payload(a)| == 2 + |text| % 65536
      case Message(packed) => |Payload(a)| == 2 + |packed|
  {
    assert Pow2(0) == 1 && Pow2(1) == 2 && Pow2(2) == 4 && Pow2(3) == 8;
  }

  // An argument that was cut off is not read; what has been read of it is its tag, and the length
  // if that has arrived.
  lemma CutOff(a: Arg, n: nat)
    requires Supported(a) && Fits(a) && n < |Encode(a)|
    ensures Decode(Encode(a)[..n]) == None
    ensures Spent(Encode(a)[..n]) == if n == 0 then 0 else if a.Int? || n < 3 then 1 else 3
  {
    hide Little, FromLittle, Limit;
    var e, b := Encode(a), Encode(a)[..n];
    if n > 0 { assert b[0] == e[0] == TagOf(a); }
    if !a.Int? && n >= 3 {
      DecodeEncode(a, []);
      assert e + [] == e;
      assert b[1..3] == e[1..3];
    }
  }

  // ---- a whole request ---------------------------------------------------------------------

  // What a handler that ran on these calls answers to the last of them: true stops the parse
  type Handler = seq<Call> -> bool

  datatype Outcome = Outcome(code: nat, calls: seq<Call>, used: nat)

  // rpc_parse_req_args behind the count: arguments i .. n at the front of b. The code is the
  // number of the argument that failed, or 0.
  function Serve(b: seq<Byte>, i: nat, n: nat, h: Handler, calls: seq<Call>): Outcome
    requires i <= n
    decreases n - i
  {
    if i == n then Outcome(0, calls, 0) else
    match Decode(b)
    case None => Outcome(i + 1, calls, Spent(b))
    case Some(d) =>
      if h(calls + [d.call]) then Outcome(i + 1, calls + [d.call], d.size)
      else
        var rest := Serve(b[d.size..], i + 1, n, h, calls + [d.call]);
        Outcome(rest.code, rest.calls, d.size + rest.used)
  }

  // The first call that the handler refuses, or their number
  function FirstRefusal(h: Handler, calls: seq<Call>, i: nat): (k: nat)
    requires i <= |calls|
    ensures i <= k <= |calls| && (k < |calls| ==> Refuses(h, calls, k))
    ensures forall j :: i <= j < k ==> !Refuses(h, calls, j)
    decreases |calls| - i
  {
    if i == |calls| || Refuses(h, calls, i) then i else FirstRefusal(h, calls, i + 1)
  }

  predicate Refuses(h: Handler, calls: seq<Call>, i: nat)
    requires i < |calls|
  {
    h(calls[..i + 1])
  }

  // Sent arguments arrive one by one and unchanged, up to and including the first that the handler
  // refuses; if it refuses none, exactly their bytes have been read.
  lemma {:induction false} ServeEncoded(args: seq<Arg>, i: nat, rest: seq<Byte>, h: Handler)
    requires i <= |args| && forall j :: 0 <= j < |args| ==> Supported(args[j]) && Fits(args[j])
    ensures var calls := CallsOf(args);
      var k := FirstRefusal(h, calls, i);
      var o := Serve(EncodeAll(args[i..]) + rest, i, |args|, h, calls[..i]);
      if k < |args| then o.code == k + 1 && o.calls == calls[..k + 1]
      else o == Outcome(0, calls, |EncodeAll(args[i..])|)
    decreases |args| - i
  {
    hide Encode, Decode, Supported, Fits, CallOf;
    var calls := CallsOf(args);
    if i == |args| {
      assert calls[..i] == calls;
    } else {
      var e, tail := Encode(args[i]), EncodeAll(args[i + 1..]);
      assert args[i..][1..] == args[i + 1..];
      assert EncodeAll(args[i..]) + rest == e + (tail + rest);
      DecodeEncode(args[i], tail + rest);
      assert calls[..i] + [CallOf(args[i])] == calls[..i + 1];
      assert (e + (tail + rest))[|e|..] == tail + rest;
      ServeEncoded(args, i + 1, rest, h);
    }
  }

  // A message that announces more arguments than it has: all that are there arrive, and the code is
  // the number of the first that is missing.
  lemma {:induction false} ServeBroken(args: seq<Arg>, i: nat, n: nat, rest: seq<Byte>, h: Handler)
    requires i <= |args| < n && forall j :: 0 <= j < |args| ==> Supported(args[j]) && Fits(args[j])
    requires Decode(rest) == None && FirstRefusal(h, CallsOf(args), i) == |args|
    ensures var o := Serve(EncodeAll(args[i..]) + rest, i, n, h, CallsOf(args)[..i]);
      o == Outcome(|args| + 1, CallsOf(args), |EncodeAll(args[i..])| + Spent(rest))
    decreases |args| - i
  {
    hide Encode, Decode, Supported, Fits, CallOf, Spent;
    var calls := CallsOf(args);
    if i == |args| {
      assert calls[..i] == calls && EncodeAll(args[i..]) + rest == rest;
    } else {
      var e, tail := Encode(args[i]), EncodeAll(args[i + 1..]);
      assert args[i..][1..] == args[i + 1..];
      assert EncodeAll(args[i..]) + rest == e + (tail + rest);
      DecodeEncode(args[i], tail + rest);
      assert calls[..i] + [CallOf(args[i])] == calls[..i + 1];
      assert (e + (tail + rest))[|e|..] == tail + rest;
      ServeBroken(args, i + 1, n, rest, h);
    }
  }

  // The handler is only ever called with arguments whose length fits the prefix.
  lemma {:induction false} ServeCallsFit(b: seq<Byte>, i: nat, n: nat, h: Handler, calls: seq<Call>)
    requires i <= n && forall j :: 0 <= j < |calls| ==> Fits(ArgOf(calls[j]))
    ensures forall j :: 0 <= j < |Serve(b, i, n, h, calls).calls| ==> Fits(ArgOf(Serve(b, i, n, h, calls).calls[j]))
    decreases n - i
  {
    hide Encode, Decode, ArgOf, CallOf, Supported, Fits;
    if i < n && Decode(b).Some? {
      var d := Decode(b).value;
      EncodeDecode(b);
      ServeCallsFit(b[d.size..], i + 1, n, h, calls + [d.call]);
    }
  }

  lemma ArgOfCall(a: Arg)
    requires Supported(a)
    ensures ArgOf(CallOf(a)) == a
  {}

  // So the arguments arrive unchanged exactly if all of them fit.
  lemma ArriveOnlyIfFit(args: seq<Arg>, b: seq<Byte>, h: Handler)
    requires forall j :: 0 <= j < |args| ==> Supported(args[j])
    requires Serve(b, 0, |args|, h, []).calls == CallsOf(args)
    ensures AllFit(args)
  {
    hide Serve, ArgOf, CallOf, Supported, Fits;
    ServeCallsFit(b, 0, |args|, h, []);
    forall j | 0 <= j < |args|
      ensures Fits(args[j])
    {
      ArgOfCall(args[j]);
      assert CallsOf(args)[j] == CallOf(args[j]);
    }
  }

  predicate AllFit(args: seq<Arg>) {
    forall j :: 0 <= j < |args| ==> Fits(args[j])
  }

  // Whatever is accepted is the encoding of the arguments that the calls stand for.
  lemma {:induction false} ServeAccepts(b: seq<Byte>, i: nat, n: nat, h: Handler, calls: seq<Call>)
    requires i <= n && Serve(b, i, n, h, calls).code == 0
    ensures var o := Serve(b, i, n, h, calls);
      && |o.calls| == |calls| + n - i && o.calls[..|calls|] == calls && o.used <= |b|
      && EncodeAll(ArgsOf(o.calls[|calls|..])) == b[..o.used]
    decreases n - i
  {
    hide Encode, Decode, ArgOf, CallOf, Supported, Fits;
    var o := Serve(b, i, n, h, calls);
    if i < n {
      var d := Decode(b).value;
      ServeAccepts(b[d.size..], i + 1, n, h, calls + [d.call]);
      EncodeDecode(b);
      var r := Serve(b[d.size..], i + 1, n, h, calls + [d.call]);
      assert o.calls[..|calls|] == o.calls[..|calls| + 1][..|calls|];
      assert o.calls[|calls|] == o.calls[..|calls| + 1][|calls|] == d.call;
      var all, more := ArgsOf(o.calls[|calls|..]), ArgsOf(o.calls[|calls| + 1..]);
      assert all[1..] == more && all[0] == ArgOf(d.call);
      assert b[..o.used] == b[..d.size] + b[d.size..][..r.used];
    }
  }

  function ArgsOf(calls: seq<Call>): (args: seq<Arg>)
    ensures |args| == |calls|
  {
    seq(|calls|, i requires 0 <= i < |calls| => ArgOf(calls[i]))
  }

  // ---- the growing buffer --------------------------------------------------------------------

  class Buffer {
    var data: array<Byte>
    var cap: nat
    var len: nat

    ghost predicate Valid()
      reads this
    {
      len <= cap == data.Length
    }

    function Contents(): seq<Byte>
      requires Valid()
      reads this, data
    {
      data[..len]
    }

    // buffer_new
    constructor (initialCap: nat)
      ensures Valid() && Contents() == [] && fresh(data) && cap == initialCap
    {
      data := new Byte[initialCap](_ => 0);
      cap, len := initialCap, 0;
    }

    // The first half of buffer_append: room for n more bytes
    method Reserve(n: nat)
      requires Valid()
      modifies this
      ensures Valid() && (data == old(data) || fresh(data)) && len == old(len) && len + n <= cap
      ensures Contents() == old(Contents())
      ensures cap == Grown(old(cap), len + n)
    {
      if len + n > cap {
        var newCap := cap * 2;
        if newCap < len + n {
          newCap := len + n;
        }
        var newData := new Byte[newCap](_ => 0);
        for i := 0 to len
          invariant unchanged(this) && forall k :: 0 <= k < i ==> newData[k] == data[k]
        {
          newData[i] := data[i];
        }
        assert newData[..len] == data[..len];
        data, cap := newData, newCap;
      }
    }

    // buffer_append
    method Append(src: seq<Byte>)
      requires Valid()
      modifies this, data
      ensures Valid() && (data == old(data) || fresh(data))
      ensures Contents() == old(Contents()) + src
      ensures cap == Grown(old(cap), old(len) + |src|)
    {
      ghost var before := Contents();
      Reserve(|src|);
      Copy(src);
      assert data[..len + |src|] == before + src;
      len := len + |src|;
    }

    // Its memcpy
    method Copy(src: seq<Byte>)
      requires Valid() && len + |src| <= cap
      modifies data
      ensures data[..len] == old(data[..len]) && data[len..len + |src|] == src
    {
      for i := 0 to |src|
        invariant forall k :: 0 <= k < len ==> data[k] == old(data[k])
        invariant forall k :: 0 <= k < i ==> data[len + k] == src[k]
      {
        data[len + i] := src[i];
      }
    }

    // buffer_append_dt
    method AppendValue(a: Arg)
      requires Valid() && Supported(a)
      modifies this, data
      ensures Valid() && (data == old(data) || fresh(data))
      ensures Contents() == old(Contents()) + Payload(a)
    {
      hide Little, Limit, Grown;
      ghost var before := Contents();
      match a {
        case Int(tag, bits) =>
          Append(Little(bits, IntSize(tag)));
        case Str(_, text) =>
          var len := |text| % 65536;
          Append(Little(len, 2));
          Append(text[..len]);
          assert before + Little(len, 2) + text[..len] == before + (Little(len, 2) + text[..len]);
        case Message(packed) =>
          var len := |packed| % 65536;
          Append(Little(len, 2));
          Append(packed);
          assert before + Little(len, 2) + packed == before + (Little(len, 2) + packed);
      }
    }

    // BUFFER_PUSH_ARGS: the count, then each argument's tag and value
    method PushArgs(args: seq<Arg>)
      requires Valid() && |args| < 256 && forall i :: 0 <= i < |args| ==> Supported(args[i])
      modifies this, data
      ensures Valid() && (data == old(data) || fresh(data))
      ensures Contents() == old(Contents()) + [|args|] + EncodeAll(args)
    {
      hide Payload, Grown, Supported;
      ghost var before := Contents() + [|args|];
      Append([|args|]);
      assert args[..0] == [];
      for i := 0 to |args|
        invariant Valid() && (data == old(data) || fresh(data))
        invariant Contents() == before + EncodeAll(args[..i])
      {
        ghost var sent := Contents();
        Append([TagOf(args[i])]);
        AppendValue(args[i]);
        OneMore(before, sent, args, i, Contents());
      }
      assert args[..|args|] == args;
    }
  }

  // The capacity after room was made for need bytes
  function Grown(cap: nat, need: nat): nat {
    if need <= cap then cap else if 2 * cap < need then need else 2 * cap
  }

  // How often the buffer is reallocated while it takes up the given amounts one after the other
  function Growths(cap: nat, needs: seq<nat>): nat
    decreases |needs|
  {
    if |needs| == 0 then 0
    else (if needs[0] <= cap then 0 else 1) + Growths(Grown(cap, needs[0]), needs[1..])
  }

  function GrownBy(cap: nat, needs: seq<nat>): nat
    decreases |needs|
  {
    if |needs| == 0 then cap else GrownBy(Grown(cap, needs[0]), needs[1..])
  }

  // total is at least cap doubled n times.
  ghost predicate DoubledTo(cap: nat, n: nat, total: nat) { cap * Pow2(n) <= total }

  // Each reallocation at least doubles the capacity.
  lemma FewGrowths(cap: nat, needs: seq<nat>)
    ensures cap * Pow2(Growths(cap, needs)) <= GrownBy(cap, needs)
  {
    EachDoubles(cap, needs);
  }

  lemma {:induction false} EachDoubles(cap: nat, needs: seq<nat>)
    ensures DoubledTo(cap, Growths(cap, needs), GrownBy(cap, needs))
    decreases |needs|
  {
    hide DoubledTo;
    if |needs| == 0 {
      NoGrowth(cap);
    } else {
      var c := Grown(cap, needs[0]);
      EachDoubles(c, needs[1..]);
      if needs[0] > cap { OneGrowth(cap, c, Growths(c, needs[1..]), GrownBy(c, needs[1..])); }
    }
  }

  lemma NoGrowth(cap: nat)
    ensures DoubledTo(cap, 0, cap)
  {}

  lemma OneGrowth(cap: nat, c: nat, g: nat, total: nat)
    requires 2 * cap <= c && DoubledTo(c, g, total)
    ensures DoubledTo(cap, 1 + g, total)
  {
    hide Pow2;
    Pow2Double(g);
    MulMono(2 * cap, c, Pow2(g));
    assert 2 * cap * Pow2(g) == cap * (2 * Pow2(g));
  }

  // It holds what was needed, and stays below twice that if it had to grow.
  lemma {:induction false} NotTooLarge(cap: nat, needs: seq<nat>, most: nat)
    requires forall i :: 0 <= i < |needs| ==> needs[i] <= most
    ensures forall i :: 0 <= i < |needs| ==> needs[i] <= GrownBy(cap, needs)
    ensures cap <= GrownBy(cap, needs) && (GrownBy(cap, needs) == cap || GrownBy(cap, needs) < 2 * most)
    decreases |needs|
  {
    if |needs| > 0 {
      NotTooLarge(Grown(cap, needs[0]), needs[1..], most);
      assert forall i :: 0 < i < |needs| ==> needs[i] == needs[1..][i - 1];
    }
  }

  lemma OneMore(before: seq<Byte>, sent: seq<Byte>, args: seq<Arg>, i: nat, now: seq<Byte>)
    requires i < |args| && sent == before + EncodeAll(args[..i])
    requires now == sent + [TagOf(args[i])] + Payload(args[i])
    ensures now == before + EncodeAll(args[..i + 1])
  {
    hide Payload;
    assert args[..i + 1] == args[..i] + [args[i]];
    EncodeSnoc(args[..i], args[i]);
  }

  lemma {:induction false} EncodeSnoc(args: seq<Arg>, a: Arg)
    ensures EncodeAll(args + [a]) == EncodeAll(args) + Encode(a)
  {
    hide Encode;
    if |args| == 0 {
      assert args + [a] == [a];
    } else {
      assert (args + [a])[1..] == args[1..] + [a];
      EncodeSnoc(args[1..], a);
    }
  }

  // ---- the reader ----------------------------------------------------------------------------

  class Reader {
    const data: seq<Byte>
    var pos: nat

    ghost predicate Valid()
      reads this
    {
      pos <= |data|
    }

    function Left(): seq<Byte>
      requires Valid()
      reads this
    {
      data[pos..]
    }

    // reader_init
    constructor (bytes: seq<Byte>)
      ensures Valid() && data == bytes && pos == 0
    {
      data, pos := bytes, 0;
    }

    // reader_read_bytes: all n bytes or none
    method ReadBytes(n: nat) returns (ok: bool, bytes: seq<Byte>)
      requires Valid()
      modifies this
      ensures Valid() && ok == (n <= |old(Left())|)
      ensures ok ==> bytes == old(Left())[..n] && pos == old(pos) + n
      ensures !ok ==> pos == old(pos)
    {
      if pos + n > |data| {
        return false, [];
      }
      bytes := data[pos..pos + n];
      pos := pos + n;
      ok := true;
    }

    // parse_arg. A tag that cannot be read is taken for 0, which no argument has.
    method ParseArg(h: Handler, calls: seq<Call>) returns (failed: bool, after: seq<Call>)
      requires Valid()
      modifies this
      ensures Valid()
      ensures match Decode(old(Left()))
        case None => failed && after == calls && pos == old(pos) + Spent(old(Left()))
        case Some(d) => after == calls + [d.call] && pos == old(pos) + d.size && failed == h(after)
    {
      hide FromLittle;
      ghost var b := Left();
      var ok, bytes := ReadBytes(1);
      var tag: Byte := if ok then bytes[0] else 0;
      var len := IntSize(tag);
      if len > 0 {
        ok, bytes := ReadBytes(len);
        if !ok { return true, calls; }
        assert bytes == b[1..1 + len];
        after := calls + [OfInt(tag, FromLittle(bytes), len)];
        return h(after), after;
      }
      if IsString(tag) || tag == DT_PB {
        ok, bytes := ReadBytes(2);
        if !ok { return true, calls; }
        assert bytes == b[1..3];
        var size := FromLittle(bytes);
        ok, bytes := ReadBytes(size);
        if !ok { return true, calls; }
        assert bytes == b[3..3 + size];
        after := calls + [OfBytes(tag, bytes)];
        return h(after), after;
      }
      return true, calls;
    }

    // rpc_parse_req_args; an empty message has no arguments.
    method ParseArgs(h: Handler) returns (code: nat, calls: seq<Call>)
      requires Valid()
      modifies this
      ensures Valid()
      ensures old(Left()) == [] ==> code == 0 && calls == [] && pos == old(pos)
      ensures old(Left()) != [] ==>
        var o := Serve(old(Left())[1..], 0, old(Left())[0], h, []);
        code == o.code && calls == o.calls && pos == old(pos) + 1 + o.used
    {
      hide Decode, Serve;
      ghost var all := Left();
      calls := [];
      var ok, bytes := ReadBytes(1);
      var narg: nat := if ok then bytes[0] else 0;
      ghost var start, b0 := pos, Left();
      for i := 0 to narg
        invariant Valid() && start <= pos && (i == 0 ==> calls == [] && pos == start)
        invariant Serve(b0, 0, narg, h, []) ==
          var o := Serve(Left(), i, narg, h, calls); o.(used := o.used + (pos - start))
      {
        ServeStep(Left(), i, narg, h, calls);
        var failed: bool;
        ghost var left, at := Left(), pos;
        failed, calls := ParseArg(h, calls);
        if failed {
          return i + 1, calls;
        }
        assert Left() == left[pos - at..];
      }
      ServeEnd(Left(), narg, h, calls);
      code := 0;
    }
  }

  lemma ServeStep(b: seq<Byte>, i: nat, n: nat, h: Handler, calls: seq<Call>)
    requires i < n
    ensures var o := Serve(b, i, n, h, calls);
      match Decode(b)
      case None => o == Outcome(i + 1, calls, Spent(b))
      case Some(d) =>
        if h(calls + [d.call]) then o == Outcome(i + 1, calls + [d.call], d.size)
        else var r := Serve(b[d.size..], i + 1, n, h, calls + [d.call]);
          o == Outcome(r.code, r.calls, d.size + r.used)
  {}

  lemma ServeEnd(b: seq<Byte>, n: nat, h: Handler, calls: seq<Call>)
    ensures Serve(b, n, n, h, calls) == Outcome(0, calls, 0)
  {}

  // A request from one side to the other: pushed through the buffer and parsed again. If all
  // arguments fit they arrive up to the first the handler refuses; if it refuses none, they arrive
  // unchanged exactly if all fit.
  method SendAndParse(args: seq<Arg>, h: Handler) returns (code: nat, calls: seq<Call>, unread: seq<Byte>)
    requires |args| < 256 && forall i :: 0 <= i < |args| ==> Supported(args[i])
    ensures var k := FirstRefusal(h, CallsOf(args), 0);
      && (AllFit(args) && k < |args| ==> code == k + 1 && calls == CallsOf(args)[..k + 1])
      && (k == |args| ==> (code == 0 && calls == CallsOf(args) && unread == [] <==> AllFit(args)))
    ensures calls == CallsOf(args) ==> AllFit(args)
  {
    hide Serve, Encode, Decode, FirstRefusal, Fits, Supported, AllFit;
    var buf := new Buffer(1024);
    buf.PushArgs(args);
    var bytes := buf.Contents();
    assert bytes == [|args|] + EncodeAll(args);
    var r := new Reader(bytes);
    code, calls := r.ParseArgs(h);
    unread := r.data[r.pos..];
    assert bytes[1..] == EncodeAll(args[0..]) + [];
    FitsGive(args, h);
    if calls == CallsOf(args) { ArriveOnlyIfFit(args, bytes[1..], h); }
  }

  lemma FitsGive(args: seq<Arg>, h: Handler)
    requires forall j :: 0 <= j < |args| ==> Supported(args[j])
    ensures var k := FirstRefusal(h, CallsOf(args), 0);
      var o := Serve(EncodeAll(args[0..]) + [], 0, |args|, h, []);
      AllFit(args) ==>
        if k < |args| then o.code == k + 1 && o.calls == CallsOf(args)[..k + 1]
        else o == Outcome(0, CallsOf(args), |EncodeAll(args[0..])|)
  {
    hide Serve, Encode, FirstRefusal, Fits, Supported;
    assert CallsOf(args)[..0] == [];
    if AllFit(args) { ServeEncoded(args, 0, [], h); }
  }
}
