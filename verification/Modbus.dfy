/**
 The Modbus server used by the tests (MODBUS Application Protocol V1.1b3, sections 6.1 to 6.12) and
 the master's requests: tables of coils and registers that are updated in place, and the proof that
 a master sees plain arrays.
 */
module Modbus {
  import opened Common
  import opened Bits

  const SIZE: nat := 0x10000
  /** Addresses from here on are refused. */
  const BAD: nat := 0x9000

  const ILLEGAL_FUNCTION: byte := 0x01
  const ILLEGAL_ADDRESS: byte := 0x02

  datatype Tables = Tables(coils: seq<bool>, discrete: seq<bool>, holding: seq<nat>, inputs: seq<nat>)

  ghost predicate Sized(t: Tables) {
    && |t.coils| == |t.discrete| == |t.holding| == |t.inputs| == SIZE
    && (forall i :: 0 <= i < SIZE ==> t.holding[i] < 0x10000)
    && (forall i :: 0 <= i < SIZE ==> t.inputs[i] < 0x10000)
  }

  // ----- words and packed bits -----

  function WordAt(s: seq<byte>, k: nat): nat
    requires k + 2 <= |s|
  {
    s[k] as nat * 256 + s[k + 1] as nat
  }

  function WordBytes(v: nat): (r: seq<byte>)
    requires v < 0x10000
    ensures |r| == 2 && WordAt(r, 0) == v
  {
    [v / 256, v % 256]
  }

  function Words(values: seq<nat>): (r: seq<byte>)
    requires forall i :: 0 <= i < |values| ==> values[i] < 0x10000
    ensures |r| == 2 * |values| && forall i :: 0 <= i < |values| ==> WordAt(r, 2 * i) == values[i]
  {
    if values == [] then []
    else
      var before, last := Words(values[..|values| - 1]), values[|values| - 1];
      var all := before + WordBytes(last);
      assert forall i :: 0 <= i < |values| - 1 ==> WordAt(all, 2 * i) == WordAt(before, 2 * i);
      assert WordAt(all, 2 * (|values| - 1)) == WordAt(WordBytes(last), 0);
      all
  }

  function BytesFor(n: nat): nat {
    (n + 7) / 8
  }

  /** The bits of the bytes, least significant first, are the values, and zeros behind them. */
  ghost predicate Packed(values: seq<bool>, bytes: seq<byte>) {
    && |bytes| == BytesFor(|values|)
    && forall i :: 0 <= i < 8 * |bytes| ==> (Bit(bytes[i / 8], i % 8) <==> i < |values| && values[i])
  }

  function PackedBits(values: seq<bool>): (r: seq<byte>)
    ensures |r| == BytesFor(|values|)
  {
    if values == [] then []
    else
      var k := |values| - 1;
      var before := PackedBits(values[..k]);
      var room: seq<byte> := if k % 8 == 0 then before + [0] else before;
      if values[k] then room[k / 8 := SetBit(room[k / 8], k % 8)] else room
  }

  lemma {:induction false} PackedBitsArePacked(values: seq<bool>)
    ensures Packed(values, PackedBits(values))
  {
    if values != [] {
      var k := |values| - 1;
      var before, all := PackedBits(values[..k]), PackedBits(values);
      PackedBitsArePacked(values[..k]);
      var room: seq<byte> := if k % 8 == 0 then before + [0] else before;
      forall i | 0 <= i < 8 * |all|
        ensures Bit(all[i / 8], i % 8) <==> i < |values| && values[i]
      {
        ZeroHasNoBit(i % 8);
        assert Bit(room[i / 8], i % 8) <==> i < k && values[i];
        assert i == k <==> i / 8 == k / 8 && i % 8 == k % 8;
      }
    }
  }

  lemma PackedBitsGrow(values: seq<bool>, i: nat)
    requires i < |values|
    ensures var before := PackedBits(values[..i]);
      var room: seq<byte> := if i % 8 == 0 then before + [0] else before;
      && i / 8 < |room| == BytesFor(i + 1)
      && PackedBits(values[..i + 1]) == if values[i] then room[i / 8 := SetBit(room[i / 8], i % 8)] else room
  {
    assert values[..i + 1][..i] == values[..i];
  }

  method PackBits(values: seq<bool>) returns (out: seq<byte>)
    ensures out == PackedBits(values)
  {
    hide PackedBits;
    hide SetBit;
    var n := BytesFor(|values|);
    out := seq(n, _ => 0);
    assert out[..0] == PackedBits(values[..0]);
    for i := 0 to |values|
      invariant |out| == n && out[..BytesFor(i)] == PackedBits(values[..i])
      invariant forall j :: BytesFor(i) <= j < n ==> out[j] == 0
    {
      PackedBitsGrow(values, i);
      ghost var before := out[..BytesFor(i)];
      assert out[..BytesFor(i + 1)] == if i % 8 == 0 then before + [0] else before;
      if values[i] {
        out := out[i / 8 := SetBit(out[i / 8], i % 8)];
      }
    }
    assert values[..|values|] == values && out[..n] == out;
  }

  // ----- the server -----

  datatype Reply = Bytes(bytes: seq<byte>) | Crash

  datatype Effect = Effect(reply: Reply, tables: Tables)

  function Refusal(fc: byte, code: byte): Reply {
    Bytes([if fc >= 0x80 then fc else fc + 0x80, code])
  }

  /** The answer to a read: the length of the data has to fit a byte. */
  function Data(fc: byte, data: seq<byte>): Reply {
    if |data| > 255 then Crash else Bytes([fc, |data|] + data)
  }

  ghost function ReadBits(t: Tables, source: seq<bool>, pdu: seq<byte>): Effect
    requires |source| == SIZE && pdu != []
  {
    if |pdu| < 5 then Effect(Crash, t)
    else
      var addr, qty := WordAt(pdu, 1), WordAt(pdu, 3);
      if addr + qty > BAD then Effect(Refusal(pdu[0], ILLEGAL_ADDRESS), t)
      else Effect(Data(pdu[0], PackedBits(source[addr..addr + qty])), t)
  }

  ghost function ReadWords(t: Tables, source: seq<nat>, pdu: seq<byte>): Effect
    requires |source| == SIZE && pdu != [] && forall i :: 0 <= i < SIZE ==> source[i] < 0x10000
  {
    if |pdu| < 5 then Effect(Crash, t)
    else
      var addr, qty := WordAt(pdu, 1), WordAt(pdu, 3);
      if addr + qty > BAD then Effect(Refusal(pdu[0], ILLEGAL_ADDRESS), t)
      else Effect(Data(pdu[0], Words(source[addr..addr + qty])), t)
  }

  /** The first n cells from addr on hold the bits of the body, all others are as before. */
  ghost function BitsWritten(cells: seq<bool>, addr: nat, body: seq<byte>, n: nat): (r: seq<bool>)
    requires addr + n <= |cells| && n <= 8 * |body|
    ensures |r| == |cells|
    ensures forall j :: 0 <= j < |r| ==>
      r[j] == if addr <= j < addr + n then Bit(body[(j - addr) / 8], (j - addr) % 8) else cells[j]
  {
    seq(|cells|, j requires 0 <= j < |cells| =>
        if addr <= j < addr + n then Bit(body[(j - addr) / 8], (j - addr) % 8) else cells[j])
  }

  ghost function WordsWritten(cells: seq<nat>, addr: nat, body: seq<byte>, n: nat): (r: seq<nat>)
    requires addr + n <= |cells| && 2 * n <= |body|
    ensures |r| == |cells|
    ensures forall j :: 0 <= j < |r| ==> r[j] == if addr <= j < addr + n then WordAt(body, 2 * (j - addr)) else cells[j]
  {
    if n == 0 then cells
    else WordsWritten(cells, addr, body, n - 1)[addr + n - 1 := WordAt(body, 2 * (n - 1))]
  }

  /** The bytes that follow the count, as many of them as there are. */
  function Body(pdu: seq<byte>): seq<byte>
    requires |pdu| >= 6
  {
    if 6 + pdu[5] as nat <= |pdu| then pdu[6..6 + pdu[5] as nat] else pdu[6..]
  }

  function Min(a: nat, b: nat): nat {
    if a < b then a else b
  }

  /** With a body that is too short the write stops half-way, as an address error. */
  ghost function WriteBits(t: Tables, pdu: seq<byte>): Effect
    requires Sized(t) && pdu != []
  {
    if |pdu| < 6 then Effect(Crash, t)
    else
      var addr, qty, body := WordAt(pdu, 1), WordAt(pdu, 3), Body(pdu);
      if addr + qty > BAD then Effect(Refusal(pdu[0], ILLEGAL_ADDRESS), t)
      else
        var n := Min(qty, 8 * |body|);
        Effect(if n < qty then Refusal(pdu[0], ILLEGAL_ADDRESS) else Bytes(pdu[..5]),
               t.(coils := BitsWritten(t.coils, addr, body, n)))
  }

  /** With a body that is too short the write stops half-way, as an exception nobody handles. */
  ghost function WriteWords(t: Tables, pdu: seq<byte>): Effect
    requires Sized(t) && pdu != []
  {
    if |pdu| < 6 then Effect(Crash, t)
    else
      var addr, qty, body := WordAt(pdu, 1), WordAt(pdu, 3), Body(pdu);
      if addr + qty > BAD then Effect(Refusal(pdu[0], ILLEGAL_ADDRESS), t)
      else
        var n := Min(qty, |body| / 2);
        Effect(if n < qty then Crash else Bytes(pdu[..5]), t.(holding := WordsWritten(t.holding, addr, body, n)))
  }

  ghost function WriteOne(t: Tables, pdu: seq<byte>): Effect
    requires Sized(t) && pdu != []
  {
    if |pdu| < 5 then Effect(Crash, t)
    else
      var addr, val := WordAt(pdu, 1), WordAt(pdu, 3);
      if addr >= BAD then Effect(Refusal(pdu[0], ILLEGAL_ADDRESS), t)
      else if pdu[0] == 5 then Effect(Bytes(pdu[..5]), t.(coils := t.coils[addr := val == 0xFF00]))
      else Effect(Bytes(pdu[..5]), t.(holding := t.holding[addr := val]))
  }

  ghost function Serve(t: Tables, pdu: seq<byte>): Effect
    requires Sized(t)
  {
    if pdu == [] then Effect(Crash, t)
    else
      match pdu[0]
      case 1 => ReadBits(t, t.coils, pdu)
      case 2 => ReadBits(t, t.discrete, pdu)
      case 3 => ReadWords(t, t.holding, pdu)
      case 4 => ReadWords(t, t.inputs, pdu)
      case 5 => WriteOne(t, pdu)
      case 6 => WriteOne(t, pdu)
      case 15 => WriteBits(t, pdu)
      case 16 => WriteWords(t, pdu)
      case fc => Effect(Refusal(fc, ILLEGAL_FUNCTION), t)
  }

  lemma ServeKeepsSized(t: Tables, pdu: seq<byte>)
    requires Sized(t)
    ensures Sized(Serve(t, pdu).tables)
  {
    hide PackedBits;
    hide Words;
  }

  /** The tables of a server that has just been started. */
  ghost predicate Started(t: Tables) {
    Sized(t) && forall r :: 0 <= r < SIZE ==>
      && t.coils[r] == (r % 2 == 0) && t.discrete[r] == (r % 3 == 0)
      && t.holding[r] == (1000 + r) % 0x10000 && t.inputs[r] == (2000 + r) % 0x10000
  }

  class Slave {
    const coils: array<bool>
    const discrete: array<bool>
    const holding: array<nat>
    const inputs: array<nat>

    ghost function Now(): Tables
      reads coils, discrete, holding, inputs
    {
      Tables(coils[..], discrete[..], holding[..], inputs[..])
    }

    ghost predicate Valid()
      reads coils, discrete, holding, inputs
    {
      Sized(Now()) && coils != discrete && holding != inputs
    }

    constructor ()
      ensures Valid() && fresh(coils) && fresh(holding) && Started(Now())
      ensures coils.Length == discrete.Length == holding.Length == inputs.Length == 0x10000
      ensures forall r :: 0 <= r < 0x10000 ==> coils[r] == (r % 2 == 0) && discrete[r] == (r % 3 == 0)
      ensures forall r :: 0 <= r < 0x10000 ==> holding[r] == (1000 + r) % 0x10000 && inputs[r] == (2000 + r) % 0x10000
    {
      coils := new bool[SIZE](r => r % 2 == 0);
      discrete := new bool[SIZE](r => r % 3 == 0);
      holding := new nat[SIZE](r => (1000 + r) % 0x10000);
      inputs := new nat[SIZE](r => (2000 + r) % 0x10000);
    }

    method ReadBitTable(source: array<bool>, pdu: seq<byte>) returns (reply: Reply)
      requires Valid() && source.Length == SIZE && pdu != []
      ensures reply == ReadBits(Now(), source[..], pdu).reply
    {
      if |pdu| < 5 {
        return Crash;
      }
      var addr, qty := WordAt(pdu, 1), WordAt(pdu, 3);
      if addr + qty > BAD {
        return Refusal(pdu[0], ILLEGAL_ADDRESS);
      }
      assert source[addr..addr + qty] == source[..][addr..addr + qty];
      var data := PackBits(source[addr..addr + qty]);
      return Data(pdu[0], data);
    }

    method ReadWordTable(source: array<nat>, pdu: seq<byte>) returns (reply: Reply)
      requires Valid() && source.Length == SIZE && pdu != [] && forall i :: 0 <= i < SIZE ==> source[i] < 0x10000
      ensures reply == ReadWords(Now(), source[..], pdu).reply
    {
      if |pdu| < 5 {
        return Crash;
      }
      var addr, qty := WordAt(pdu, 1), WordAt(pdu, 3);
      if addr + qty > BAD {
        return Refusal(pdu[0], ILLEGAL_ADDRESS);
      }
      ghost var wanted := source[..][addr..addr + qty];
      var data := [];
      for i := 0 to qty
        invariant data == Words(wanted[..i])
      {
        assert wanted[..i + 1][..i] == wanted[..i] && wanted[i] == source[addr + i];
        data := data + WordBytes(source[addr + i]);
      }
      assert wanted[..qty] == wanted;
      return Data(pdu[0], data);
    }

    method WriteCell(pdu: seq<byte>) returns (reply: Reply)
      requires Valid() && pdu != []
      modifies coils, holding
      ensures Now() == WriteOne(old(Now()), pdu).tables && reply == WriteOne(old(Now()), pdu).reply
    {
      if |pdu| < 5 {
        return Crash;
      }
      var addr, val := WordAt(pdu, 1), WordAt(pdu, 3);
      if addr >= BAD {
        return Refusal(pdu[0], ILLEGAL_ADDRESS);
      }
      if pdu[0] == 5 {
        coils[addr] := val == 0xFF00;
      } else {
        holding[addr] := val;
      }
      return Bytes(pdu[..5]);
    }

    method WriteCoils(pdu: seq<byte>) returns (reply: Reply)
      requires Valid() && pdu != []
      modifies coils
      ensures Now() == WriteBits(old(Now()), pdu).tables && reply == WriteBits(old(Now()), pdu).reply
    {
      if |pdu| < 6 {
        return Crash;
      }
      var addr, qty, body := WordAt(pdu, 1), WordAt(pdu, 3), Body(pdu);
      if addr + qty > BAD {
        return Refusal(pdu[0], ILLEGAL_ADDRESS);
      }
      ghost var before := coils[..];
      assert BitsWritten(before, addr, body, 0) == before;
      var i := 0;
      while i < qty
        invariant 0 <= i <= qty && i <= 8 * |body|
        invariant coils[..] == BitsWritten(before, addr, body, i)
      {
        if i / 8 >= |body| {
          return Refusal(pdu[0], ILLEGAL_ADDRESS);
        }
        coils[addr + i] := Bit(body[i / 8], i % 8);
        i := i + 1;
      }
      return Bytes(pdu[..5]);
    }

    method WriteRegisters(pdu: seq<byte>) returns (reply: Reply)
      requires Valid() && pdu != []
      modifies holding
      ensures Now() == WriteWords(old(Now()), pdu).tables && reply == WriteWords(old(Now()), pdu).reply
    {
      if |pdu| < 6 {
        return Crash;
      }
      var addr, qty, body := WordAt(pdu, 1), WordAt(pdu, 3), Body(pdu);
      if addr + qty > BAD {
        return Refusal(pdu[0], ILLEGAL_ADDRESS);
      }
      ghost var before := holding[..];
      assert WordsWritten(before, addr, body, 0) == before;
      var i := 0;
      while i < qty
        invariant 0 <= i <= qty && 2 * i <= |body|
        invariant holding[..] == WordsWritten(before, addr, body, i)
      {
        if 2 * i + 2 > |body| {
          return Crash;
        }
        holding[addr + i] := WordAt(body, 2 * i);
        i := i + 1;
      }
      return Bytes(pdu[..5]);
    }

    /** One request; it returns and leaves in the tables what is specified. */
    method HandlePdu(pdu: seq<byte>) returns (reply: Reply)
      requires Valid()
      modifies coils, holding
      ensures Valid() && Now() == Serve(old(Now()), pdu).tables && reply == Serve(old(Now()), pdu).reply
    {
      ServeKeepsSized(Now(), pdu);
      if pdu == [] {
        return Crash;
      }
      match pdu[0] {
        case 1 => reply := ReadBitTable(coils, pdu);
        case 2 => reply := ReadBitTable(discrete, pdu);
        case 3 => reply := ReadWordTable(holding, pdu);
        case 4 => reply := ReadWordTable(inputs, pdu);
        case 5 => reply := WriteCell(pdu);
        case 6 => reply := WriteCell(pdu);
        case 15 => reply := WriteCoils(pdu);
        case 16 => reply := WriteRegisters(pdu);
        case fc => reply := Refusal(fc, ILLEGAL_FUNCTION);
      }
    }
  }

  // ----- the master -----

  /** What a master does; several coils at once are written by the master on the board. */
  datatype Op =
    | ReadCoils(addr: nat, qty: nat)
    | ReadDiscrete(addr: nat, qty: nat)
    | ReadHolding(addr: nat, qty: nat)
    | ReadInputs(addr: nat, qty: nat)
    | WriteCoil(addr: nat, on: bool)
    | WriteRegister(addr: nat, val: nat)
    | SetCoils(addr: nat, bits: seq<bool>)
    | SetRegisters(addr: nat, vals: seq<nat>)

  predicate ReadsBits(op: Op) {
    op.ReadCoils? || op.ReadDiscrete?
  }

  predicate ReadsWords(op: Op) {
    op.ReadHolding? || op.ReadInputs?
  }

  /** How many cells are meant. */
  function Count(op: Op): nat {
    match op
    case ReadCoils(_, qty) => qty
    case ReadDiscrete(_, qty) => qty
    case ReadHolding(_, qty) => qty
    case ReadInputs(_, qty) => qty
    case WriteCoil(_, _) => 1
    case WriteRegister(_, _) => 1
    case SetCoils(_, bits) => |bits|
    case SetRegisters(_, vals) => |vals|
  }

  /** The fields fit into the request, and the data of the answer into its length byte. */
  ghost predicate WellFormed(op: Op) {
    && op.addr < 0x10000 && Count(op) < 0x10000
    && match op {
      case ReadCoils(_, qty) => BytesFor(qty) <= 255
      case ReadDiscrete(_, qty) => BytesFor(qty) <= 255
      case ReadHolding(_, qty) => 2 * qty <= 255
      case ReadInputs(_, qty) => 2 * qty <= 255
      case WriteCoil(_, _) => true
      case WriteRegister(_, val) => val < 0x10000
      case SetCoils(_, bits) => BytesFor(|bits|) <= 255
      case SetRegisters(_, vals) => 2 * |vals| <= 255 && forall i :: 0 <= i < |vals| ==> vals[i] < 0x10000
    }
  }

  predicate InRange(op: Op) {
    op.addr + Count(op) <= BAD
  }

  function Header(fc: byte, a: nat, b: nat): seq<byte>
    requires a < 0x10000 && b < 0x10000
  {
    [fc] + WordBytes(a) + WordBytes(b)
  }

  function Request(op: Op): seq<byte>
    requires WellFormed(op)
  {
    match op
    case ReadCoils(addr, qty) => Header(1, addr, qty)
    case ReadDiscrete(addr, qty) => Header(2, addr, qty)
    case ReadHolding(addr, qty) => Header(3, addr, qty)
    case ReadInputs(addr, qty) => Header(4, addr, qty)
    case WriteCoil(addr, on) => Header(5, addr, if on then 0xFF00 else 0)
    case WriteRegister(addr, val) => Header(6, addr, val)
    case SetCoils(addr, bits) => Header(15, addr, |bits|) + [BytesFor(|bits|)] + PackedBits(bits)
    case SetRegisters(addr, vals) => Header(16, addr, |vals|) + [2 * |vals|] + Words(vals)
  }

  datatype Answer = Bits(bits: seq<bool>) | Registers(vals: seq<nat>) | Done | Refused(code: nat) | Malformed

  function DecodeBits(qty: nat, body: seq<byte>): Answer {
    if |body| < 2 + BytesFor(qty) then Malformed
    else Bits(seq(qty, i requires 0 <= i < qty => Bit(body[2 + i / 8], i % 8)))
  }

  function DecodeWords(qty: nat, body: seq<byte>): Answer {
    if |body| < 2 + 2 * qty then Malformed
    else Registers(seq<nat>(qty, i requires 0 <= i < qty => WordAt(body, 2 + 2 * i)))
  }

  function Decode(op: Op, body: seq<byte>): Answer {
    if |body| < 2 then Malformed
    else if body[0] >= 0x80 then Refused(body[1])
    else
      match op
      case ReadCoils(_, qty) => DecodeBits(qty, body)
      case ReadDiscrete(_, qty) => DecodeBits(qty, body)
      case ReadHolding(_, qty) => DecodeWords(qty, body)
      case ReadInputs(_, qty) => DecodeWords(qty, body)
      case _ => Done
  }

  /** The operation on plain arrays. */
  function PlainNext(t: Tables, op: Op): Tables
    requires InRange(op) && |t.coils| == |t.holding| == SIZE
  {
    match op
    case ReadCoils(_, _) => t
    case ReadDiscrete(_, _) => t
    case ReadHolding(_, _) => t
    case ReadInputs(_, _) => t
    case WriteCoil(addr, on) => t.(coils := t.coils[addr := on])
    case WriteRegister(addr, val) => t.(holding := t.holding[addr := val])
    case SetCoils(addr, bits) => t.(coils := t.coils[..addr] + bits + t.coils[addr + |bits|..])
    case SetRegisters(addr, vals) => t.(holding := t.holding[..addr] + vals + t.holding[addr + |vals|..])
  }

  function PlainAnswer(t: Tables, op: Op): Answer
    requires InRange(op) && |t.coils| == |t.discrete| == |t.holding| == |t.inputs| == SIZE
  {
    match op
    case ReadCoils(addr, qty) => Bits(t.coils[addr..addr + qty])
    case ReadDiscrete(addr, qty) => Bits(t.discrete[addr..addr + qty])
    case ReadHolding(addr, qty) => Registers(t.holding[addr..addr + qty])
    case ReadInputs(addr, qty) => Registers(t.inputs[addr..addr + qty])
    case _ => Done
  }

  lemma HeaderFields(fc: byte, a: nat, b: nat, rest: seq<byte>)
    requires a < 0x10000 && b < 0x10000
    ensures var pdu := Header(fc, a, b) + rest;
      && |pdu| == 5 + |rest| && pdu[0] == fc && WordAt(pdu, 1) == a && WordAt(pdu, 3) == b
      && pdu[..5] == Header(fc, a, b) && pdu[5..] == rest
  {
    assert Header(fc, a, b)[1] == a / 256 && Header(fc, a, b)[3] == b / 256;
  }

  lemma HeaderOnly(fc: byte, a: nat, b: nat)
    requires a < 0x10000 && b < 0x10000
    ensures var pdu := Header(fc, a, b); |pdu| == 5 && pdu[0] == fc && WordAt(pdu, 1) == a && WordAt(pdu, 3) == b
  {
    HeaderFields(fc, a, b, []);
    assert Header(fc, a, b) + [] == Header(fc, a, b);
  }

  lemma RequestBody(fc: byte, a: nat, b: nat, data: seq<byte>)
    requires a < 0x10000 && b < 0x10000 && |data| <= 255
    ensures var pdu := Header(fc, a, b) + [|data|] + data;
      && |pdu| == 6 + |data| && pdu[0] == fc && WordAt(pdu, 1) == a && WordAt(pdu, 3) == b
      && pdu[..5] == Header(fc, a, b) && Body(pdu) == data
  {
    var pdu := Header(fc, a, b) + [|data|] + data;
    assert pdu == Header(fc, a, b) + ([|data|] + data);
    HeaderFields(fc, a, b, [|data|] + data);
    assert pdu[5] == |data| && pdu[6..] == data && pdu[6..6 + |data|] == data;
  }

  lemma BitsAreDecoded(op: Op, fc: byte, bits: seq<bool>)
    requires ReadsBits(op) && fc < 0x80 && |bits| == op.qty && BytesFor(op.qty) <= 255
    ensures Data(fc, PackedBits(bits)).Bytes? && Decode(op, Data(fc, PackedBits(bits)).bytes) == Bits(bits)
  {
    PackedBitsArePacked(bits);
    hide PackedBits;
    hide Bit;
    var data := PackedBits(bits);
    var body: seq<byte> := [fc, |data|] + data;
    forall i | 0 <= i < op.qty
      ensures Bit(body[2 + i / 8], i % 8) == bits[i]
    {
      assert body[2 + i / 8] == data[i / 8];
    }
  }

  lemma ReadBitsIsPlain(t: Tables, op: Op)
    requires Sized(t) && WellFormed(op) && InRange(op) && ReadsBits(op)
    ensures Serve(t, Request(op)).reply.Bytes? && Serve(t, Request(op)).tables == t
    ensures Decode(op, Serve(t, Request(op)).reply.bytes) == PlainAnswer(t, op)
  {
    hide Decode;
    hide PackedBits;
    hide Data;
    var fc, source := if op.ReadCoils? then 1 else 2, if op.ReadCoils? then t.coils else t.discrete;
    HeaderOnly(fc, op.addr, op.qty);
    BitsAreDecoded(op, fc, source[op.addr..op.addr + op.qty]);
  }

  lemma WordsAreDecoded(op: Op, fc: byte, vals: seq<nat>)
    requires ReadsWords(op) && fc < 0x80 && |vals| == op.qty && 2 * op.qty <= 255
    requires forall i :: 0 <= i < |vals| ==> vals[i] < 0x10000
    ensures Data(fc, Words(vals)).Bytes? && Decode(op, Data(fc, Words(vals)).bytes) == Registers(vals)
  {
    hide Words;
    var data := Words(vals);
    var body: seq<byte> := [fc, |data|] + data;
    forall i | 0 <= i < op.qty
      ensures WordAt(body, 2 + 2 * i) == vals[i]
    {
      assert WordAt(body, 2 + 2 * i) == WordAt(data, 2 * i);
    }
  }

  lemma ReadWordsIsPlain(t: Tables, op: Op)
    requires Sized(t) && WellFormed(op) && InRange(op) && ReadsWords(op)
    ensures Serve(t, Request(op)).reply.Bytes? && Serve(t, Request(op)).tables == t
    ensures Decode(op, Serve(t, Request(op)).reply.bytes) == PlainAnswer(t, op)
  {
    hide Decode;
    hide Words;
    hide Data;
    var fc, source := if op.ReadHolding? then 3 else 4, if op.ReadHolding? then t.holding else t.inputs;
    HeaderOnly(fc, op.addr, op.qty);
    WordsAreDecoded(op, fc, source[op.addr..op.addr + op.qty]);
  }

  lemma WriteOneIsPlain(t: Tables, op: Op)
    requires Sized(t) && WellFormed(op) && InRange(op) && (op.WriteCoil? || op.WriteRegister?)
    ensures Serve(t, Request(op)).reply.Bytes? && Serve(t, Request(op)).tables == PlainNext(t, op)
    ensures Decode(op, Serve(t, Request(op)).reply.bytes) == PlainAnswer(t, op)
  {
    var val := if op.WriteCoil? then (if op.on then 0xFF00 else 0) else op.val;
    var fc: byte := if op.WriteCoil? then 5 else 6;
    HeaderFields(fc, op.addr, val, []);
    assert Header(fc, op.addr, val) + [] == Header(fc, op.addr, val) == Request(op);
  }

  lemma PackedIsWritten(cells: seq<bool>, addr: nat, bits: seq<bool>, data: seq<byte>)
    requires addr + |bits| <= |cells| && Packed(bits, data)
    ensures BitsWritten(cells, addr, data, |bits|) == cells[..addr] + bits + cells[addr + |bits|..]
  {
    hide Bit;
    var n := |bits|;
    var after, plain := BitsWritten(cells, addr, data, n), cells[..addr] + bits + cells[addr + n..];
    forall j | 0 <= j < |cells|
      ensures after[j] == plain[j]
    {
      if addr <= j < addr + n {
        var i := j - addr;
        assert Bit(data[i / 8], i % 8) == bits[i];
      }
    }
  }

  lemma SetCoilsIsPlain(t: Tables, op: Op)
    requires Sized(t) && WellFormed(op) && InRange(op) && op.SetCoils?
    ensures Serve(t, Request(op)).reply.Bytes? && Serve(t, Request(op)).tables == PlainNext(t, op)
    ensures Decode(op, Serve(t, Request(op)).reply.bytes) == PlainAnswer(t, op)
  {
    hide Bit;
    hide BitsWritten;
    hide PackedBits;
    PackedBitsArePacked(op.bits);
    var data := PackedBits(op.bits);
    RequestBody(15, op.addr, |op.bits|, data);
    PackedIsWritten(t.coils, op.addr, op.bits, data);
  }

  lemma SetRegistersIsPlain(t: Tables, op: Op)
    requires Sized(t) && WellFormed(op) && InRange(op) && op.SetRegisters?
    ensures Serve(t, Request(op)).reply.Bytes? && Serve(t, Request(op)).tables == PlainNext(t, op)
    ensures Decode(op, Serve(t, Request(op)).reply.bytes) == PlainAnswer(t, op)
  {
    hide Words;
    var data := Words(op.vals);
    RequestBody(16, op.addr, |op.vals|, data);
    assert WordsWritten(t.holding, op.addr, data, |op.vals|) == PlainNext(t, op).holding;
  }

  /** One operation in range has the effect and the answer it has on plain arrays. */
  lemma OperationIsPlain(t: Tables, op: Op)
    requires Sized(t) && WellFormed(op) && InRange(op)
    ensures Serve(t, Request(op)).reply.Bytes? && Serve(t, Request(op)).tables == PlainNext(t, op)
    ensures Decode(op, Serve(t, Request(op)).reply.bytes) == PlainAnswer(t, op)
  {
    hide Serve;
    hide Request;
    hide Decode;
    match op
    case ReadCoils(_, _) => ReadBitsIsPlain(t, op);
    case ReadDiscrete(_, _) => ReadBitsIsPlain(t, op);
    case ReadHolding(_, _) => ReadWordsIsPlain(t, op);
    case ReadInputs(_, _) => ReadWordsIsPlain(t, op);
    case WriteCoil(_, _) => WriteOneIsPlain(t, op);
    case WriteRegister(_, _) => WriteOneIsPlain(t, op);
    case SetCoils(_, _) => SetCoilsIsPlain(t, op);
    case SetRegisters(_, _) => SetRegistersIsPlain(t, op);
  }

  /** Any other well-formed operation gets the two bytes of exception 02 and changes nothing. */
  lemma OutOfRangeIsRefused(t: Tables, op: Op)
    requires Sized(t) && WellFormed(op) && op.addr + Count(op) > 0x9000
    ensures !InRange(op) && Serve(t, Request(op)).tables == t
    ensures Request(op) != [] && Request(op)[0] < 0x80
    ensures Serve(t, Request(op)).reply == Bytes([Request(op)[0] + 0x80, 0x02])
    ensures Decode(op, Serve(t, Request(op)).reply.bytes) == Refused(2)
  {
    hide PackedBits;
    hide Words;
    match op
    case ReadCoils(addr, qty) => HeaderOnly(1, addr, qty);
    case ReadDiscrete(addr, qty) => HeaderOnly(2, addr, qty);
    case ReadHolding(addr, qty) => HeaderOnly(3, addr, qty);
    case ReadInputs(addr, qty) => HeaderOnly(4, addr, qty);
    case WriteCoil(addr, on) => HeaderOnly(5, addr, if on then 0xFF00 else 0);
    case WriteRegister(addr, val) => HeaderOnly(6, addr, val);
    case SetCoils(addr, bits) => RequestBody(15, addr, |bits|, PackedBits(bits));
    case SetRegisters(addr, vals) => RequestBody(16, addr, |vals|, Words(vals));
  }

  /**
   Requests no master sends: an unknown function gets exception 01; one that ends too early, or asks for
   more than fits an answer, ends the server.  None of them changes anything.
   */
  lemma OddRequests(t: Tables, pdu: seq<byte>)
    requires Sized(t)
    ensures pdu != [] && pdu[0] !in {1, 2, 3, 4, 5, 6, 15, 16} ==>
      Serve(t, pdu) == Effect(Bytes([if pdu[0] < 0x80 then pdu[0] + 0x80 else pdu[0], 0x01]), t)
    ensures pdu == [] || (pdu[0] in {1, 2, 3, 4, 5, 6} && |pdu| < 5) || (pdu[0] in {15, 16} && |pdu| < 6) ==>
      Serve(t, pdu) == Effect(Crash, t)
    ensures |pdu| >= 5 && pdu[0] in {1, 2, 3, 4} ==>
      var addr, qty := 256 * pdu[1] as int + pdu[2] as int, 256 * pdu[3] as int + pdu[4] as int;
      && Serve(t, pdu).tables == t
      && (Serve(t, pdu).reply.Crash? <==> addr + qty <= 0x9000 && qty > if pdu[0] <= 2 then 2040 else 127)
  {
    hide PackedBits;
    hide Words;
  }

  // ----- the bytes on the wire -----

  /** High byte first, as every field of a request and of a reply is sent. */
  ghost predicate IsWord(s: seq<byte>, k: nat, v: nat) {
    k + 2 <= |s| && s[k] as nat == v / 256 && s[k + 1] as nat == v % 256
  }

  /** Behind a byte with their count come the bytes of these bits, the lowest bit of the first byte first. */
  ghost predicate CarriesBits(s: seq<byte>, k: nat, values: seq<bool>) {
    && k < |s| && |s| == k + 1 + s[k] as int && 8 * s[k] as int - 8 < |values| <= 8 * s[k] as int
    && forall i :: 0 <= i < |values| ==> (Bit(s[k + 1 + i / 8], i % 8) <==> values[i])
  }

  /** Behind a byte with their count come the bytes of these words. */
  ghost predicate CarriesWords(s: seq<byte>, k: nat, values: seq<nat>) {
    && k < |s| && |s| == k + 1 + s[k] as int && s[k] as int == 2 * |values|
    && forall i :: 0 <= i < |values| ==> IsWord(s, k + 1 + 2 * i, values[i])
  }

  lemma PackedIsCarried(front: seq<byte>, data: seq<byte>, values: seq<bool>)
    requires front != [] && front[|front| - 1] as int == |data| && Packed(values, data)
    ensures CarriesBits(front + data, |front| - 1, values)
  {
    hide Bit;
    var s, k := front + data, |front| - 1;
    forall i | 0 <= i < |values|
      ensures Bit(s[k + 1 + i / 8], i % 8) <==> values[i]
    {
      assert s[k + 1 + i / 8] == data[i / 8];
    }
  }

  lemma BitsAreCarried(head: seq<byte>, values: seq<bool>)
    requires BytesFor(|values|) <= 255
    ensures CarriesBits(head + [BytesFor(|values|)] + PackedBits(values), |head|, values)
  {
    hide PackedBits;
    hide Packed;
    hide CarriesBits;
    PackedBitsArePacked(values);
    PackedIsCarried(head + [BytesFor(|values|)], PackedBits(values), values);
  }

  /** The data of a message are these words. */
  ghost predicate AreWords(data: seq<byte>, values: seq<nat>) {
    |data| == 2 * |values| && forall i :: 0 <= i < |values| ==> WordAt(data, 2 * i) == values[i]
  }

  lemma WordsAre(values: seq<nat>)
    requires forall i :: 0 <= i < |values| ==> values[i] < 0x10000
    ensures AreWords(Words(values), values)
  {
  }

  lemma WordsFollow(front: seq<byte>, data: seq<byte>, values: seq<nat>)
    requires front != [] && front[|front| - 1] as int == |data| && AreWords(data, values)
    ensures CarriesWords(front + data, |front| - 1, values)
  {
    var s, k := front + data, |front| - 1;
    forall i | 0 <= i < |values|
      ensures IsWord(s, k + 1 + 2 * i, values[i])
    {
      assert WordAt(data, 2 * i) == values[i];
      assert s[k + 1 + 2 * i] == data[2 * i] && s[k + 2 + 2 * i] == data[2 * i + 1];
    }
  }

  lemma WordsAreCarried(head: seq<byte>, values: seq<nat>)
    requires 2 * |values| <= 255 && forall i :: 0 <= i < |values| ==> values[i] < 0x10000
    ensures CarriesWords(head + [2 * |values|] + Words(values), |head|, values)
  {
    hide CarriesWords;
    hide AreWords;
    hide WordAt;
    hide Words;
    WordsAre(values);
    WordsFollow(head + [2 * |values|], Words(values), values);
  }

  /** The bytes of each request: function code, address, and what follows. */
  lemma RequestBytes(op: Op)
    requires WellFormed(op)
    ensures var r := Request(op);
      && |r| >= 5 && IsWord(r, 1, op.addr)
      && match op {
        case ReadCoils(_, qty) => r[0] == 1 && |r| == 5 && IsWord(r, 3, qty)
        case ReadDiscrete(_, qty) => r[0] == 2 && |r| == 5 && IsWord(r, 3, qty)
        case ReadHolding(_, qty) => r[0] == 3 && |r| == 5 && IsWord(r, 3, qty)
        case ReadInputs(_, qty) => r[0] == 4 && |r| == 5 && IsWord(r, 3, qty)
        case WriteCoil(_, on) => r[0] == 5 && |r| == 5 && IsWord(r, 3, if on then 0xFF00 else 0)
        case WriteRegister(_, val) => r[0] == 6 && |r| == 5 && IsWord(r, 3, val)
        case SetCoils(_, bits) => r[0] == 15 && IsWord(r, 3, |bits|) && CarriesBits(r, 5, bits)
        case SetRegisters(_, vals) => r[0] == 16 && IsWord(r, 3, |vals|) && CarriesWords(r, 5, vals)
      }
  {
    hide PackedBits;
    hide Words;
    hide CarriesBits;
    hide CarriesWords;
    match op {
      case SetCoils(addr, bits) => BitsAreCarried(Header(15, addr, |bits|), bits);
      case SetRegisters(addr, vals) => WordsAreCarried(Header(16, addr, |vals|), vals);
      case _ =>
    }
  }

  lemma DataCarriesBits(fc: byte, values: seq<bool>)
    requires BytesFor(|values|) <= 255
    ensures Data(fc, PackedBits(values)) == Bytes([fc, BytesFor(|values|)] + PackedBits(values))
    ensures CarriesBits([fc, BytesFor(|values|)] + PackedBits(values), 1, values)
  {
    hide CarriesBits;
    hide PackedBits;
    BitsAreCarried([fc], values);
    assert [fc] + [BytesFor(|values|)] == [fc, BytesFor(|values|)];
  }

  lemma DataCarriesWords(fc: byte, values: seq<nat>)
    requires 2 * |values| <= 255 && forall i :: 0 <= i < |values| ==> values[i] < 0x10000
    ensures Data(fc, Words(values)) == Bytes([fc, 2 * |values|] + Words(values))
    ensures CarriesWords([fc, 2 * |values|] + Words(values), 1, values)
  {
    hide CarriesWords;
    hide WordAt;
    hide Words;
    WordsAreCarried([fc], values);
    assert [fc] + [2 * |values|] == [fc, 2 * |values|];
  }

  /** The bytes of the answer to a read in range: function code, length and data. */
  lemma ReadReplyBytes(t: Tables, op: Op)
    requires Sized(t) && WellFormed(op) && op.addr + Count(op) <= 0x9000 && (ReadsBits(op) || ReadsWords(op))
    ensures Serve(t, Request(op)).reply.Bytes? && |Request(op)| == 5
    ensures var r, a := Serve(t, Request(op)).reply.bytes, op.addr;
      && |r| > 0 && r[0] == Request(op)[0]
      && match op {
        case ReadCoils(_, qty) => CarriesBits(r, 1, t.coils[a..a + qty])
        case ReadDiscrete(_, qty) => CarriesBits(r, 1, t.discrete[a..a + qty])
        case ReadHolding(_, qty) => CarriesWords(r, 1, t.holding[a..a + qty])
        case ReadInputs(_, qty) => CarriesWords(r, 1, t.inputs[a..a + qty])
        case _ => true
      }
  {
    hide WordAt;
    hide WordBytes;
    hide PackedBits;
    hide Words;
    hide Data;
    hide CarriesBits;
    hide CarriesWords;
    match op {
      case ReadCoils(addr, qty) =>
        HeaderOnly(1, addr, qty);
        DataCarriesBits(1, t.coils[addr..addr + qty]);
      case ReadDiscrete(addr, qty) =>
        HeaderOnly(2, addr, qty);
        DataCarriesBits(2, t.discrete[addr..addr + qty]);
      case ReadHolding(addr, qty) =>
        HeaderOnly(3, addr, qty);
        DataCarriesWords(3, t.holding[addr..addr + qty]);
      case ReadInputs(addr, qty) =>
        HeaderOnly(4, addr, qty);
        DataCarriesWords(4, t.inputs[addr..addr + qty]);
    }
  }

  /** The answer to a write in range is the start of the request again. */
  lemma WriteReplyBytes(t: Tables, op: Op)
    requires Sized(t) && WellFormed(op) && op.addr + Count(op) <= 0x9000 && !ReadsBits(op) && !ReadsWords(op)
    ensures |Request(op)| >= 5 && Serve(t, Request(op)).reply == Bytes(Request(op)[..5])
  {
    hide WordAt;
    hide WordBytes;
    hide BitsWritten;
    hide WordsWritten;
    hide Body;
    hide PackedBits;
    hide Words;
    match op {
      case WriteCoil(addr, on) => HeaderOnly(5, addr, if on then 0xFF00 else 0);
      case WriteRegister(addr, val) => HeaderOnly(6, addr, val);
      case SetCoils(addr, bits) => RequestBody(15, addr, |bits|, PackedBits(bits));
      case SetRegisters(addr, vals) => RequestBody(16, addr, |vals|, Words(vals));
    }
  }

  // ----- sessions -----

  /** The answers of the server to a list of operations. */
  ghost function Session(t: Tables, ops: seq<Op>): seq<Answer>
    requires Sized(t) && forall i :: 0 <= i < |ops| ==> WellFormed(ops[i])
    decreases |ops|
  {
    if ops == [] then []
    else
      var e := Serve(t, Request(ops[0]));
      ServeKeepsSized(t, Request(ops[0]));
      [if e.reply.Bytes? then Decode(ops[0], e.reply.bytes) else Malformed] + Session(e.tables, ops[1..])
  }

  /** The answers of plain arrays, where operations out of range are refused. */
  ghost function PlainSession(t: Tables, ops: seq<Op>): seq<Answer>
    requires |t.coils| == |t.discrete| == |t.holding| == |t.inputs| == SIZE
    decreases |ops|
  {
    if ops == [] then []
    else if InRange(ops[0]) then [PlainAnswer(t, ops[0])] + PlainSession(PlainNext(t, ops[0]), ops[1..])
    else [Refused(ILLEGAL_ADDRESS)] + PlainSession(t, ops[1..])
  }

  /** For any sequence of well-formed operations the master sees plain arrays. */
  lemma {:induction false} SessionIsPlain(t: Tables, ops: seq<Op>)
    requires Sized(t) && forall i :: 0 <= i < |ops| ==> WellFormed(ops[i])
    ensures Session(t, ops) == PlainSession(t, ops)
    decreases |ops|
  {
    hide Serve;
    hide Request;
    hide WellFormed;
    if ops != [] {
      var op := ops[0];
      ServeKeepsSized(t, Request(op));
      if InRange(op) {
        OperationIsPlain(t, op);
      } else {
        OutOfRangeIsRefused(t, op);
      }
      SessionIsPlain(Serve(t, Request(op)).tables, ops[1..]);
    }
  }

  // ----- short bodies -----

  /** A request to write several coils that announces more of them than its body holds. */
  predicate Short(pdu: seq<byte>) {
    |pdu| >= 6 && pdu[0] == 15 && WordAt(pdu, 1) + WordAt(pdu, 3) <= BAD && 0 < 8 * |Body(pdu)| < WordAt(pdu, 3)
  }

  ghost predicate ChangesNothing(pdu: seq<byte>) {
    forall t :: Sized(t) ==> Serve(t, pdu).tables == t
  }

  /** A refused request changes nothing, except in one case: a short body has been written in part. */
  lemma RefusedChangesNothing(t: Tables, pdu: seq<byte>)
    requires Sized(t) && pdu != [] && Serve(t, pdu).reply == Refusal(pdu[0], ILLEGAL_ADDRESS)
    ensures ChangesNothing(pdu) <==> !Short(pdu)
  {
    hide PackedBits;
    hide Words;
    if Short(pdu) {
      var addr, body := WordAt(pdu, 1), Body(pdu);
      var coils := seq(SIZE, j requires 0 <= j < SIZE => !Bit(body[0], 0));
      var cells: seq<nat> := seq<nat>(SIZE, j => 0);
      var other := Tables(coils, coils, cells, cells);
      assert Serve(other, pdu).tables.coils[addr] != coils[addr];
    } else {
      forall s | Sized(s)
        ensures Serve(s, pdu).tables == s
      {
        RefusedKeeps(t, s, pdu);
      }
    }
  }

  lemma RefusedKeeps(t: Tables, s: Tables, pdu: seq<byte>)
    requires Sized(t) && Sized(s) && pdu != [] && !Short(pdu) && Serve(t, pdu).reply == Refusal(pdu[0], ILLEGAL_ADDRESS)
    ensures Serve(s, pdu).tables == s
  {
    hide PackedBits;
    hide Words;
    if pdu[0] == 15 && |pdu| >= 6 && WordAt(pdu, 1) + WordAt(pdu, 3) <= BAD {
      assert BitsWritten(s.coils, WordAt(pdu, 1), Body(pdu), 0) == s.coils;
    }
  }

  /** A request that shows it: nine coils from address 0, of which the body has eight. */
  lemma ShortWriteIsSeen(t: Tables)
    requires Started(t)
    ensures var request := [15, 0, 0, 0, 9, 1, 0xFF];
      && Short(request) && Serve(t, request).reply == Refusal(15, ILLEGAL_ADDRESS)
      && !t.coils[1] && Serve(t, request).tables.coils[1]
  {
    var request: seq<byte> := [15, 0, 0, 0, 9, 1, 0xFF];
    assert Body(request) == [0xFF];
    assert Bit(0xFF, 1);
  }
}
