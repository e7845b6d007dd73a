/** The wire protocol: packets as lists of typed fields over host memory. */
module Protocol {
  import opened CStrings

  type byte = b: int | 0 <= b < 256
  const DWORD: nat := 0x1_0000_0000

  datatype FieldType = UINT32 | INT32 | FLOAT32 | BYTE

  datatype ByteOrder = LittleEndian | BigEndian

  function Width(ft: FieldType): nat { if ft.BYTE? then 1 else 4 }

  // ----- Dwords in memory -----

  /** The four octets of a dword, most significant first. */
  function NetworkOrder(v: nat): (s: seq<byte>)
    requires v < DWORD
    ensures |s| == 4
  {
    var a := v / 256;
    var b := a / 256;
    [b / 256, b % 256, a % 256, v % 256]
  }

  function FromNetworkOrder(s: seq<byte>): (v: nat)
    requires |s| == 4
    ensures v < DWORD
  {
    var a: int, b: int, c: int, d: int := s[0], s[1], s[2], s[3];
    ((a * 256 + b) * 256 + c) * 256 + d
  }

  function Swapped(s: seq<byte>): (r: seq<byte>)
    requires |s| == 4
    ensures |r| == 4
  {
    [s[3], s[2], s[1], s[0]]
  }

  /** How the host lays a dword out in memory. */
  function ToMemory(v: nat, order: ByteOrder): (s: seq<byte>)
    requires v < DWORD
    ensures |s| == 4
  {
    if order.BigEndian? then NetworkOrder(v) else Swapped(NetworkOrder(v))
  }

  function FromMemory(s: seq<byte>, order: ByteOrder): (v: nat)
    requires |s| == 4
    ensures v < DWORD
  {
    if order.BigEndian? then FromNetworkOrder(s) else FromNetworkOrder(Swapped(s))
  }

  lemma ValueOfOctets(v: nat)
    requires v < DWORD
    ensures FromNetworkOrder(NetworkOrder(v)) == v
  {
  }

  /** The dword v stands at index i, most significant octet first. */
  predicate DwordAt(s: seq<byte>, i: nat, v: nat) {
    && i + 4 <= |s|
    && var (a: int, b: int, c: int, d: int) := (s[i], s[i + 1], s[i + 2], s[i + 3]);
       v == a * 0x100_0000 + b * 0x1_0000 + c * 0x100 + d
  }

  lemma NetworkOrderMeans(v: nat)
    requires v < DWORD
    ensures DwordAt(NetworkOrder(v), 0, v)
  {
  }

  lemma OctetsOfValue(s: seq<byte>)
    requires |s| == 4
    ensures NetworkOrder(FromNetworkOrder(s)) == s
  {
    var a: int, b: int, c: int, d: int := s[0], s[1], s[2], s[3];
    var n := FromNetworkOrder(s);
    assert n / 256 == (a * 256 + b) * 256 + c;
    assert n / 256 / 256 == a * 256 + b;
    assert n / 256 / 256 / 256 == a;
  }

  lemma MemoryRoundTrip(v: nat, s: seq<byte>, order: ByteOrder)
    requires v < DWORD && |s| == 4
    ensures FromMemory(ToMemory(v, order), order) == v
    ensures ToMemory(FromMemory(s, order), order) == s
  {
    hide NetworkOrder, FromNetworkOrder;
    ValueOfOctets(v);
    OctetsOfValue(s);
    OctetsOfValue(Swapped(s));
    assert Swapped(Swapped(s)) == s && Swapped(Swapped(NetworkOrder(v))) == NetworkOrder(v);
  }

  /** htonl and ntohl: a byte swap on little-endian hosts. */
  function Htonl(v: nat, order: ByteOrder): (r: nat)
    requires v < DWORD
    ensures r < DWORD
  {
    if order.BigEndian? then v else FromNetworkOrder(Swapped(NetworkOrder(v)))
  }

  /** The dword whose memory image is what goes on the wire. */
  function NetworkDword(mem: seq<byte>, order: ByteOrder): (r: nat)
    requires |mem| == 4
    ensures r < DWORD
  {
    Htonl(FromMemory(mem, order), order)
  }

  /** On every host the wire carries the host's value in network order. */
  lemma NetworkDwordIsNetworkOrder(mem: seq<byte>, order: ByteOrder)
    requires |mem| == 4
    ensures ToMemory(NetworkDword(mem, order), order) == NetworkOrder(FromMemory(mem, order))
  {
    var v := FromMemory(mem, order);
    MemoryRoundTrip(v, Swapped(NetworkOrder(v)), BigEndian);
  }

  /** Reading a dword off the wire and storing it. */
  function ReadDword(wire: seq<byte>, order: ByteOrder): (mem: seq<byte>)
    requires |wire| == 4
    ensures |mem| == 4
  {
    ToMemory(Htonl(FromMemory(wire, order), order), order)
  }

  /** A reader on any host ends up with the value that was sent. */
  lemma ReadDwordGetsValue(v: nat, order: ByteOrder)
    requires v < DWORD
    ensures FromMemory(ReadDword(NetworkOrder(v), order), order) == v
  {
    var w := NetworkOrder(v);
    MemoryRoundTrip(v, w, BigEndian);
    MemoryRoundTrip(FromMemory(w, order), w, order);
    MemoryRoundTrip(Htonl(FromMemory(w, order), order), w, order);
    assert Swapped(Swapped(w)) == w;
    MemoryRoundTrip(FromNetworkOrder(Swapped(w)), Swapped(w), BigEndian);
  }

  // ----- Field layouts -----

  function Limit(ft: FieldType): nat { if ft.BYTE? then 256 else DWORD }

  predicate Fits(layout: seq<FieldType>, values: seq<nat>) {
    |layout| == |values| && forall i | 0 <= i < |layout| :: values[i] < Limit(layout[i])
  }

  function Size(layout: seq<FieldType>): nat {
    if layout == [] then 0 else Width(layout[0]) + Size(layout[1..])
  }

  /** The wire image of a field: a byte as it is, a dword in network order. */
  function FieldBytes(ft: FieldType, v: nat): (s: seq<byte>)
    requires v < Limit(ft)
    ensures |s| == Width(ft)
  {
    if ft.BYTE? then [v] else NetworkOrder(v)
  }

  function ReadField(ft: FieldType, buf: seq<byte>): (v: nat)
    requires |buf| >= Width(ft)
    ensures v < Limit(ft)
  {
    if ft.BYTE? then buf[0] else FromNetworkOrder(buf[..4])
  }

  function EncodeValues(layout: seq<FieldType>, values: seq<nat>): (s: seq<byte>)
    requires Fits(layout, values)
    ensures |s| == Size(layout)
  {
    if layout == [] then [] else FieldBytes(layout[0], values[0]) + EncodeValues(layout[1..], values[1..])
  }

  function DecodeValues(layout: seq<FieldType>, buf: seq<byte>): (values: seq<nat>)
    requires |buf| >= Size(layout)
    ensures Fits(layout, values)
  {
    if layout == [] then []
    else [ReadField(layout[0], buf)] + DecodeValues(layout[1..], buf[Width(layout[0])..])
  }

  lemma FieldRoundTrip(ft: FieldType, v: nat, rest: seq<byte>)
    requires v < Limit(ft)
    ensures ReadField(ft, FieldBytes(ft, v) + rest) == v
    ensures (FieldBytes(ft, v) + rest)[Width(ft)..] == rest
  {
    if !ft.BYTE? {
      hide NetworkOrder, FromNetworkOrder;
      ValueOfOctets(v);
      assert (FieldBytes(ft, v) + rest)[..4] == NetworkOrder(v);
    }
  }

  lemma DecodeCons(layout: seq<FieldType>, v: nat, tail: seq<byte>)
    requires layout != [] && v < Limit(layout[0]) && |tail| >= Size(layout[1..])
    ensures var s := FieldBytes(layout[0], v) + tail;
            |s| >= Size(layout) && DecodeValues(layout, s) == [v] + DecodeValues(layout[1..], tail)
  {
    hide FieldBytes, ReadField;
    FieldRoundTrip(layout[0], v, tail);
  }

  /** Whatever bytes follow, decoding gives back the encoded values. */
  lemma {:induction false} ValuesRoundTrip(layout: seq<FieldType>, values: seq<nat>, rest: seq<byte>)
    requires Fits(layout, values)
    ensures DecodeValues(layout, EncodeValues(layout, values) + rest) == values
  {
    if layout == [] {
      assert values == [];
    } else {
      hide FieldBytes, ReadField, DecodeValues;
      var tail := EncodeValues(layout[1..], values[1..]) + rest;
      ValuesRoundTrip(layout[1..], values[1..], rest);
      DecodeCons(layout, values[0], tail);
      assert EncodeValues(layout, values) + rest == FieldBytes(layout[0], values[0]) + tail;
      assert values == [values[0]] + values[1..];
    }
  }

  lemma EncodeStep(layout: seq<FieldType>, values: seq<nat>, i: nat)
    requires Fits(layout, values) && i < |layout|
    ensures Fits(layout[i..], values[i..]) && Fits(layout[i + 1..], values[i + 1..])
    ensures EncodeValues(layout[i..], values[i..]) ==
            FieldBytes(layout[i], values[i]) + EncodeValues(layout[i + 1..], values[i + 1..])
  {
    assert layout[i..][1..] == layout[i + 1..] && values[i..][1..] == values[i + 1..];
  }

  lemma DecodeStep(layout: seq<FieldType>, buf: seq<byte>, i: nat, read: nat)
    requires i < |layout| && read <= |buf| && |buf| - read >= Size(layout[i..])
    ensures Size(layout[i..]) == Width(layout[i]) + Size(layout[i + 1..])
    ensures DecodeValues(layout[i..], buf[read..]) ==
            [ReadField(layout[i], buf[read..])] + DecodeValues(layout[i + 1..], buf[read + Width(layout[i])..])
  {
    assert layout[i..][1..] == layout[i + 1..];
    assert buf[read..][Width(layout[i])..] == buf[read + Width(layout[i])..];
  }

  /** The next value of a decoding in progress. */
  lemma DecodeAt(layout: seq<FieldType>, buf: seq<byte>, i: nat, read: nat, goal: seq<nat>)
    requires i < |layout| == |goal| && read <= |buf| && |buf| - read >= Size(layout[i..])
    requires DecodeValues(layout[i..], buf[read..]) == goal[i..]
    ensures Size(layout[i..]) == Width(layout[i]) + Size(layout[i + 1..])
    ensures ReadField(layout[i], buf[read..]) == goal[i]
    ensures DecodeValues(layout[i + 1..], buf[read + Width(layout[i])..]) == goal[i + 1..]
  {
    DecodeStep(layout, buf, i, read);
    assert goal[i..][0] == goal[i] && goal[i..][1..] == goal[i + 1..];
  }

  // ----- Packets -----

  /** A packet object: typed pointers into host memory. */
  class Packet {
    const order: ByteOrder
    var fields: seq<(FieldType, array<byte>)>

    constructor (order: ByteOrder)
      ensures Valid() && fields == [] && this.order == order
    {
      this.order := order;
      fields := [];
    }

    ghost predicate Valid()
      reads this
    {
      && (forall i | 0 <= i < |fields| :: fields[i].1.Length >= Width(fields[i].0))
      && (forall i, j | 0 <= i < j < |fields| :: fields[i].1 != fields[j].1)
    }

    ghost function Memory(): set<array<byte>>
      reads this
    {
      set i | 0 <= i < |fields| :: fields[i].1
    }

    function Layout(): (l: seq<FieldType>)
      reads this
      ensures |l| == |fields|
    {
      seq(|fields|, i requires 0 <= i < |fields| reads this => fields[i].0)
    }

    /** The value the host sees in field i. */
    function ValueAt(i: nat): (v: nat)
      requires Valid() && i < |fields|
      reads this, Memory()
      ensures v < Limit(fields[i].0)
    {
      CellValue(fields[i].0, fields[i].1)
    }

    /** The memory behind field i that the field does not cover. */
    ghost function Uncovered(i: nat): seq<byte>
      requires Valid() && i < |fields|
      reads this, Memory()
    {
      fields[i].1[Width(fields[i].0)..]
    }

    ghost function Values(): (v: seq<nat>)
      requires Valid()
      reads this, Memory()
      ensures Fits(Layout(), v)
    {
      seq(|fields|, i requires 0 <= i < |fields| && Valid() reads this, Memory() => ValueAt(i))
    }

    function CellValue(ft: FieldType, ptr: array<byte>): (v: nat)
      requires ptr.Length >= Width(ft)
      reads ptr
      ensures v < Limit(ft)
    {
      if ft.BYTE? then ptr[0] else FromMemory(ptr[..4], order)
    }

    method AddField(ft: FieldType, ptr: array<byte>)
      requires Valid() && ptr.Length >= Width(ft) && ptr !in Memory()
      modifies this
      ensures Valid() && fields == old(fields) + [(ft, ptr)] && Memory() == old(Memory()) + {ptr}
      ensures Layout() == old(Layout()) + [ft]
      ensures Values() == old(Values()) + [CellValue(ft, ptr)]
    {
      fields := fields + [(ft, ptr)];
      assert fields[|fields| - 1].1 == ptr;
      forall q | q in old(Memory()) ensures q in Memory() {
        var i :| 0 <= i < |old(fields)| && old(fields)[i].1 == q;
        assert fields[i].1 == q;
      }
    }

    /** Appends the bytes of field i. */
    method PushField(buffer: seq<byte>, i: nat) returns (pushed: seq<byte>)
      requires Valid() && i < |fields|
      ensures pushed == buffer + FieldBytes(fields[i].0, ValueAt(i))
    {
      hide NetworkOrder, FromNetworkOrder;
      var (ft, ptr) := fields[i];
      pushed := buffer;
      if ft.BYTE? {
        pushed := pushed + [ptr[0]];
      } else {
        var netdw := NetworkDword(ptr[..4], order);
        var bytes := ToMemory(netdw, order);
        NetworkDwordIsNetworkOrder(ptr[..4], order);
        for j := 0 to 4
          invariant pushed == buffer + bytes[..j]
        {
          pushed := pushed + [bytes[j]];
        }
        assert bytes[..4] == bytes;
      }
    }

    method Serialize() returns (b: array<byte>)
      requires Valid()
      ensures fresh(b) && b[..] == EncodeValues(Layout(), Values())
    {
      hide FieldBytes, EncodeValues;
      ghost var layout, values := Layout(), Values();
      var buffer: seq<byte> := [];
      assert layout[0..] == layout && values[0..] == values;
      EncodeNone();
      for i := 0 to |fields|
        invariant Fits(layout[i..], values[i..])
        invariant buffer + EncodeValues(layout[i..], values[i..]) == EncodeValues(layout, values)
      {
        EncodeStep(layout, values, i);
        ghost var field, rest := FieldBytes(layout[i], values[i]), EncodeValues(layout[i + 1..], values[i + 1..]);
        assert buffer + (field + rest) == buffer + field + rest;
        buffer := PushField(buffer, i);
      }
      assert layout[|fields|..] == [] && values[|fields|..] == [] && buffer + [] == buffer;
      b := new byte[|buffer|];
      for i := 0 to |buffer|
        invariant b[..i] == buffer[..i]
      {
        b[i] := buffer[i];
      }
      assert b[..] == buffer;
      assert Layout() == layout && forall i | 0 <= i < |fields| :: ValueAt(i) == values[i];
      assert Values() == values;
    }

    /** Stores the field values found in buf; the bytes a field does not cover stay. */
    method Deserialize(buf: seq<byte>) returns (read: nat)
      requires Valid() && |buf| >= Size(Layout())
      modifies Memory()
      ensures read == Size(Layout()) && Values() == DecodeValues(Layout(), buf)
      ensures forall i | 0 <= i < |fields| :: Uncovered(i) == old(Uncovered(i))
    {
      hide ReadField, DecodeValues, ValueAt, Uncovered, Size;
      SizeNone();
      read := 0;
      ghost var layout := Layout();
      ghost var goal := DecodeValues(layout, buf);
      assert layout[0..] == layout && buf[0..] == buf && goal[0..] == goal && layout[|layout|..] == [];
      for i := 0 to |fields|
        invariant fields == old(fields) && Valid()
        invariant read + Size(layout[i..]) == Size(layout) && read <= |buf|
        invariant forall j | 0 <= j < i :: ValueAt(j) == goal[j]
        invariant DecodeValues(layout[i..], buf[read..]) == goal[i..]
        invariant forall j | 0 <= j < |fields| :: Uncovered(j) == old(Uncovered(j))
      {
        DecodeAt(layout, buf, i, read, goal);
        StoreField(i, buf[read..]);
        read := read + Width(fields[i].0);
      }
    }

    method StoreField(i: nat, wire: seq<byte>)
      requires Valid() && i < |fields| && |wire| >= Width(fields[i].0)
      modifies fields[i].1
      ensures ValueAt(i) == ReadField(fields[i].0, wire)
      ensures forall j | 0 <= j < |fields| && j != i :: ValueAt(j) == old(ValueAt(j))
      ensures forall j | 0 <= j < |fields| :: Uncovered(j) == old(Uncovered(j))
    {
      hide NetworkOrder, FromNetworkOrder;
      var (ft, ptr) := fields[i];
      if ft.BYTE? {
        ptr[0] := wire[0];
      } else {
        var mem := ReadDword(wire[..4], order);
        ptr[0], ptr[1], ptr[2], ptr[3] := mem[0], mem[1], mem[2], mem[3];
        assert ptr[..4] == mem;
        OctetsOfValue(wire[..4]);
        ReadDwordGetsValue(FromNetworkOrder(wire[..4]), order);
      }
      forall j | 0 <= j < |fields| && j != i
        ensures ValueAt(j) == old(ValueAt(j)) && Uncovered(j) == old(Uncovered(j))
      {
        assert fields[j].1 != ptr && fields[j].1[..] == old(fields[j].1[..]);
      }
    }

    static lemma EncodeNone()
      ensures EncodeValues([], []) == []
    {
    }

    static lemma SizeNone()
      ensures Size([]) == 0
    {
    }
  }

  /** What one host serialises another reads back, whatever the byte order of either and whatever follows. */
  method SendAndReceive(p: Packet, q: Packet, rest: seq<byte>) returns (read: nat)
    requires p.Valid() && q.Valid() && p.Layout() == q.Layout()
    modifies q.Memory()
    ensures q.Values() == old(p.Values()) && q.Layout() == old(q.Layout()) && read == Size(q.Layout())
  {
    ghost var layout, values := p.Layout(), p.Values();
    var sent := p.Serialize();
    assert p.Layout() == layout && p.Values() == values;
    var buf := sent[..] + rest;
    Arrives(layout, values, sent[..], rest);
    assert q.Layout() == layout;
    read := q.Deserialize(buf);
    assert q.Layout() == layout;
  }

  lemma Arrives(layout: seq<FieldType>, values: seq<nat>, sent: seq<byte>, rest: seq<byte>)
    requires Fits(layout, values) && sent == EncodeValues(layout, values)
    ensures |sent + rest| >= Size(layout) && DecodeValues(layout, sent + rest) == values
  {
    EncodedSize(layout, values);
    ValuesRoundTrip(layout, values, rest);
  }

  lemma EncodedSize(layout: seq<FieldType>, values: seq<nat>)
    requires Fits(layout, values)
    ensures |EncodeValues(layout, values)| == Size(layout)
  {
  }

  // ----- The packets of the lobby -----

  datatype Message =
    | JoinRequest(port: nat)
    | JoinResponse(response: bool, playerID: nat, team: nat)
    | PlayerDidJoin(playerID: nat, team: nat)
    | PlayerDidLeave(playerID: nat)
    | ServerShutdown
  {
    /** The fields are C++ unsigned integers. */
    predicate Valid() {
      match this
      case JoinRequest(port) => port < DWORD
      case JoinResponse(_, playerID, team) => playerID < DWORD && team < DWORD
      case PlayerDidJoin(playerID, team) => playerID < DWORD && team < DWORD
      case PlayerDidLeave(playerID) => playerID < DWORD
      case ServerShutdown => true
    }

    function Type(): (t: byte)
      ensures 1 <= t <= 5
    {
      match this
      case JoinRequest(_) => 1
      case JoinResponse(_, _, _) => 2
      case PlayerDidJoin(_, _) => 3
      case PlayerDidLeave(_) => 4
      case ServerShutdown => 5
    }

    /** The field values in the order the packet constructors list them. */
    function FieldValues(): (v: seq<nat>)
      requires Valid()
      ensures Fits(LayoutOf(Type()), v)
    {
      [Type() as nat] +
      match this
      case JoinRequest(port) => [port]
      case JoinResponse(response, playerID, team) => [if response then 1 else 0, playerID, team]
      case PlayerDidJoin(playerID, team) => [playerID, team]
      case PlayerDidLeave(playerID) => [playerID]
      case ServerShutdown => []
    }
  }

  function LayoutOf(type_: byte): seq<FieldType> {
    [BYTE] +
    match type_
    case 1 => [UINT32]
    case 2 => [BYTE, UINT32, UINT32]
    case 3 => [UINT32, UINT32]
    case 4 => [UINT32]
    case _ => []
  }

  function MessageOf(type_: byte, v: seq<nat>): (m: Message)
    requires 1 <= type_ <= 5 && Fits(LayoutOf(type_), v)
    ensures m.Type() == type_ && m.Valid()
  {
    match type_
    case 1 => assert v[1] < Limit(LayoutOf(1)[1]); JoinRequest(v[1])
    case 2 => assert v[2] < Limit(LayoutOf(2)[2]) && v[3] < Limit(LayoutOf(2)[3]); JoinResponse(v[1] != 0, v[2], v[3])
    case 3 => assert v[1] < Limit(LayoutOf(3)[1]) && v[2] < Limit(LayoutOf(3)[2]); PlayerDidJoin(v[1], v[2])
    case 4 => assert v[1] < Limit(LayoutOf(4)[1]); PlayerDidLeave(v[1])
    case _ => ServerShutdown
  }

  /** What a little-endian host sends for a message. */
  function Encode(m: Message): (s: seq<byte>)
    requires m.Valid()
    ensures |s| == Size(LayoutOf(m.Type()))
  {
    EncodeValues(LayoutOf(m.Type()), m.FieldValues())
  }

  /** The octets of each message: its type and then its fields, dwords most significant octet first. */
  lemma MessageOctets(m: Message)
    requires m.Valid()
    ensures var s := Encode(m);
            match m
            case JoinRequest(port) => |s| == 5 && s[0] == 1 && DwordAt(s, 1, port)
            case JoinResponse(response, playerID, team) =>
              |s| == 10 && s[0] == 2 && s[1] == (if response then 1 else 0)
              && DwordAt(s, 2, playerID) && DwordAt(s, 6, team)
            case PlayerDidJoin(playerID, team) =>
              |s| == 9 && s[0] == 3 && DwordAt(s, 1, playerID) && DwordAt(s, 5, team)
            case PlayerDidLeave(playerID) => |s| == 5 && s[0] == 4 && DwordAt(s, 1, playerID)
            case ServerShutdown => s == [5]
  {
    hide NetworkOrder;
    var layout, v := LayoutOf(m.Type()), m.FieldValues();
    assert layout[0..] == layout && v[0..] == v && layout[|layout|..] == [];
    forall i | 0 <= i < |layout|
      ensures EncodeValues(layout[i..], v[i..]) ==
              FieldBytes(layout[i], v[i]) + EncodeValues(layout[i + 1..], v[i + 1..])
      ensures layout[i].UINT32? ==> DwordAt(NetworkOrder(v[i]), 0, v[i])
    {
      EncodeStep(layout, v, i);
      if layout[i].UINT32? {
        NetworkOrderMeans(v[i]);
      }
    }
  }

  /** The type field is the first byte of a C++ enum, which is its value on little-endian hosts only. */
  lemma TypeOnWire(m: Message, order: ByteOrder)
    ensures ToMemory(m.Type(), order)[0] == m.Type() <==> order.LittleEndian?
    ensures ToMemory(m.Type(), order)[0] == if order.LittleEndian? then m.Type() else 0
  {
  }

  /** Builds the packet object of a message. */
  method NewPacket(m: Message, order: ByteOrder) returns (p: Packet)
    requires m.Valid()
    ensures p.Valid() && p.Layout() == LayoutOf(m.Type()) && p.order == order
    ensures p.Values()[1..] == m.FieldValues()[1..]
    ensures order.LittleEndian? ==> p.Values() == m.FieldValues()
    ensures p.Values()[0] == if order.LittleEndian? then m.Type() as nat else 0
  {
    hide NetworkOrder, FromNetworkOrder;
    hide LayoutOf, Message.FieldValues, ToMemory;
    LayoutHead(m);
    var values, layout := m.FieldValues(), LayoutOf(m.Type());
    p := new Packet(order);
    var typeCell := NewCell(UINT32, m.Type(), p);
    p.AddField(BYTE, typeCell);
    TypeOnWire(m, order);
    AddFields(p, layout[1..], values[1..]);
  }

  /** Every packet starts with its type byte. */
  lemma LayoutHead(m: Message)
    requires m.Valid()
    ensures LayoutOf(m.Type()) == [BYTE] + LayoutOf(m.Type())[1..]
    ensures m.FieldValues() == [m.Type() as nat] + m.FieldValues()[1..]
    ensures Fits(LayoutOf(m.Type())[1..], m.FieldValues()[1..])
  {
  }

  lemma AppendNext<T>(base: seq<T>, s: seq<T>, i: nat)
    requires i < |s|
    ensures base + s[..i] + [s[i]] == base + s[..i + 1]
  {
  }

  method AddFields(p: Packet, layout: seq<FieldType>, values: seq<nat>)
    requires p.Valid() && Fits(layout, values)
    modifies p
    ensures p.Valid() && p.Layout() == old(p.Layout()) + layout && p.Values() == old(p.Values()) + values
  {
    for i := 0 to |layout|
      invariant p.Valid() && fresh(p.Memory() - old(p.Memory()))
      invariant p.Layout() == old(p.Layout()) + layout[..i] && p.Values() == old(p.Values()) + values[..i]
    {
      hide Fits, ToMemory;
      ghost var known := p.Values();
      var cell := NewCell(layout[i], values[i], p);
      assert p.Values() == known;
      p.AddField(layout[i], cell);
      AppendNext(old(p.Layout()), layout, i);
      AppendNext(old(p.Values()), values, i);
    }
    assert layout[..|layout|] == layout && values[..|values|] == values;
  }

  /** A variable in host memory with the given value. */
  method NewCell(ft: FieldType, v: nat, p: Packet) returns (cell: array<byte>)
    requires v < Limit(ft)
    ensures fresh(cell) && cell.Length == Width(ft) && p.CellValue(ft, cell) == v
    ensures !ft.BYTE? ==> cell[..] == ToMemory(v, p.order)
  {
    cell := new byte[Width(ft)];
    if ft.BYTE? {
      cell[0] := v;
    } else {
      var mem := ToMemory(v, p.order);
      cell[0], cell[1], cell[2], cell[3] := mem[0], mem[1], mem[2], mem[3];
      assert cell[..4] == mem && cell[..] == mem;
      MemoryRoundTrip(v, mem, p.order);
    }
  }

  // ----- Byte queues -----

  function EncodeAll(ms: seq<Message>): seq<byte>
    requires forall m | m in ms :: m.Valid()
  {
    if ms == [] then [] else Encode(ms[0]) + EncodeAll(ms[1..])
  }

  function Cons(m: Message, rest: Option<seq<Message>>): Option<seq<Message>> {
    if rest.Some? then Some([m] + rest.value) else None
  }

  /** Reads whole packets, advancing by the count that deserializing returns. */
  function DecodeAll(buf: seq<byte>): Option<seq<Message>> {
    if buf == [] then Some([])
    else if !(1 <= buf[0] <= 5) || |buf| < Size(LayoutOf(buf[0])) then None
    else Cons(MessageOf(buf[0], DecodeValues(LayoutOf(buf[0]), buf)), DecodeAll(buf[Size(LayoutOf(buf[0]))..]))
  }

  lemma MessageRoundTrip(m: Message, rest: seq<byte>)
    requires m.Valid()
    ensures var s := Encode(m) + rest; var layout := LayoutOf(m.Type());
            && |s| >= Size(layout) >= 1 && s[0] == m.Type() && s[Size(layout)..] == rest
            && MessageOf(m.Type(), DecodeValues(layout, s)) == m
  {
    ValuesRoundTrip(LayoutOf(m.Type()), m.FieldValues(), rest);
  }

  lemma DecodeHead(m: Message, rest: seq<byte>)
    requires m.Valid()
    ensures DecodeAll(Encode(m) + rest) == Cons(m, DecodeAll(rest))
  {
    hide Encode, LayoutOf, MessageOf, DecodeValues, Size;
    MessageRoundTrip(m, rest);
  }

  /** A byte queue built from whole packets decodes to exactly the queued packets. */
  lemma {:induction false} QueueRoundTrip(ms: seq<Message>)
    requires forall m | m in ms :: m.Valid()
    ensures DecodeAll(EncodeAll(ms)) == Some(ms)
  {
    if ms == [] {
    } else {
      hide Encode, DecodeAll;
      DecodeHead(ms[0], EncodeAll(ms[1..]));
      QueueRoundTrip(ms[1..]);
      assert ms == [ms[0]] + ms[1..];
    }
  }

  /** PacketFactory::ReadPacket: packet types without a registered constructor are refused. */
  function ReadPacket(buf: seq<byte>): Option<Message>
    requires buf != [] && (buf[0] in {1, 2, 3} ==> |buf| >= Size(LayoutOf(buf[0])))
  {
    if buf[0] !in {1, 2, 3} then None else Some(MessageOf(buf[0], DecodeValues(LayoutOf(buf[0]), buf)))
  }

  /** The factory reads back joins and join answers, and never a leave or shutdown notice. */
  lemma FactoryReads(m: Message, rest: seq<byte>)
    requires m.Valid()
    ensures |Encode(m) + rest| >= Size(LayoutOf(m.Type())) >= 1 && (Encode(m) + rest)[0] == m.Type()
    ensures ReadPacket(Encode(m) + rest) == Some(m) <==> !m.PlayerDidLeave? && !m.ServerShutdown?
    ensures m.PlayerDidLeave? || m.ServerShutdown? ==> ReadPacket(Encode(m) + rest) == None
  {
    hide Encode, LayoutOf, MessageOf, DecodeValues, Size;
    MessageRoundTrip(m, rest);
  }
}
