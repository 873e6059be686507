/**
Onion packets (onion/onion.go): nested layers, their length-prefixed wire format with
random padding, and the relay step that unwraps one layer and forwards the rest.
*/
module Onion {
  import opened ByteOrder
  import opened Common

  const MIN_HOPS := 3
  const MAX_HOPS := 5
  const OVERHEAD := 60
  const FIXED_PACKET_SIZE := 512

  type Bytes16 = b: Bytes | |b| == 16 witness seq(16, _ => 0)
  type Port = n: int | 0 <= n < 0x1_0000

  datatype Address = Address(ip: Bytes16, port: Port)
  datatype Hop = Hop(address: Address, key: nat)
  datatype Packet = Packet(circuit: Bytes16, layers: seq<Bytes>, pathLen: int)

  // --- public-key encryption, as an oracle ---

  /** `enc` takes the fresh randomness as its last argument; both directions may fail. */
  datatype Kem = Kem(publicOf: nat -> nat, enc: (nat, Bytes, nat) -> Option<Bytes>, dec: (nat, Bytes) -> Option<Bytes>)

  ghost predicate Lawful(kem: Kem) {
    forall secret, m, coins :: kem.enc(kem.publicOf(secret), m, coins).Some? ==>
      var c := kem.enc(kem.publicOf(secret), m, coins).value;
      |c| == |m| + OVERHEAD && kem.dec(secret, c) == Some(m)
  }

  // --- layers ---

  function Uint16(n: nat): Bytes {
    [n / 256 % 256, n % 256]
  }

  function FromUint16(b: Bytes): (n: nat)
    requires |b| == 2
    ensures n < 0x1_0000
  {
    var high: int, low: int := b[0], b[1];
    high * 256 + low
  }

  lemma Uint16Exactly(n: nat)
    ensures FromUint16(Uint16(n)) == n % 0x1_0000
  {
  }

  lemma Uint16Back(b: Bytes)
    requires |b| == 2
    ensures Uint16(FromUint16(b)) == b
  {
  }

  function Tagged(tag: Byte, to: Address, rest: Bytes): Bytes {
    [tag] + to.ip + Uint16(to.port) + rest
  }

  const RELAY: Byte := 0
  const FINAL: Byte := 1

  /** The encrypted layer for hop i, with every later layer inside it. */
  function Layer(kem: Kem, path: seq<Hop>, inner: Bytes, coins: nat -> nat, i: nat): Option<Bytes>
    requires i < |path|
    decreases |path| - i
  {
    if i == |path| - 1 then kem.enc(path[i].key, inner, coins(i))
    else
      match Layer(kem, path, inner, coins, i + 1)
      case None => None
      case Some(c) => kem.enc(path[i].key, Tagged(RELAY, path[i + 1].address, c), coins(i))
  }

  /** Hop i gets the address of the next hop and the next layer, the last one the target and the message. */
  ghost predicate IsBuilt(kem: Kem, path: seq<Hop>, target: Address, message: Bytes, coins: nat -> nat, p: Packet) {
    && MIN_HOPS <= |path| <= MAX_HOPS
    && p.pathLen == |p.layers| == |path|
    && forall i :: 0 <= i < |path| ==> Layer(kem, path, Tagged(FINAL, target, message), coins, i) == Some(p.layers[i])
  }

  method Build(kem: Kem, circuit: Bytes16, path: seq<Hop>, target: Address, message: Bytes, coins: nat -> nat)
    returns (r: Option<Packet>)
    ensures r.Some? ==> r.value.circuit == circuit && IsBuilt(kem, path, target, message, coins, r.value)
    ensures r.Some? ==> 3 <= |path| <= 5 && |r.value.layers| == |path|
    ensures r.Some? <==>
      3 <= |path| <= 5 && Layer(kem, path, Tagged(FINAL, target, message), coins, 0).Some?
  {
    hide Tagged;
    if |path| < MIN_HOPS {
      return None;
    }
    if |path| > MAX_HOPS {
      return None;
    }
    var n := |path|;
    var inner := Tagged(FINAL, target, message);
    var layers: seq<Bytes> := seq(n, _ => []);
    var current := inner;
    var i := n;
    while i > 0
      invariant 0 <= i <= n && |layers| == n
      invariant current == if i == n then inner else layers[i]
      invariant forall j :: i <= j < n ==> Layer(kem, path, inner, coins, j) == Some(layers[j])
    {
      i := i - 1;
      var payload := if i == n - 1 then current else Tagged(RELAY, path[i + 1].address, current);
      var encrypted := kem.enc(path[i].key, payload, coins(i));
      if encrypted.None? {
        NoLayerAbove(kem, path, inner, coins, i);
        return None;
      }
      layers := layers[i := encrypted.value];
      current := encrypted.value;
    }
    return Some(Packet(circuit, layers, n));
  }

  lemma {:induction false} NoLayerAbove(kem: Kem, path: seq<Hop>, inner: Bytes, coins: nat -> nat, i: nat)
    requires i < |path| && Layer(kem, path, inner, coins, i).None?
    ensures Layer(kem, path, inner, coins, 0).None?
  {
    if i > 0 {
      NoLayerAbove(kem, path, inner, coins, i - 1);
    }
  }

  datatype Unwrapped = Relay(next: Address, payload: Bytes) | Final(target: Address, message: Bytes) | Unreadable

  function UnwrapOne(kem: Kem, secret: nat, encrypted: Bytes): Unwrapped {
    match kem.dec(secret, encrypted)
    case None => Unreadable
    case Some(plain) =>
      if |plain| < 19 then Unreadable
      else
        var to := Address(plain[1..17], FromUint16(plain[17..19]));
        if plain[0] == RELAY then Relay(to, plain[19..])
        else if plain[0] == FINAL then Final(to, plain[19..])
        else Unreadable
  }

  lemma TaggedParts(tag: Byte, to: Address, rest: Bytes)
    ensures var plain := Tagged(tag, to, rest);
      && |plain| == 19 + |rest| && plain[0] == tag && plain[1..17] == to.ip
      && FromUint16(plain[17..19]) == to.port && plain[19..] == rest
  {
    var plain := Tagged(tag, to, rest);
    assert plain[17..19] == Uint16(to.port);
    Uint16Exactly(to.port);
  }

  /** A layer is understood exactly if what it decrypts to is the tag 0 or 1, an address and the rest. */
  lemma UnwrapsExactly(kem: Kem, secret: nat, encrypted: Bytes, to: Address, rest: Bytes)
    ensures UnwrapOne(kem, secret, encrypted) == Relay(to, rest) <==>
      kem.dec(secret, encrypted) == Some([0] + to.ip + Uint16(to.port) + rest)
    ensures UnwrapOne(kem, secret, encrypted) == Final(to, rest) <==>
      kem.dec(secret, encrypted) == Some([1] + to.ip + Uint16(to.port) + rest)
  {
    TaggedParts(RELAY, to, rest);
    TaggedParts(FINAL, to, rest);
    match kem.dec(secret, encrypted)
    case None =>
    case Some(plain) =>
      if |plain| >= 19 {
        Uint16Back(plain[17..19]);
        assert plain == [plain[0]] + plain[1..17] + plain[17..19] + plain[19..];
      }
  }

  // --- the wire format ---

  function Frame(layer: Bytes): (f: Bytes)
    ensures |f| == 2 + |layer|
  {
    Uint16(|layer|) + layer
  }

  function Frames(layers: seq<Bytes>): Bytes {
    if |layers| == 0 then [] else Frame(layers[0]) + Frames(layers[1..])
  }

  lemma FramesNone(layers: seq<Bytes>)
    ensures Frames(layers[..0]) == []
  {
  }

  lemma {:induction false} FramesAppend(layers: seq<Bytes>, layer: Bytes)
    ensures Frames(layers + [layer]) == Frames(layers) + Frame(layer)
  {
    hide Frame;
    var all := layers + [layer];
    if |layers| == 0 {
      assert all == [layer] && all[1..] == [];
      assert Frames([]) == [];
    } else {
      FramesAppend(layers[1..], layer);
      assert all[0] == layers[0] && all[1..] == layers[1..] + [layer];
      var first, rest, last := Frame(layers[0]), Frames(layers[1..]), Frame(layer);
      assert Frames(all) == first + (rest + last) == (first + rest) + last;
    }
  }

  function PaddedSize(size: nat): (n: nat)
    ensures size <= n <= size + FIXED_PACKET_SIZE - 1 && n % FIXED_PACKET_SIZE == 0
  {
    (size + FIXED_PACKET_SIZE - 1) / FIXED_PACKET_SIZE * FIXED_PACKET_SIZE
  }

  /** The first padding byte is fixed so that it cannot start a frame; the others are random. */
  function Padding(size: nat, noise: nat -> Byte): (p: Bytes)
    ensures |p| == size
  {
    seq(size, i requires 0 <= i < size => if i == 0 && size >= 2 then 2 else noise(i))
  }

  function Wire(p: Packet, noise: nat -> Byte): Bytes {
    var body := p.circuit + Frames(p.layers);
    body + Padding(PaddedSize(|body|) - |body|, noise)
  }

  lemma {:induction false} FramesPrefix(layers: seq<Bytes>, i: nat)
    requires i < |layers|
    ensures Frames(layers[..i + 1]) == Frames(layers[..i]) + Frame(layers[i])
    ensures |Frames(layers[..i + 1])| <= |Frames(layers)|
  {
    FramesAppend(layers[..i], layers[i]);
    assert layers[..i + 1] == layers[..i] + [layers[i]];
    PrefixShorter(layers, i + 1);
  }

  lemma {:induction false} PrefixShorter(layers: seq<Bytes>, i: nat)
    requires i <= |layers|
    ensures |Frames(layers[..i])| <= |Frames(layers)|
    decreases |layers| - i
  {
    if i < |layers| {
      PrefixShorter(layers, i + 1);
      FramesAppend(layers[..i], layers[i]);
      assert layers[..i + 1] == layers[..i] + [layers[i]];
    } else {
      assert layers[..i] == layers;
    }
  }

  /** The packet is always a positive multiple of 512 bytes. */
  method Serialize(p: Packet, noise: nat -> Byte) returns (wire: array<Byte>)
    ensures fresh(wire) && wire[..] == Wire(p, noise)
    ensures wire.Length > 0 && wire.Length % 512 == 0
    ensures WellPadded(wire[..], 16 + |Frames(p.layers)|, noise)
  {
    hide Padding, PaddedSize, Frame, Frames, Uint16, WellPadded;
    FramesNone(p.layers);
    var size: nat := 16;
    for i := 0 to |p.layers|
      invariant size == 16 + |Frames(p.layers[..i])|
    {
      FramesPrefix(p.layers, i);
      size := size + 2 + |p.layers[i]|;
    }
    assert p.layers[..|p.layers|] == p.layers;
    var padded := PaddedSize(size);
    var buf := new Byte[padded](_ => 0);
    forall k | 0 <= k < 16 {
      buf[k] := p.circuit[k];
    }
    var offset: nat := 16;
    for i := 0 to |p.layers|
      invariant offset == 16 + |Frames(p.layers[..i])| <= size
      invariant buf[..offset] == p.circuit + Frames(p.layers[..i])
    {
      FramesPrefix(p.layers, i);
      offset := WriteFrame(buf, offset, p.layers[i]);
    }
    assert p.layers[..|p.layers|] == p.layers;
    WritePadding(buf, offset, noise);
    WireNoise(p, noise);
    return buf;
  }

  /** Less than 512 bytes of padding, all but the first as drawn. */
  predicate WellPadded(data: Bytes, size: nat, noise: nat -> Byte) {
    size <= |data| < size + 512 && forall k :: size < k < |data| ==> data[k] == noise(k - size)
  }

  lemma WireNoise(p: Packet, noise: nat -> Byte)
    ensures WellPadded(Wire(p, noise), 16 + |Frames(p.layers)|, noise)
  {
  }

  method WritePadding(buf: array<Byte>, offset: nat, noise: nat -> Byte)
    requires offset <= buf.Length
    modifies buf
    ensures buf[..] == old(buf[..offset]) + Padding(buf.Length - offset, noise)
  {
    var remaining := buf.Length - offset;
    forall k | offset <= k < buf.Length {
      buf[k] := noise(k - offset);
    }
    if remaining >= 2 {
      buf[offset] := 2;
    }
    assert buf[..offset] == old(buf[..offset]);
    assert buf[offset..] == Padding(remaining, noise);
    assert buf[..] == buf[..offset] + buf[offset..];
  }

  method WriteFrame(buf: array<Byte>, offset: nat, layer: Bytes) returns (end: nat)
    requires offset + 2 + |layer| <= buf.Length
    modifies buf
    ensures end == offset + |Frame(layer)| <= buf.Length
    ensures buf[..end] == old(buf[..offset]) + Frame(layer)
  {
    buf[offset], buf[offset + 1] := |layer| / 256 % 256, |layer| % 256;
    forall k | 0 <= k < |layer| {
      buf[offset + 2 + k] := layer[k];
    }
    end := offset + 2 + |layer|;
    assert buf[..offset] == old(buf[..offset]);
    assert buf[offset..end] == Frame(layer);
    assert buf[..end] == buf[..offset] + buf[offset..end];
  }

  // --- parsing ---

  /** Layers read from `offset` on, after those already in `got`; None when there are too many. */
  function ParseLayers(data: Bytes, offset: nat, got: seq<Bytes>): Option<seq<Bytes>>
    requires offset <= |data|
    decreases |data| - offset
  {
    if offset + 2 > |data| then Some(got)
    else
      var size := FromUint16(data[offset..offset + 2]);
      var start := offset + 2;
      if size == 0 || start + size > |data| then Some(got)
      else
        var all := got + [data[start..start + size]];
        if |all| > MAX_HOPS then None else ParseLayers(data, start + size, all)
  }

  function Parse(data: Bytes): Option<Packet> {
    if |data| < 18 then None
    else
      match ParseLayers(data, 16, [])
      case None => None
      case Some(layers) => if |layers| == 0 then None else Some(Packet(data[..16], layers, |layers|))
  }

  method ParseOnion(data: array<Byte>) returns (r: Option<Packet>)
    ensures r == Parse(data[..])
  {
    if data.Length < 18 {
      return None;
    }
    ghost var all := data[..];
    var layers: seq<Bytes> := [];
    var offset := 16;
    while offset + 2 <= data.Length
      invariant 16 <= offset <= data.Length
      invariant ParseLayers(all, 16, []) == ParseLayers(all, offset, layers)
      decreases data.Length - offset
    {
      var size := FromUint16(data[offset..offset + 2]);
      assert data[offset..offset + 2] == all[offset..offset + 2];
      var start := offset + 2;
      if size == 0 {
        break;
      }
      if start + size > data.Length {
        break;
      }
      var layer := data[start..start + size];
      assert layer == all[start..start + size];
      layers := layers + [layer];
      offset := start + size;
      if |layers| > MAX_HOPS {
        return None;
      }
    }
    if |layers| == 0 {
      return None;
    }
    assert data[..16] == all[..16];
    return Some(Packet(data[..16], layers, |layers|));
  }

  predicate Framable(layers: seq<Bytes>) {
    forall i :: 0 <= i < |layers| ==> 1 <= |layers[i]| < 0x1_0000
  }

  /** A length that is not zero, followed by at least so many bytes. */
  predicate StartsFrame(b: Bytes) {
    |b| >= 2 && 0 < FromUint16(b[..2]) && 2 + FromUint16(b[..2]) <= |b|
  }

  /** The bytes are the frames of these layers, and then no frame starts. */
  predicate Ends(b: Bytes, layers: seq<Bytes>) {
    Framable(layers) && Frames(layers) <= b && !StartsFrame(b[|Frames(layers)|..])
  }

  lemma FrameFirst(layer: Bytes, rest: Bytes)
    requires 1 <= |layer| < 0x1_0000
    ensures var b := Frame(layer) + rest;
      && |b| >= 2 && FromUint16(b[..2]) == |layer| && StartsFrame(b)
      && b[2..2 + |layer|] == layer && b[2 + |layer|..] == rest
  {
    hide Uint16, FromUint16;
    var b := Frame(layer) + rest;
    Uint16Exactly(|layer|);
    assert b[..2] == Uint16(|layer|) && b[2..2 + |layer|] == layer;
  }

  lemma FirstFrame(b: Bytes, layers: seq<Bytes>)
    requires Framable(layers) && |layers| > 0 && Frames(layers) <= b
    ensures |b| >= 2 && FromUint16(b[..2]) == |layers[0]| && StartsFrame(b)
    ensures b[2..2 + |layers[0]|] == layers[0] && Frames(layers[1..]) <= b[2 + |layers[0]|..]
    ensures b[2 + |layers[0]|..][|Frames(layers[1..])|..] == b[|Frames(layers)|..]
  {
    hide Frame, FromUint16, StartsFrame;
    var first, others, rest := Frame(layers[0]), Frames(layers[1..]), b[|Frames(layers)|..];
    assert b == first + others + rest == first + (others + rest);
    FrameFirst(layers[0], others + rest);
  }

  lemma OneMoreFrame(b: Bytes, layers: seq<Bytes>)
    requires StartsFrame(b)
    ensures var size := FromUint16(b[..2]);
      Ends(b, layers) <==> |layers| > 0 && layers[0] == b[2..2 + size] && Ends(b[2 + size..], layers[1..])
  {
    var size := FromUint16(b[..2]);
    Uint16Back(b[..2]);
    if Ends(b, layers) {
      if |layers| > 0 {
        FirstFrame(b, layers);
      }
    }
    if |layers| > 0 && layers[0] == b[2..2 + size] && Ends(b[2 + size..], layers[1..]) {
      var rest := b[2 + size..];
      assert b == Frame(layers[0]) + rest;
      assert b[|Frames(layers)|..] == rest[|Frames(layers[1..])|..];
    }
  }

  lemma ParseStep(data: Bytes, offset: nat, got: seq<Bytes>)
    requires offset <= |data|
    ensures var b := data[offset..];
      if StartsFrame(b) then
        var size := FromUint16(b[..2]);
        var layer := b[2..2 + size];
        && b[2 + size..] == data[offset + 2 + size..]
        && ParseLayers(data, offset, got) ==
             if |got| >= MAX_HOPS then None else ParseLayers(data, offset + 2 + size, got + [layer])
      else ParseLayers(data, offset, got) == Some(got)
  {
    var b := data[offset..];
    if |b| >= 2 {
      assert data[offset..offset + 2] == b[..2];
      var end := 2 + FromUint16(b[..2]);
      if end <= |b| {
        assert data[offset + 2..offset + end] == b[2..end] && data[offset + end..] == b[end..];
      }
    }
  }

  lemma Extended(got: seq<Bytes>, all: seq<Bytes>, layer: Bytes)
    ensures |got| < |all| && all[..|got|] == got && all[|got|..][0] == layer <==>
      |got| + 1 <= |all| && all[..|got| + 1] == got + [layer]
    ensures |got| < |all| ==> all[|got|..][1..] == all[|got| + 1..]
  {
    if |got| < |all| {
      assert all[..|got| + 1] == all[..|got|] + [all[|got|]];
    }
  }

  lemma {:induction false} LayersExactly(data: Bytes, offset: nat, got: seq<Bytes>, all: seq<Bytes>)
    requires offset <= |data| && |got| <= MAX_HOPS
    ensures ParseLayers(data, offset, got) == Some(all) <==>
      |got| <= |all| <= MAX_HOPS && all[..|got|] == got && Ends(data[offset..], all[|got|..])
    decreases |data| - offset
  {
    hide ParseLayers, Ends, FromUint16;
    var b := data[offset..];
    ParseStep(data, offset, got);
    if StartsFrame(b) {
      var end := 2 + FromUint16(b[..2]);
      var layer := b[2..end];
      if |got| < MAX_HOPS {
        LayersExactly(data, offset + end, got + [layer], all);
      }
      Extended(got, all, layer);
      if |got| <= |all| {
        OneMoreFrame(b, all[|got|..]);
      }
    } else {
      if |got| <= |all| {
        OnlyNoFrames(b, all[|got|..]);
        assert all == all[..|got|] + all[|got|..];
        assert all == got ==> all[|got|..] == [] && all[..|got|] == got;
      }
    }
  }

  lemma OnlyNoFrames(b: Bytes, layers: seq<Bytes>)
    requires !StartsFrame(b)
    ensures Ends(b, layers) <==> layers == []
  {
    NoFramesEnd(b);
    if |layers| > 0 && Framable(layers) && Frames(layers) <= b {
      FirstFrame(b, layers);
    }
  }

  lemma NoFramesEnd(b: Bytes)
    ensures Ends(b, []) <==> !StartsFrame(b)
  {
    assert b[0..] == b;
  }

  /**
  The parser accepts exactly the packets whose bytes after the circuit are one to five frames
  and then no further frame, and yields these layers.
  */
  lemma ParseExactly(data: Bytes, p: Packet)
    ensures Parse(data) == Some(p) <==>
      && |data| >= 18 && p.circuit == data[..16] && p.pathLen == |p.layers|
      && 1 <= |p.layers| <= 5 && Ends(data[16..], p.layers)
  {
    hide ParseLayers, Ends;
    if |data| >= 18 {
      LayersExactly(data, 16, [], p.layers);
      assert p.layers[0..] == p.layers;
    }
  }

  /** Only non-empty layers of at most 65535 bytes come out of the parser, and at most five of them. */
  lemma {:induction false} ParsedFramable(data: Bytes, offset: nat, got: seq<Bytes>)
    requires offset <= |data| && Framable(got) && |got| <= MAX_HOPS
    ensures ParseLayers(data, offset, got).Some? ==>
      Framable(ParseLayers(data, offset, got).value) && |ParseLayers(data, offset, got).value| <= MAX_HOPS
    decreases |data| - offset
  {
    if offset + 2 <= |data| {
      var size := FromUint16(data[offset..offset + 2]);
      var start := offset + 2;
      if 0 < size && start + size <= |data| && |got| < MAX_HOPS {
        ParsedFramable(data, start + size, got + [data[start..start + size]]);
      }
    }
  }

  /** No frame starts in the padding, whatever the random bytes. */
  lemma PaddingStops(data: Bytes, offset: nat, got: seq<Bytes>, noise: nat -> Byte)
    requires offset <= |data| && |data| - offset < FIXED_PACKET_SIZE
    requires data[offset..] == Padding(|data| - offset, noise)
    ensures ParseLayers(data, offset, got) == Some(got)
  {
    if offset + 2 <= |data| {
      var padding := data[offset..];
      assert data[offset..offset + 2] == padding[..2];
      assert padding[0] == 2;
    }
  }

  lemma ReadsFrame(before: Bytes, layer: Bytes, after: Bytes)
    requires 1 <= |layer| < 0x1_0000
    ensures var data, start := before + (Frame(layer) + after), |before| + 2;
      && FromUint16(data[|before|..start]) == |layer|
      && start + |layer| <= |data|
      && data[start..start + |layer|] == layer
      && data[start + |layer|..] == after
  {
    var data := before + (Frame(layer) + after);
    assert data[|before|..|before| + 2] == Uint16(|layer|);
    Uint16Exactly(|layer|);
  }

  lemma {:induction false} ParsesFrames(before: Bytes, layers: seq<Bytes>, padding: Bytes, got: seq<Bytes>,
                                        noise: nat -> Byte)
    requires Framable(layers) && |got| + |layers| <= MAX_HOPS
    requires |padding| < FIXED_PACKET_SIZE && padding == Padding(|padding|, noise)
    ensures ParseLayers(before + (Frames(layers) + padding), |before|, got) == Some(got + layers)
    decreases |layers|
  {
    hide Frame, Padding, Uint16, FromUint16;
    var data := before + (Frames(layers) + padding);
    if |layers| == 0 {
      assert data[|before|..] == padding;
      PaddingStops(data, |before|, got, noise);
      assert got + layers == got;
    } else {
      var rest := Frames(layers[1..]) + padding;
      assert data == before + (Frame(layers[0]) + rest);
      ReadsFrame(before, layers[0], rest);
      var before1 := before + Frame(layers[0]);
      assert data == before1 + rest;
      ParsesFrames(before1, layers[1..], padding, got + [layers[0]], noise);
      assert got + [layers[0]] + layers[1..] == got + layers;
    }
  }

  /**
  Parsing undoes serialising for exactly the packets of one to five layers of 1 to 65535
  bytes, whatever the random padding. Longer layers have their length truncated to 16 bits.
  */
  lemma RoundTripExactly(p: Packet, noise: nat -> Byte)
    ensures Parse(Wire(p, noise)) == Some(p) <==>
      1 <= |p.layers| <= MAX_HOPS && Framable(p.layers) && p.pathLen == |p.layers|
  {
    var data := Wire(p, noise);
    assert data[..16] == p.circuit;
    if |p.layers| <= MAX_HOPS && Framable(p.layers) {
      var body := p.circuit + Frames(p.layers);
      var padding := Padding(PaddedSize(|body|) - |body|, noise);
      assert data == p.circuit + (Frames(p.layers) + padding);
      ParsesFrames(p.circuit, p.layers, padding, [], noise);
      assert [] + p.layers == p.layers;
      assert |data| % FIXED_PACKET_SIZE == 0 && |data| > 0;
    }
    ParsedFramable(data, 16, []);
  }

  // --- along the path ---

  function StripFirst(p: Packet): Option<Packet> {
    if |p.layers| <= 1 then None else Some(Packet(p.circuit, p.layers[1..], p.pathLen - 1))
  }

  /** Stripping the outermost layer gives the packet as it reaches the next hop, if there is one. */
  lemma StripsToNext(p: Packet, i: nat)
    requires i < |p.layers|
    ensures StripFirst(AtHop(p, i)) == if i + 1 == |p.layers| then None else Some(AtHop(p, i + 1))
  {
    assert p.layers[i..][1..] == p.layers[i + 1..];
  }

  datatype Step = Forward(next: Address, wire: Bytes) | Deliver(target: Address, message: Bytes) | Drop

  /** What a node does with a packet it receives. */
  function HandleRoute(kem: Kem, secret: nat, data: Bytes, noise: nat -> Byte): Step {
    match Parse(data)
    case None => Drop
    case Some(p) =>
      if |p.layers| == 0 then Drop
      else
        match UnwrapOne(kem, secret, p.layers[0])
        case Unreadable => Drop
        case Final(target, message) => Deliver(target, message)
        case Relay(next, _) =>
          match StripFirst(p)
          case None => Drop
          case Some(rest) => Forward(next, Wire(rest, noise))
  }

  /** A node delivers exactly if it can read the outermost layer and its tag is 1, whatever layers follow. */
  lemma DeliversExactly(kem: Kem, secret: nat, data: Bytes, noise: nat -> Byte, to: Address, message: Bytes)
    ensures HandleRoute(kem, secret, data, noise) == Deliver(to, message) <==>
      && Parse(data).Some?
      && kem.dec(secret, Parse(data).value.layers[0]) == Some([1] + to.ip + Uint16(to.port) + message)
  {
    if Parse(data).Some? {
      ParseExactly(data, Parse(data).value);
      UnwrapsExactly(kem, secret, Parse(data).value.layers[0], to, message);
    }
  }

  /** It forwards exactly if the tag is 0 and another layer follows: the rest of the packet, freshly padded. */
  lemma ForwardsExactly(kem: Kem, secret: nat, data: Bytes, noise: nat -> Byte, next: Address, wire: Bytes)
    ensures HandleRoute(kem, secret, data, noise) == Forward(next, wire) <==>
      && Parse(data).Some? && |Parse(data).value.layers| >= 2
      && (exists inner :: kem.dec(secret, Parse(data).value.layers[0])
                            == Some([0] + next.ip + Uint16(next.port) + inner))
      && wire == Wire(AtHop(Parse(data).value, 1), noise)
  {
    if Parse(data).Some? {
      var p := Parse(data).value;
      ParseExactly(data, p);
      var unwrapped := UnwrapOne(kem, secret, p.layers[0]);
      if unwrapped.Relay? {
        UnwrapsExactly(kem, secret, p.layers[0], unwrapped.next, unwrapped.payload);
      }
      forall inner | kem.dec(secret, p.layers[0]) == Some([0] + next.ip + Uint16(next.port) + inner)
        ensures unwrapped == Relay(next, inner)
      {
        UnwrapsExactly(kem, secret, p.layers[0], next, inner);
      }
    }
  }

  lemma {:induction false} LayerSize(kem: Kem, path: seq<Hop>, secrets: seq<nat>, inner: Bytes,
                                     coins: nat -> nat, i: nat)
    requires Lawful(kem) && HoldKeys(kem, path, secrets) && i < |path|
    requires Layer(kem, path, inner, coins, i).Some?
    ensures |Layer(kem, path, inner, coins, i).value| == |inner| + (|path| - 1 - i) * (19 + OVERHEAD) + OVERHEAD
    decreases |path| - i
  {
    assert path[i].key == kem.publicOf(secrets[i]);
    if i < |path| - 1 {
      LayerSize(kem, path, secrets, inner, coins, i + 1);
      TaggedParts(RELAY, path[i + 1].address, Layer(kem, path, inner, coins, i + 1).value);
    }
  }

  ghost predicate HoldKeys(kem: Kem, path: seq<Hop>, secrets: seq<nat>) {
    |secrets| == |path| && forall i :: 0 <= i < |path| ==> path[i].key == kem.publicOf(secrets[i])
  }

  lemma BuiltSizes(kem: Kem, path: seq<Hop>, secrets: seq<nat>, target: Address, message: Bytes,
                   coins: nat -> nat, p: Packet)
    requires Lawful(kem) && HoldKeys(kem, path, secrets) && IsBuilt(kem, path, target, message, coins, p)
    ensures forall i :: 0 <= i < |path| ==> |p.layers[i]| == (|path| - i) * (19 + OVERHEAD) + |message|
  {
    forall i | 0 <= i < |path| ensures |p.layers[i]| == (|path| - i) * (19 + OVERHEAD) + |message| {
      LayerSize(kem, path, secrets, Tagged(FINAL, target, message), coins, i);
      TaggedParts(FINAL, target, message);
    }
  }

  /** A built packet survives the wire exactly when its outermost layer fits the 16-bit length. */
  lemma BuiltRoundTripsExactly(kem: Kem, path: seq<Hop>, secrets: seq<nat>, target: Address, message: Bytes,
                               coins: nat -> nat, p: Packet, noise: nat -> Byte)
    requires Lawful(kem) && HoldKeys(kem, path, secrets) && IsBuilt(kem, path, target, message, coins, p)
    ensures Parse(Wire(p, noise)) == Some(p) <==> |path| * 79 + |message| < 0x1_0000
  {
    BuiltSizes(kem, path, secrets, target, message, coins, p);
    RoundTripExactly(p, noise);
    assert |p.layers[0]| == |path| * (19 + OVERHEAD) + |message|;
  }

  /** The packet as it reaches hop i. */
  function AtHop(p: Packet, i: nat): Packet
    requires i <= |p.layers|
  {
    Packet(p.circuit, p.layers[i..], p.pathLen - i)
  }

  lemma HopUnwraps(kem: Kem, path: seq<Hop>, secrets: seq<nat>, target: Address, message: Bytes,
                   coins: nat -> nat, p: Packet, i: nat)
    requires Lawful(kem) && HoldKeys(kem, path, secrets) && IsBuilt(kem, path, target, message, coins, p)
    requires i < |path|
    ensures UnwrapOne(kem, secrets[i], p.layers[i]) ==
      if i == |path| - 1 then Final(target, message) else Relay(path[i + 1].address, p.layers[i + 1])
  {
    var inner := Tagged(FINAL, target, message);
    assert path[i].key == kem.publicOf(secrets[i]);
    assert Layer(kem, path, inner, coins, i) == Some(p.layers[i]);
    if i == |path| - 1 {
      TaggedParts(FINAL, target, message);
    } else {
      assert Layer(kem, path, inner, coins, i + 1) == Some(p.layers[i + 1]);
      TaggedParts(RELAY, path[i + 1].address, p.layers[i + 1]);
    }
  }

  /** Each hop learns only the next address and passes on the packet for the next hop; the last delivers. */
  lemma HopHandles(kem: Kem, path: seq<Hop>, secrets: seq<nat>, target: Address, message: Bytes,
                   coins: nat -> nat, p: Packet, i: nat, noise: nat -> Byte, noise1: nat -> Byte)
    requires Lawful(kem) && HoldKeys(kem, path, secrets) && IsBuilt(kem, path, target, message, coins, p)
    requires i < |path| && |path| * (19 + OVERHEAD) + |message| < 0x1_0000
    ensures HandleRoute(kem, secrets[i], Wire(AtHop(p, i), noise), noise1) ==
      if i == |path| - 1 then Deliver(target, message)
      else Forward(path[i + 1].address, Wire(AtHop(p, i + 1), noise1))
  {
    BuiltSizes(kem, path, secrets, target, message, coins, p);
    assert forall j :: 0 <= j < |p.layers| - i ==> p.layers[i..][j] == p.layers[i + j];
    RoundTripExactly(AtHop(p, i), noise);
    HopUnwraps(kem, path, secrets, target, message, coins, p, i);
    assert p.layers[i..][1..] == p.layers[i + 1..];
  }

  datatype Journey = Delivered(visited: seq<Address>, target: Address, message: Bytes) | Lost

  /** The packet's journey past the holders of `secrets`, each adding fresh padding. */
  function Travel(kem: Kem, secrets: seq<nat>, data: Bytes, noise: nat -> nat -> Byte): Journey
    decreases |secrets|
  {
    if |secrets| == 0 then Lost
    else
      match HandleRoute(kem, secrets[0], data, noise(|secrets|))
      case Drop => Lost
      case Deliver(target, message) => Delivered([], target, message)
      case Forward(next, wire) =>
        match Travel(kem, secrets[1..], wire, noise)
        case Lost => Lost
        case Delivered(visited, target, message) => Delivered([next] + visited, target, message)
  }

  function Addresses(path: seq<Hop>): seq<Address> {
    seq(|path|, i requires 0 <= i < |path| => path[i].address)
  }

  lemma {:induction false} TravelsFrom(kem: Kem, path: seq<Hop>, secrets: seq<nat>, target: Address, message: Bytes,
                                       coins: nat -> nat, p: Packet, i: nat, first: nat -> Byte,
                                       noise: nat -> nat -> Byte)
    requires Lawful(kem) && HoldKeys(kem, path, secrets) && IsBuilt(kem, path, target, message, coins, p)
    requires i < |path| && |path| * (19 + OVERHEAD) + |message| < 0x1_0000
    ensures Travel(kem, secrets[i..], Wire(AtHop(p, i), first), noise)
         == Delivered(Addresses(path[i + 1..]), target, message)
    decreases |path| - i
  {
    hide Wire, HandleRoute, IsBuilt, Lawful;
    var here := noise(|secrets[i..]|);
    HopHandles(kem, path, secrets, target, message, coins, p, i, first, here);
    if i < |path| - 1 {
      TravelsFrom(kem, path, secrets, target, message, coins, p, i + 1, here, noise);
      assert secrets[i..][1..] == secrets[i + 1..];
      assert Addresses(path[i + 1..]) == [path[i + 1].address] + Addresses(path[i + 2..]);
    }
  }

  /** A built packet visits the rest of its path in order and delivers the message to its target. */
  lemma DeliversAlongPath(kem: Kem, path: seq<Hop>, secrets: seq<nat>, target: Address, message: Bytes,
                          coins: nat -> nat, p: Packet, first: nat -> Byte, noise: nat -> nat -> Byte)
    requires Lawful(kem) && HoldKeys(kem, path, secrets) && IsBuilt(kem, path, target, message, coins, p)
    requires |path| * (19 + OVERHEAD) + |message| < 0x1_0000
    ensures Travel(kem, secrets, Wire(p, first), noise) == Delivered(Addresses(path[1..]), target, message)
  {
    TravelsFrom(kem, path, secrets, target, message, coins, p, 0, first, noise);
    assert AtHop(p, 0) == p;
    assert secrets[0..] == secrets;
  }
}
