/** Wires between IOU instances and VDE switches: the header of a frame, the reading of
  * the NETMAP file, and the registries that route frames.
  */
module IouWire {
  import opened Bits
  import opened Words
  import opened Wrappers

  const MTU := 1580
  const HEADER := 8

  /** The identity of a plug; plugs compare by it alone. */
  datatype Plug = Plug(instance: nat, major: nat, minor: nat)

  /** A plug to a VDE switch: its identity and the socket of the switch. */
  datatype VDEPlug = VDEPlug(plug: Plug, sock: string)

  // ----- Header -----------------------------------------------------------------

  /** Interface number of a plug: minor in the high nibble. */
  function Interface(p: Plug): nat {
    Or(p.minor * 16, p.major)
  }

  /** The header as struct.pack builds it, big-endian; a field out of range raises. */
  function Pack(dst: Plug, src: Plug): (h: Result<seq<byte>>)
    ensures h.Ok? ==> |h.value| == HEADER
  {
    if dst.instance >= 0x1_0000 || src.instance >= 0x1_0000 || Interface(dst) >= 256 || Interface(src) >= 256 then
      Error
    else
      Ok([dst.instance / 256, dst.instance % 256, src.instance / 256, src.instance % 256,
          Interface(dst), Interface(src), 1, 0])
  }

  function Word(hi: nat, lo: nat): nat {
    hi * 256 + lo
  }

  /** A received datagram, decoded. */
  datatype Frame = Frame(dst: Plug, src: Plug, payload: seq<byte>)

  /** Decodes a datagram of at most a header and an MTU; a short one or a wrong delimiter
    * is refused.
    */
  function Unpack(data: seq<byte>): (f: Result<Frame>) {
    if |data| < HEADER || data[6] != 1 || data[7] != 0 then Error
    else
      Ok(Frame(Plug(Word(data[0], data[1]), data[4] % 16, data[4] / 16 % 16),
               Plug(Word(data[2], data[3]), data[5] % 16, data[5] / 16 % 16),
               data[HEADER..]))
  }

  /** The fields fit the header. */
  predicate Fits(p: Plug) {
    p.instance < 0x1_0000 && p.major < 16 && p.minor < 16
  }

  lemma InterfaceOf(p: Plug)
    requires p.major < 16
    ensures Interface(p) == p.minor * 16 + p.major
  {
    assert Pow(2, 4) == 16 by { assert Pow(2, 1) == 2 && Pow(2, 2) == 4 && Pow(2, 3) == 8; }
    OrNibbles(4, p.minor, p.major);
  }

  lemma Decoded(dst: Plug, src: Plug, payload: seq<byte>)
    requires Pack(dst, src).Ok?
    ensures Unpack(Pack(dst, src).value + payload) == Ok(Frame(
      Plug(dst.instance, Interface(dst) % 16, Interface(dst) / 16 % 16),
      Plug(src.instance, Interface(src) % 16, Interface(src) / 16 % 16), payload))
  {
    hide Interface;
    var h := Pack(dst, src).value;
    assert (h + payload)[HEADER..] == payload;
    assert forall i :: 0 <= i < HEADER ==> (h + payload)[i] == h[i];
  }

  /** The two nibbles are the major and the minor exactly when these fit. */
  lemma NibblesFit(p: Plug)
    ensures Interface(p) % 16 == p.major && Interface(p) / 16 % 16 == p.minor <==> p.major < 16 && p.minor < 16
  {
    if p.major < 16 {
      InterfaceOf(p);
    }
  }

  /** Packing then decoding gives back both plugs and the payload exactly when the fields
    * fit: 16 bits for the instances, one nibble for each major and minor.
    */
  lemma RoundTrip(dst: Plug, src: Plug, payload: seq<byte>)
    ensures (Pack(dst, src).Ok? && Unpack(Pack(dst, src).value + payload) == Ok(Frame(dst, src, payload)))
       <==> Fits(dst) && Fits(src)
  {
    if Pack(dst, src).Ok? {
      Decoded(dst, src, payload);
    }
    if Fits(dst) && Fits(src) {
      InterfaceOf(dst);
      InterfaceOf(src);
    }
    NibblesFit(dst);
    NibblesFit(src);
    hide Interface, Unpack;
  }

  lemma Nibbles(instance: nat, x: byte)
    ensures Interface(Plug(instance, x % 16, x / 16 % 16)) == x
  {
    InterfaceOf(Plug(instance, x % 16, x / 16 % 16));
  }

  lemma Bytes(hi: byte, lo: byte)
    ensures Word(hi, lo) / 256 == hi && Word(hi, lo) % 256 == lo && Word(hi, lo) < 0x1_0000
  {}

  /** Every header with the right delimiter is the packing of what it decodes to. */
  lemma Repack(h: seq<byte>)
    requires |h| == HEADER && h[6] == 1 && h[7] == 0
    ensures Unpack(h).Ok? && Fits(Unpack(h).value.dst) && Fits(Unpack(h).value.src)
    ensures Pack(Unpack(h).value.dst, Unpack(h).value.src) == Ok(h)
  {
    Nibbles(Word(h[0], h[1]), h[4]);
    Nibbles(Word(h[2], h[3]), h[5]);
    Bytes(h[0], h[1]);
    Bytes(h[2], h[3]);
    hide Interface, Word;
    assert h == [h[0], h[1], h[2], h[3], h[4], h[5], h[6], h[7]];
  }

  /** The layout of the header: who receives, who sends, the two interfaces with the minor
    * in the high bits, and the delimiter. Bits that do not fit their nibble run together.
    */
  lemma HeaderLayout(dst: Plug, src: Plug, k: nat)
    requires Pack(dst, src).Ok?
    ensures var h: seq<nat> := Pack(dst, src).value;
      && h[0] * 256 + h[1] == dst.instance && h[2] * 256 + h[3] == src.instance
      && (Bit(h[4], k) <==> Bit(dst.minor * 16, k) || Bit(dst.major, k))
      && (Bit(h[5], k) <==> Bit(src.minor * 16, k) || Bit(src.major, k))
      && h[6] == 1 && h[7] == 0
      && (Fits(dst) ==> h[4] == dst.minor * 16 + dst.major)
      && (Fits(src) ==> h[5] == src.minor * 16 + src.major)
  {
    hide Or, Bit;
    OrBits(dst.minor * 16, dst.major, k);
    OrBits(src.minor * 16, src.major, k);
    if Fits(dst) {
      InterfaceOf(dst);
    }
    if Fits(src) {
      InterfaceOf(src);
    }
  }

  /** The header with its two ends swapped: what the other end answers with. */
  function Swap(h: seq<byte>): (r: seq<byte>)
    requires |h| == HEADER
    ensures |r| == HEADER
  {
    [h[2], h[3], h[0], h[1], h[5], h[4], h[6], h[7]]
  }

  lemma SwapIsAnswer(dst: Plug, src: Plug)
    ensures Pack(src, dst).Ok? <==> Pack(dst, src).Ok?
    ensures Pack(dst, src).Ok? ==> Pack(src, dst) == Ok(Swap(Pack(dst, src).value))
  {}

  // ----- The NETMAP file --------------------------------------------------------

  /** A line of NETMAP: the triplets it holds. */
  type Line = seq<Plug>

  /** A port of the command line: a major mapped to the socket of a switch. */
  datatype Mapping = Mapping(major: nat, sock: string)

  /** The triplets of a line on our pseudo instance and major, and the others. */
  function Ours(line: Line, instance: nat, major: nat): (r: Line) {
    if line == [] then []
    else
      Ours(line[..|line| - 1], instance, major)
      + if line[|line| - 1].instance == instance && line[|line| - 1].major == major then [line[|line| - 1]] else []
  }

  function Others(line: Line, instance: nat, major: nat): (r: Line) {
    if line == [] then []
    else
      Others(line[..|line| - 1], instance, major)
      + if line[|line| - 1].instance == instance && line[|line| - 1].major == major then [] else [line[|line| - 1]]
  }

  /** Insertion-ordered dictionary from switch plugs to the plugs they are wired to. Keys
    * compare by identity, so `order` holds the first key of each identity.
    */
  datatype Wires = Wires(order: seq<VDEPlug>, others: map<Plug, seq<Plug>>)

  const NO_WIRES := Wires([], map[])

  function Extend(w: Wires, v: VDEPlug, ps: seq<Plug>): (r: Wires) {
    if v.plug in w.others then
      w.(others := w.others[v.plug := w.others[v.plug] + ps])
    else
      Wires(w.order + [v], w.others[v.plug := ps])
  }

  /** What one line adds for one mapping. */
  function WithLine(w: Wires, instance: nat, m: Mapping, line: Line): Wires {
    var us := Ours(line, instance, m.major);
    if us == [] then w
    else Extend(w, VDEPlug(Plug(instance, m.major, us[0].minor), m.sock), Others(line, instance, m.major))
  }

  function WithLines(w: Wires, instance: nat, m: Mapping, lines: seq<Line>): Wires {
    if lines == [] then w
    else WithLine(WithLines(w, instance, m, lines[..|lines| - 1]), instance, m, lines[|lines| - 1])
  }

  function WithMappings(instance: nat, ms: seq<Mapping>, lines: seq<Line>): Wires {
    if ms == [] then NO_WIRES
    else WithLines(WithMappings(instance, ms[..|ms| - 1], lines), instance, ms[|ms| - 1], lines)
  }

  method ParseNetmap(instance: nat, netmap: seq<Line>, mappings: seq<Mapping>) returns (wires: Wires)
    ensures wires == WithMappings(instance, mappings, netmap)
  {
    wires := NO_WIRES;
    for i := 0 to |mappings|
      invariant wires == WithMappings(instance, mappings[..i], netmap)
    {
      var m := mappings[i];
      ghost var before := wires;
      for j := 0 to |netmap|
        invariant wires == WithLines(before, instance, m, netmap[..j])
      {
        var us, rest := [], [];
        for k := 0 to |netmap[j]|
          invariant us == Ours(netmap[j][..k], instance, m.major)
          invariant rest == Others(netmap[j][..k], instance, m.major)
        {
          var ii := netmap[j][k];
          assert netmap[j][..k + 1][..k] == netmap[j][..k];
          if ii.instance == instance && ii.major == m.major {
            us := us + [ii];
          } else {
            rest := rest + [ii];
          }
        }
        assert netmap[j][..|netmap[j]|] == netmap[j];
        assert netmap[..j + 1][..j] == netmap[..j];
        if us != [] {
          var v := VDEPlug(Plug(instance, m.major, us[0].minor), m.sock);
          wires := Extend(wires, v, rest);
        }
      }
      assert netmap[..|netmap|] == netmap;
      assert mappings[..i + 1][..i] == mappings[..i];
    }
    assert mappings[..|mappings|] == mappings;
  }

  /** The triplet `v` is the first of the line on our pseudo instance and the major of the
    * mapping.
    */
  predicate FirstOurs(line: Line, instance: nat, major: nat, v: Plug) {
    exists j :: 0 <= j < |line| && line[j] == v && v.instance == instance && v.major == major
      && forall k :: 0 <= k < j ==> !(line[k].instance == instance && line[k].major == major)
  }

  /** A line wires the plug `p` to our port `v` under the mapping `m`. */
  predicate LineWires(line: Line, instance: nat, m: Mapping, v: Plug, p: Plug) {
    FirstOurs(line, instance, m.major, v) && p in line && !(p.instance == instance && p.major == m.major)
  }

  /** What is found of ours in a line are its triplets on our instance and the major, the
    * first one first.
    */
  lemma {:induction false} OursAre(line: Line, instance: nat, major: nat)
    ensures forall q :: q in Ours(line, instance, major) <==> q in line && q.instance == instance && q.major == major
    ensures Ours(line, instance, major) != [] ==> FirstOurs(line, instance, major, Ours(line, instance, major)[0])
  {
    if line != [] {
      var before, last := line[..|line| - 1], line[|line| - 1];
      OursAre(before, instance, major);
      assert line == before + [last];
      if Ours(before, instance, major) != [] {
        var j :| 0 <= j < |before| && before[j] == Ours(before, instance, major)[0]
          && forall k :: 0 <= k < j ==> !(before[k].instance == instance && before[k].major == major);
        assert line[j] == before[j];
      } else {
        forall k | 0 <= k < |before|
          ensures !(line[k].instance == instance && line[k].major == major)
        {
          assert line[k] == before[k] && before[k] in before;
        }
      }
    }
  }

  lemma FirstOursUnique(line: Line, instance: nat, major: nat, v: Plug, u: Plug)
    requires FirstOurs(line, instance, major, v) && FirstOurs(line, instance, major, u)
    ensures u == v
  {}

  /** There is a first one of ours exactly when something is found, and then it is the
    * head.
    */
  lemma HeadIsFirst(line: Line, instance: nat, major: nat, v: Plug)
    ensures var us := Ours(line, instance, major);
      FirstOurs(line, instance, major, v) <==> us != [] && v == Plug(instance, major, us[0].minor)
  {
    hide Ours;
    OursAre(line, instance, major);
    var us := Ours(line, instance, major);
    if us != [] {
      assert us[0] in us && us[0] == Plug(instance, major, us[0].minor);
    }
    if FirstOurs(line, instance, major, v) {
      assert v in us;
      FirstOursUnique(line, instance, major, v, us[0]);
    }
  }

  lemma {:induction false} OthersAre(line: Line, instance: nat, major: nat, p: Plug)
    ensures p in Others(line, instance, major) <==> p in line && !(p.instance == instance && p.major == major)
  {
    if line != [] {
      OthersAre(line[..|line| - 1], instance, major, p);
      assert line == line[..|line| - 1] + [line[|line| - 1]];
    }
  }

  /** The plug `p` is on the wire of `v`. */
  predicate Wired(w: Wires, v: Plug, p: Plug) {
    v in w.others && p in w.others[v]
  }

  /** One key for each identity, all with a list. */
  ghost predicate ValidWires(w: Wires) {
    && (forall i, j :: 0 <= i < j < |w.order| ==> w.order[i].plug != w.order[j].plug)
    && (forall v :: v in w.others <==> exists i :: 0 <= i < |w.order| && w.order[i].plug == v)
  }

  lemma ExtendWires(w: Wires, v: VDEPlug, ps: seq<Plug>)
    ensures forall u, p :: Wired(Extend(w, v, ps), u, p) <==> Wired(w, u, p) || (u == v.plug && p in ps)
    ensures forall u :: u in w.others ==> w.others[u] <= Extend(w, v, ps).others[u]
  {}

  lemma NewKey(order: seq<VDEPlug>, v: VDEPlug, u: Plug)
    ensures (exists i :: 0 <= i < |order + [v]| && (order + [v])[i].plug == u) <==>
      u == v.plug || exists i :: 0 <= i < |order| && order[i].plug == u
  {
    var r := order + [v];
    assert r[|order|] == v;
    if i :| 0 <= i < |order| && order[i].plug == u {
      assert r[i].plug == u;
    }
  }

  lemma ExtendValid(w: Wires, v: VDEPlug, ps: seq<Plug>)
    requires ValidWires(w)
    ensures ValidWires(Extend(w, v, ps))
  {
    var r := Extend(w, v, ps);
    if v.plug in w.others {
      assert r.order == w.order && r.others.Keys == w.others.Keys;
    } else {
      forall i | 0 <= i < |w.order|
        ensures w.order[i].plug != v.plug
      {
        assert w.order[i].plug in w.others;
      }
      forall u
        ensures u in r.others <==> exists i :: 0 <= i < |r.order| && r.order[i].plug == u
      {
        NewKey(w.order, v, u);
      }
    }
  }

  /** What is on a wire stays there in its order; new plugs come at the end. */
  lemma ExtendKeeps(w: Wires, v: VDEPlug, ps: seq<Plug>)
    requires ValidWires(w)
    ensures ValidWires(Extend(w, v, ps)) && w.order <= Extend(w, v, ps).order
    ensures forall u, p :: Wired(Extend(w, v, ps), u, p) <==> Wired(w, u, p) || (u == v.plug && p in ps)
    ensures forall u :: u in w.others ==> w.others[u] <= Extend(w, v, ps).others[u]
  {
    hide ValidWires, Wired;
    ExtendValid(w, v, ps);
    ExtendWires(w, v, ps);
  }

  /** Every key comes from the command line: its major is mapped to its socket. */
  ghost predicate FromMappings(w: Wires, ms: seq<Mapping>) {
    forall i :: 0 <= i < |w.order| ==> Mapping(w.order[i].plug.major, w.order[i].sock) in ms
  }

  lemma LineKeeps(w: Wires, instance: nat, m: Mapping, line: Line, ms: seq<Mapping>)
    requires ValidWires(w) && FromMappings(w, ms) && m in ms
    ensures var r := WithLine(w, instance, m, line);
      && ValidWires(r) && FromMappings(r, ms)
      && forall v, p :: Wired(r, v, p) <==> Wired(w, v, p) || LineWires(line, instance, m, v, p)
  {
    hide ValidWires, Wired, FirstOurs;
    var us := Ours(line, instance, m.major);
    forall v
      ensures FirstOurs(line, instance, m.major, v) <==> us != [] && v == Plug(instance, m.major, us[0].minor)
    {
      HeadIsFirst(line, instance, m.major, v);
    }
    if us != [] {
      var v := VDEPlug(Plug(instance, m.major, us[0].minor), m.sock);
      ExtendKeeps(w, v, Others(line, instance, m.major));
      forall p
        ensures p in Others(line, instance, m.major) <==> p in line && !(p.instance == instance && p.major == m.major)
      {
        OthersAre(line, instance, m.major, p);
      }
    }
  }

  /** Some of the lines wires `p` to `v`. */
  ghost predicate LinesWire(lines: seq<Line>, instance: nat, m: Mapping, v: Plug, p: Plug) {
    exists j :: 0 <= j < |lines| && LineWires(lines[j], instance, m, v, p)
  }

  lemma {:induction false} LinesKeep(w: Wires, instance: nat, m: Mapping, lines: seq<Line>, ms: seq<Mapping>)
    requires ValidWires(w) && FromMappings(w, ms) && m in ms
    ensures var r := WithLines(w, instance, m, lines);
      && ValidWires(r) && FromMappings(r, ms)
      && forall v, p :: Wired(r, v, p) <==> Wired(w, v, p) || LinesWire(lines, instance, m, v, p)
    decreases |lines|
  {
    hide ValidWires, Wired, FromMappings, LineWires, WithLine;
    if lines != [] {
      var last := |lines| - 1;
      LinesKeep(w, instance, m, lines[..last], ms);
      LineKeeps(WithLines(w, instance, m, lines[..last]), instance, m, lines[last], ms);
      forall v, p
        ensures LinesWire(lines, instance, m, v, p) <==>
          LinesWire(lines[..last], instance, m, v, p) || LineWires(lines[last], instance, m, v, p)
      {
        if LinesWire(lines[..last], instance, m, v, p) {
          var j :| 0 <= j < last && LineWires(lines[..last][j], instance, m, v, p);
          assert LineWires(lines[j], instance, m, v, p);
        }
        if LinesWire(lines, instance, m, v, p) && !LineWires(lines[last], instance, m, v, p) {
          var j :| 0 <= j < |lines| && LineWires(lines[j], instance, m, v, p);
          assert LineWires(lines[..last][j], instance, m, v, p);
        }
      }
    }
  }

  /** Some mapping and line wire `p` to `v`. */
  ghost predicate NetmapWires(ms: seq<Mapping>, lines: seq<Line>, instance: nat, v: Plug, p: Plug) {
    exists i :: 0 <= i < |ms| && LinesWire(lines, instance, ms[i], v, p)
  }

  /** The wires are exactly those of the file: `p` is on the wire of our port `v` when
    * some line, under some mapping, holds both; and every switch plug is there once,
    * with a socket given for its major.
    */
  lemma {:induction false} WiresAreNetmap(instance: nat, ms: seq<Mapping>, lines: seq<Line>)
    ensures var w := WithMappings(instance, ms, lines);
      && ValidWires(w) && FromMappings(w, ms)
      && forall v, p :: Wired(w, v, p) <==> NetmapWires(ms, lines, instance, v, p)
  {
    hide LinesWire, WithLines;
    if ms != [] {
      var last := |ms| - 1;
      var before := WithMappings(instance, ms[..last], lines);
      WiresAreNetmap(instance, ms[..last], lines);
      assert FromMappings(before, ms);
      LinesKeep(before, instance, ms[last], lines, ms);
      hide Wired, ValidWires, FromMappings;
      forall v, p
        ensures NetmapWires(ms, lines, instance, v, p) <==>
          NetmapWires(ms[..last], lines, instance, v, p) || LinesWire(lines, instance, ms[last], v, p)
      {
        if NetmapWires(ms[..last], lines, instance, v, p) {
          var i :| 0 <= i < last && LinesWire(lines, instance, ms[..last][i], v, p);
          assert LinesWire(lines, instance, ms[i], v, p);
        }
        if NetmapWires(ms, lines, instance, v, p) && !LinesWire(lines, instance, ms[last], v, p) {
          var i :| 0 <= i < |ms| && LinesWire(lines, instance, ms[i], v, p);
          assert LinesWire(lines, instance, ms[..last][i], v, p);
        }
      }
    }
  }

  // ----- Routing ----------------------------------------------------------------

  /** A frame handed to a switch. The source is None when it is not registered. */
  datatype Delivery = Delivery(to: VDEPlug, source: Option<Plug>, payload: seq<byte>)

  /** What a datagram is routed to, given the registries. */
  function Route(vdeplugs: map<Plug, VDEPlug>, iouplugs: map<Plug, Plug>, datagram: seq<byte>): Option<Delivery> {
    var data := if |datagram| > MTU + HEADER then datagram[..MTU + HEADER] else datagram;
    match Unpack(data)
    case Error => None
    case Ok(Frame(dst, src, payload)) =>
      if dst !in vdeplugs then None
      else Some(Delivery(vdeplugs[dst], if src in iouplugs then Some(iouplugs[src]) else None, payload))
  }

  /** The switch plugs that have at least one wire, by identity. */
  function Switches(order: seq<VDEPlug>, others: map<Plug, seq<Plug>>): (r: map<Plug, VDEPlug>)
    requires forall i :: 0 <= i < |order| ==> order[i].plug in others
  {
    if order == [] then map[]
    else
      var v := order[|order| - 1];
      var before := Switches(order[..|order| - 1], others);
      if others[v.plug] == [] then before else before[v.plug := v]
  }

  /** The plugs of a list, registered by identity. */
  function Instances(ps: seq<Plug>): (r: map<Plug, Plug>)
    ensures forall p :: p in r <==> p in ps
    ensures forall p :: p in r ==> r[p] == p
  {
    if ps == [] then map[] else Instances(ps[..|ps| - 1])[ps[|ps| - 1] := ps[|ps| - 1]]
  }

  function AllInstances(order: seq<VDEPlug>, others: map<Plug, seq<Plug>>): (r: map<Plug, Plug>)
    requires forall i :: 0 <= i < |order| ==> order[i].plug in others
  {
    if order == [] then map[]
    else AllInstances(order[..|order| - 1], others) + Instances(others[order[|order| - 1].plug])
  }

  lemma InstancesNext(ps: seq<Plug>)
    ensures Instances(ps) ==
      if ps == [] then map[] else Instances(ps[..|ps| - 1])[ps[|ps| - 1] := ps[|ps| - 1]]
  {}

  lemma AddLast(m: map<Plug, Plug>, n: map<Plug, Plug>, p: Plug)
    ensures (m + n)[p := p] == m + n[p := p]
  {}

  /** What the registries hold once all wires are attached. */
  ghost predicate Registered(w: Wires, vdeplugs: map<Plug, VDEPlug>, iouplugs: map<Plug, Plug>) {
    && (forall i :: 0 <= i < |w.order| ==> w.order[i].plug in w.others)
    && vdeplugs == Switches(w.order, w.others)
    && iouplugs == AllInstances(w.order, w.others)
  }

  lemma {:induction false} SwitchesAre(order: seq<VDEPlug>, others: map<Plug, seq<Plug>>)
    requires forall i :: 0 <= i < |order| ==> order[i].plug in others
    requires forall i, j :: 0 <= i < j < |order| ==> order[i].plug != order[j].plug
    ensures var r := Switches(order, others);
      && (forall i :: 0 <= i < |order| && others[order[i].plug] != [] ==>
            order[i].plug in r && r[order[i].plug] == order[i])
      && (forall u :: u in r ==> r[u] in order && r[u].plug == u && others[u] != [])
  {
    if order != [] {
      SwitchesAre(order[..|order| - 1], others);
    }
  }

  lemma {:induction false} InstancesHave(order: seq<VDEPlug>, others: map<Plug, seq<Plug>>, i: nat, p: Plug)
    requires forall i :: 0 <= i < |order| ==> order[i].plug in others
    requires i < |order| && p in others[order[i].plug]
    ensures p in AllInstances(order, others)
  {
    if i < |order| - 1 {
      InstancesHave(order[..|order| - 1], others, i, p);
    }
  }

  lemma {:induction false} InstancesAreSelf(order: seq<VDEPlug>, others: map<Plug, seq<Plug>>, p: Plug)
    requires forall i :: 0 <= i < |order| ==> order[i].plug in others
    requires p in AllInstances(order, others)
    ensures AllInstances(order, others)[p] == p
  {
    if p !in Instances(others[order[|order| - 1].plug]) {
      InstancesAreSelf(order[..|order| - 1], others, p);
    }
  }

  /** A datagram longer than what is received has the same header. */
  lemma SameHeader(datagram: seq<byte>)
    ensures var data := if |datagram| > MTU + HEADER then datagram[..MTU + HEADER] else datagram;
      && (Unpack(data).Ok? <==> Unpack(datagram).Ok?)
      && (Unpack(data).Ok? ==>
            && Unpack(data).value.dst == Unpack(datagram).value.dst
            && Unpack(data).value.src == Unpack(datagram).value.src
            && Unpack(data).value.payload == datagram[8..if |datagram| > 1588 then 1588 else |datagram|])
  {}

  /** A switch plug is registered exactly when something is on its wire. */
  lemma SwitchRegistered(w: Wires, u: Plug)
    requires ValidWires(w)
    ensures forall i :: 0 <= i < |w.order| ==> w.order[i].plug in w.others
    ensures u in Switches(w.order, w.others) <==> exists p :: Wired(w, u, p)
    ensures u in Switches(w.order, w.others) ==>
      Switches(w.order, w.others)[u] in w.order && Switches(w.order, w.others)[u].plug == u
  {
    SwitchesAre(w.order, w.others);
    var r := Switches(w.order, w.others);
    if u in r {
      var v := r[u];
      assert v in w.order && v.plug == u;
      var i :| 0 <= i < |w.order| && w.order[i] == v;
      assert Wired(w, u, w.others[u][0]);
    }
  }

  lemma {:induction false} InstancesFrom(order: seq<VDEPlug>, others: map<Plug, seq<Plug>>, p: Plug)
    requires forall i :: 0 <= i < |order| ==> order[i].plug in others
    requires p in AllInstances(order, others)
    ensures exists i :: 0 <= i < |order| && p in others[order[i].plug]
  {
    if p !in Instances(others[order[|order| - 1].plug]) {
      InstancesFrom(order[..|order| - 1], others, p);
      var i :| 0 <= i < |order| - 1 && p in others[order[..|order| - 1][i].plug];
      assert p in others[order[i].plug];
    }
  }

  /** A source is registered exactly when it is on some wire. */
  lemma SourceRegistered(w: Wires, p: Plug)
    requires ValidWires(w) && forall i :: 0 <= i < |w.order| ==> w.order[i].plug in w.others
    ensures p in AllInstances(w.order, w.others) <==> exists v :: Wired(w, v, p)
    ensures p in AllInstances(w.order, w.others) ==> AllInstances(w.order, w.others)[p] == p
  {
    hide AllInstances;
    if p in AllInstances(w.order, w.others) {
      InstancesAreSelf(w.order, w.others, p);
      InstancesFrom(w.order, w.others, p);
      var i :| 0 <= i < |w.order| && p in w.others[w.order[i].plug];
      assert Wired(w, w.order[i].plug, p);
    } else if v :| Wired(w, v, p) {
      var i :| 0 <= i < |w.order| && w.order[i].plug == v;
      InstancesHave(w.order, w.others, i, p);
    }
  }

  /** Exactly what is routed: a datagram with a right header whose destination has a wire
    * goes to the switch plug it names, with at most an MTU of payload; its source is the
    * plug it names when that is on some wire, and unknown otherwise.
    */
  lemma RoutedIsWired(w: Wires, vdeplugs: map<Plug, VDEPlug>, iouplugs: map<Plug, Plug>, datagram: seq<byte>)
    requires ValidWires(w) && Registered(w, vdeplugs, iouplugs)
    ensures var r, f := Route(vdeplugs, iouplugs, datagram), Unpack(datagram);
      && (r.Some? <==> f.Ok? && exists p :: Wired(w, f.value.dst, p))
      && (r.Some? ==>
            && r.value.to in w.order && r.value.to.plug == f.value.dst
            && r.value.payload == datagram[8..if |datagram| > 1588 then 1588 else |datagram|]
            && r.value.source == if exists v :: Wired(w, v, f.value.src) then Some(f.value.src) else None)
  {
    hide Unpack, Switches, AllInstances, ValidWires, Wired;
    SameHeader(datagram);
    if Unpack(datagram).Ok? {
      SwitchRegistered(w, Unpack(datagram).value.dst);
      SourceRegistered(w, Unpack(datagram).value.src);
    }
  }

  lemma WiredIsRegistered(w: Wires, vdeplugs: map<Plug, VDEPlug>, iouplugs: map<Plug, Plug>, v: VDEPlug, p: Plug)
    requires ValidWires(w) && Registered(w, vdeplugs, iouplugs)
    requires v in w.order && Wired(w, v.plug, p)
    ensures v.plug in vdeplugs && vdeplugs[v.plug] == v
    ensures p in iouplugs && iouplugs[p] == p
  {
    hide Switches, AllInstances;
    SwitchesAre(w.order, w.others);
    var i :| 0 <= i < |w.order| && w.order[i] == v;
    InstancesHave(w.order, w.others, i, p);
    InstancesAreSelf(w.order, w.others, p);
  }

  /** A frame that `p` sends to the switch plug `v` at the other end of its wire is packed
    * and routed to `v`, with its source and its payload, exactly when the fields of both
    * plugs fit; for every wiring.
    */
  lemma WireRoutes(w: Wires, vdeplugs: map<Plug, VDEPlug>, iouplugs: map<Plug, Plug>,
                   v: VDEPlug, p: Plug, payload: seq<byte>)
    requires ValidWires(w) && Registered(w, vdeplugs, iouplugs)
    requires v in w.order && Wired(w, v.plug, p) && |payload| <= MTU
    ensures (Pack(v.plug, p).Ok? &&
             Route(vdeplugs, iouplugs, Pack(v.plug, p).value + payload) == Some(Delivery(v, Some(p), payload)))
       <==> Fits(v.plug) && Fits(p)
  {
    hide Pack, Unpack, Switches, AllInstances;
    RoundTrip(v.plug, p, payload);
    if Pack(v.plug, p).Ok? {
      var datagram := Pack(v.plug, p).value + payload;
      if Fits(v.plug) && Fits(p) {
        WiredIsRegistered(w, vdeplugs, iouplugs, v, p);
      } else if Route(vdeplugs, iouplugs, datagram) == Some(Delivery(v, Some(p), payload)) {
        RoutedIsWired(w, vdeplugs, iouplugs, datagram);
        assert false;
      }
    }
  }

  /** The answer to a frame sent down a wire, its header with the two ends swapped, comes
    * back to the switch plug that sent it exactly when the fields of both plugs fit.
    */
  lemma AnswerRoutes(w: Wires, vdeplugs: map<Plug, VDEPlug>, iouplugs: map<Plug, Plug>,
                     v: VDEPlug, p: Plug, payload: seq<byte>)
    requires ValidWires(w) && Registered(w, vdeplugs, iouplugs)
    requires v in w.order && Wired(w, v.plug, p) && |payload| <= MTU
    ensures (Pack(p, v.plug).Ok? &&
             Route(vdeplugs, iouplugs, Swap(Pack(p, v.plug).value) + payload) == Some(Delivery(v, Some(p), payload)))
       <==> Fits(v.plug) && Fits(p)
  {
    hide Route, Pack, Unpack, Swap;
    SwapIsAnswer(p, v.plug);
    WireRoutes(w, vdeplugs, iouplugs, v, p, payload);
  }

  // ----- Whole runs -------------------------------------------------------------

  /** What is delivered, in order, when all connections are up. */
  function Deliveries(vdeplugs: map<Plug, VDEPlug>, iouplugs: map<Plug, Plug>, datagrams: seq<seq<byte>>)
    : (d: seq<Delivery>)
    ensures |d| <= |datagrams|
  {
    if datagrams == [] then []
    else
      var last := |datagrams| - 1;
      Deliveries(vdeplugs, iouplugs, datagrams[..last])
      + match Route(vdeplugs, iouplugs, datagrams[last]) case None => [] case Some(d) => [d]
  }

  /** A frame that a plug sends to the switch plug at the other end of its wire. */
  datatype Sent = Sent(to: VDEPlug, from: Plug, payload: seq<byte>)

  /** The datagrams of the frames sent; one that cannot be packed raises and is not sent. */
  function Datagrams(sent: seq<Sent>): (d: seq<seq<byte>>)
    ensures |d| <= |sent|
  {
    if sent == [] then []
    else
      var s := sent[|sent| - 1];
      Datagrams(sent[..|sent| - 1])
      + match Pack(s.to.plug, s.from) case Error => [] case Ok(h) => [h + s.payload]
  }

  /** What must arrive. */
  function Arrivals(sent: seq<Sent>): (d: seq<Delivery>)
    ensures |d| == |sent|
  {
    seq(|sent|, i requires 0 <= i < |sent| => Delivery(sent[i].to, Some(sent[i].from), sent[i].payload))
  }

  /** The frames go down wires. */
  ghost predicate OnWires(w: Wires, sent: seq<Sent>) {
    forall i :: 0 <= i < |sent| ==>
      sent[i].to in w.order && Wired(w, sent[i].to.plug, sent[i].from) && |sent[i].payload| <= MTU
  }

  /** The fields of all plugs fit. */
  ghost predicate AllFit(sent: seq<Sent>) {
    forall i :: 0 <= i < |sent| ==> Fits(sent[i].to.plug) && Fits(sent[i].from)
  }

  lemma AllFitLast(sent: seq<Sent>, s: Sent)
    ensures AllFit(sent + [s]) <==> AllFit(sent) && Fits(s.to.plug) && Fits(s.from)
  {
    hide Fits;
    assert (sent + [s])[|sent|] == s && forall i :: 0 <= i < |sent| ==> (sent + [s])[i] == sent[i];
  }

  /** With at most one more delivery each time, the deliveries are the arrivals exactly
    * when they were before and the last one is.
    */
  lemma LastArrival(d: seq<Delivery>, r: Option<Delivery>, a: seq<Delivery>, x: Delivery)
    requires |d| <= |a|
    ensures d + (match r case None => [] case Some(y) => [y]) == a + [x] <==> d == a && r == Some(x)
  {
    match r
    case None =>
      assert |d + []| < |a + [x]|;
    case Some(y) =>
      if d + [y] == a + [x] {
        assert (d + [y])[..|d|] == d && (a + [x])[..|a|] == a;
        assert (d + [y])[|d|] == y && (a + [x])[|a|] == x;
      }
  }

  lemma NothingSent(vdeplugs: map<Plug, VDEPlug>, iouplugs: map<Plug, Plug>)
    ensures Deliveries(vdeplugs, iouplugs, Datagrams([])) == Arrivals([])
  {}

  lemma OneMoreSent(sent: seq<Sent>, s: Sent)
    ensures Datagrams(sent + [s]) == Datagrams(sent)
      + match Pack(s.to.plug, s.from) case Error => [] case Ok(h) => [h + s.payload]
    ensures Arrivals(sent + [s]) == Arrivals(sent) + [Delivery(s.to, Some(s.from), s.payload)]
  {
    hide Pack;
    assert (sent + [s])[..|sent|] == sent;
  }

  lemma OneMoreDelivered(vdeplugs: map<Plug, VDEPlug>, iouplugs: map<Plug, Plug>, datagrams: seq<seq<byte>>,
                         x: seq<byte>)
    ensures Deliveries(vdeplugs, iouplugs, datagrams + [x]) == Deliveries(vdeplugs, iouplugs, datagrams)
      + match Route(vdeplugs, iouplugs, x) case None => [] case Some(d) => [d]
  {
    hide Route;
    assert (datagrams + [x])[..|datagrams|] == datagrams;
  }

  /** Every frame sent down a wire is delivered exactly once, in order, to its switch,
    * exactly when the fields of all plugs fit.
    */
  lemma {:induction false} ArriveOnce(w: Wires, vdeplugs: map<Plug, VDEPlug>, iouplugs: map<Plug, Plug>,
                                      sent: seq<Sent>)
    requires ValidWires(w) && Registered(w, vdeplugs, iouplugs) && OnWires(w, sent)
    ensures Deliveries(vdeplugs, iouplugs, Datagrams(sent)) == Arrivals(sent) <==> AllFit(sent)
  {
    hide Route, Pack, ValidWires, Registered, Wired, Fits, Deliveries, Datagrams, Arrivals;
    NothingSent(vdeplugs, iouplugs);
    if sent != [] {
      var before, s := sent[..|sent| - 1], sent[|sent| - 1];
      assert sent == before + [s];
      ArriveOnce(w, vdeplugs, iouplugs, before);
      WireRoutes(w, vdeplugs, iouplugs, s.to, s.from, s.payload);
      OneMoreSent(before, s);
      AllFitLast(before, s);
      if Pack(s.to.plug, s.from).Ok? {
        var datagram := Pack(s.to.plug, s.from).value + s.payload;
        OneMoreDelivered(vdeplugs, iouplugs, Datagrams(before), datagram);
        LastArrival(Deliveries(vdeplugs, iouplugs, Datagrams(before)), Route(vdeplugs, iouplugs, datagram),
                    Arrivals(before), Delivery(s.to, Some(s.from), s.payload));
      }
    }
  }

  lemma NothingDelivered(vdeplugs: map<Plug, VDEPlug>, iouplugs: map<Plug, Plug>)
    ensures Deliveries(vdeplugs, iouplugs, []) == []
  {}

  lemma KeysHaveLists(w: Wires)
    requires ValidWires(w)
    ensures forall i :: 0 <= i < |w.order| ==> w.order[i].plug in w.others
  {}

  class IOUPlugClass {
    var vdeplugs: map<Plug, VDEPlug>
    var iouplugs: map<Plug, Plug>
    // Switch plugs whose connection was lost.
    var closed: set<VDEPlug>
    var delivered: seq<Delivery>

    constructor ()
      ensures vdeplugs == map[] && iouplugs == map[] && closed == {} && delivered == []
    {
      vdeplugs, iouplugs, closed, delivered := map[], map[], {}, [];
    }

    method Attach(p: Plug, other: VDEPlug)
      modifies this`vdeplugs, this`iouplugs
      ensures vdeplugs == old(vdeplugs)[other.plug := other]
      ensures iouplugs == old(iouplugs)[p := p]
    {
      vdeplugs := vdeplugs[other.plug := other];
      iouplugs := iouplugs[p := p];
    }

    method AttachAll(ps: seq<Plug>, v: VDEPlug)
      modifies this`vdeplugs, this`iouplugs
      ensures vdeplugs == if ps == [] then old(vdeplugs) else old(vdeplugs)[v.plug := v]
      ensures iouplugs == old(iouplugs) + Instances(ps)
    {
      InstancesNext(ps[..0]);
      hide Instances;
      for k := 0 to |ps|
        invariant vdeplugs == if k == 0 then old(vdeplugs) else old(vdeplugs)[v.plug := v]
        invariant iouplugs == old(iouplugs) + Instances(ps[..k])
      {
        Attach(ps[k], v);
        assert ps[..k + 1] == ps[..k] + [ps[k]];
        InstancesNext(ps[..k + 1]);
        AddLast(old(iouplugs), Instances(ps[..k]), ps[k]);
        assert ps[..k + 1][..k] == ps[..k];
      }
      assert ps[..|ps|] == ps;
    }

    method SetupVde(wires: Wires)
      requires ValidWires(wires)
      requires vdeplugs == map[] && iouplugs == map[]
      modifies this`vdeplugs, this`iouplugs
      ensures Registered(wires, vdeplugs, iouplugs)
    {
      hide Instances, ValidWires;
      var order := wires.order;
      KeysHaveLists(wires);
      for i := 0 to |order|
        invariant vdeplugs == Switches(order[..i], wires.others)
        invariant iouplugs == AllInstances(order[..i], wires.others)
      {
        var v := order[i];
        AttachAll(wires.others[v.plug], v);
        assert order[..i + 1][..i] == order[..i];
      }
      assert order[..|order|] == order;
    }

    /** Reads one datagram and hands the frame to its switch, if it has one and the
      * connection is up.
      */
    method Reader(datagram: seq<byte>)
      modifies this`delivered
      ensures var r := Route(vdeplugs, iouplugs, datagram);
        delivered == old(delivered) + if r.Some? && r.value.to !in closed then [r.value] else []
    {
      var data := if |datagram| > MTU + HEADER then datagram[..MTU + HEADER] else datagram;
      var frame := Unpack(data);
      if frame.Error? {
        return;
      }
      var Frame(dst, src, payload) := frame.value;
      if dst !in vdeplugs {
        return;
      }
      var source := if src in iouplugs then Some(iouplugs[src]) else None;
      var destination := vdeplugs[dst];
      if destination !in closed {
        delivered := delivered + [Delivery(destination, source, payload)];
      }
    }
  }

  /** From the NETMAP file to the registries: what is registered are the wires of the
    * file.
    */
  method Connect(instance: nat, netmap: seq<Line>, mappings: seq<Mapping>)
    returns (cls: IOUPlugClass, wires: Wires)
    ensures fresh(cls) && cls.closed == {} && cls.delivered == []
    ensures ValidWires(wires) && FromMappings(wires, mappings)
    ensures Registered(wires, cls.vdeplugs, cls.iouplugs)
    ensures forall v, p :: Wired(wires, v, p) <==> NetmapWires(mappings, netmap, instance, v, p)
  {
    hide ValidWires, Wired, FromMappings, NetmapWires, Registered;
    cls := new IOUPlugClass();
    wires := ParseNetmap(instance, netmap, mappings);
    WiresAreNetmap(instance, mappings, netmap);
    cls.SetupVde(wires);
  }

  /** From the NETMAP file to the switches: when the datagrams read are those of frames
    * sent down the wires of the file, each frame is delivered exactly once, in order,
    * exactly when the fields of all plugs fit.
    */
  method Serve(instance: nat, netmap: seq<Line>, mappings: seq<Mapping>, datagrams: seq<seq<byte>>)
    returns (cls: IOUPlugClass, wires: Wires)
    ensures fresh(cls) && ValidWires(wires) && FromMappings(wires, mappings)
    ensures forall v, p :: Wired(wires, v, p) <==> NetmapWires(mappings, netmap, instance, v, p)
    ensures cls.delivered == Deliveries(cls.vdeplugs, cls.iouplugs, datagrams)
    ensures forall sent :: OnWires(wires, sent) && Datagrams(sent) == datagrams ==>
      (cls.delivered == Arrivals(sent) <==> AllFit(sent))
  {
    hide ValidWires, Wired, FromMappings, NetmapWires, Registered, Route, Deliveries, Datagrams, Arrivals, OnWires,
      AllFit;
    cls, wires := Connect(instance, netmap, mappings);
    NothingDelivered(cls.vdeplugs, cls.iouplugs);
    assert datagrams[..0] == [];
    for k := 0 to |datagrams|
      invariant cls.closed == {} && Registered(wires, cls.vdeplugs, cls.iouplugs)
      invariant cls.delivered == Deliveries(cls.vdeplugs, cls.iouplugs, datagrams[..k])
    {
      OneMoreDelivered(cls.vdeplugs, cls.iouplugs, datagrams[..k], datagrams[k]);
      assert datagrams[..k + 1] == datagrams[..k] + [datagrams[k]];
      cls.Reader(datagrams[k]);
    }
    assert datagrams[..|datagrams|] == datagrams;
    forall sent | OnWires(wires, sent) && Datagrams(sent) == datagrams
      ensures cls.delivered == Arrivals(sent) <==> AllFit(sent)
    {
      ArriveOnce(wires, cls.vdeplugs, cls.iouplugs, sent);
    }
  }
}
