/** The scanned world: adding devices, linking parents and children, and naming (AddDev, PciInit
    and InitNickName in pci/defs.go). */
module PciWorld {
  import opened PciNames
  import opened Pci

  class World {
    var devs: seq<PciDev>
    var bus: map<nat, PciDev>
    var devFn: map<nat, PciDev>
    var nameCount: map<string, nat>

    constructor ()
      ensures devs == [] && bus == map[] && devFn == map[] && nameCount == map[]
      ensures BusesKnown()
    {
      devs, bus, devFn, nameCount := [], map[], map[], map[];
    }

    /** The bus table points at listed bridges that lead to these buses. */
    ghost predicate BusesKnown()
      reads `devs, `bus, (set d | d in devs)`secondary
    {
      forall b :: b in bus ==> bus[b] in devs && bus[b].secondary == b
    }

    /** Reads a device's configuration and lists it, unless nothing answers. The chains witness
        that its capability walks end. */
    method AddDev(d: PciDev, ghost caps: seq<nat>, ghost ecaps: seq<nat>)
      requires BusesKnown() && d !in devs
      requires IsChain(Caps(d.cfg), d.cfg(0x34), caps) && IsChain(Ecaps(d.cfg), 0x100, ecaps)
      modifies this, d
      ensures BusesKnown()
      ensures d.parent == old(d.parent) && d.lnkChild == old(d.lnkChild) && d.app == old(d.app)
      ensures devs == old(devs) + if Answers(d.cfg) then [d] else []
      ensures Answers(d.cfg) ==> devFn == old(devFn)[256 * (d.bus as nat) + d.devFn := d]
      ensures bus == if Answers(d.cfg) && IsBridge(d.cfg) then old(bus)[d.cfg(0x19) as nat := d] else old(bus)
      ensures Answers(d.cfg) ==> Configured(d, caps, ecaps)
      ensures nameCount == old(nameCount)
      // The same in the bytes of configuration space.
      ensures (d in devs) == !(d.cfg(0) == d.cfg(1) == d.cfg(2) == d.cfg(3) == 0xff)
      ensures d in devs && d.cfg(0xe) in {0x01, 0x81} ==> d.cfg(0x19) as nat in bus && bus[d.cfg(0x19) as nat] == d
      ensures d in devs && d.cfg(0xe) !in {0x01, 0x81} ==> bus == old(bus)
      ensures d in devs ==> ReadsBytes(d)
    {
      PlainBytes(d.cfg);
      Configure(d, caps, ecaps);
      if d.vendor == 0xffff && d.device == 0xffff { return; }
      ConfiguredBytes(d, caps, ecaps);
      Enlist(d);
    }

    /** The part of it that lists the device. */
    method Enlist(d: PciDev)
      requires BusesKnown() && d !in devs && (IsBridge(d.cfg) ==> d.secondary == d.cfg(0x19))
      modifies this
      ensures BusesKnown() && devs == old(devs) + [d]
      ensures devFn == old(devFn)[256 * (d.bus as nat) + d.devFn := d]
      ensures bus == if IsBridge(d.cfg) then old(bus)[d.cfg(0x19) as nat := d] else old(bus)
      ensures nameCount == old(nameCount)
    {
      devs := devs + [d];
      if IsBridge(d.cfg) {
        bus := bus[d.secondary := d];
      }
      devFn := devFn[256 * (d.bus as nat) + d.devFn := d];
    }
  }

  /** The fields, byte by byte. */
  ghost predicate ReadsBytes(d: PciDev)
    reads d
  {
    && d.vendor == d.cfg(0) + 256 * (d.cfg(1) as nat) && d.device == d.cfg(2) + 256 * (d.cfg(3) as nat)
    && d.devClass == d.cfg(0xa) + 256 * (d.cfg(0xb) as nat)
    && (0x10 !in d.ocap ==> d.devType == -1)
    && (0x10 in d.ocap && d.ocap[0x10] > 0 ==>
         var c := d.ocap[0x10];
         && d.devType == d.cfg(c + 2) / 16
         && d.lnkCapSpeed == d.cfg(c + 0xc) % 16
         && d.lnkCapWidth == d.cfg(c + 0xc) / 16 + 16 * (d.cfg(c + 0xd) % 4))
  }

  lemma PlainBytes(cfg: Config)
    ensures Answers(cfg) == !(cfg(0) == cfg(1) == cfg(2) == cfg(3) == 0xff)
    ensures IsBridge(cfg) == (cfg(0xe) in {0x01, 0x81})
  {
  }

  lemma ConfiguredBytes(d: PciDev, caps: seq<nat>, ecaps: seq<nat>)
    requires IsChain(Caps(d.cfg), d.cfg(0x34), caps) && IsChain(Ecaps(d.cfg), 0x100, ecaps)
    requires Configured(d, caps, ecaps)
    ensures ReadsBytes(d)
  {
    if 0x10 in d.ocap && d.ocap[0x10] > 0 {
      var c := d.ocap[0x10];
      LinkFields(d.cfg, c);
      assert c + 0xc + 1 == c + 0xd && LinkCapRead(d, c);
    }
  }

  /** The part of `AddDev` that reads the device's configuration space. */
  method Configure(d: PciDev, ghost caps: seq<nat>, ghost ecaps: seq<nat>)
    requires IsChain(Caps(d.cfg), d.cfg(0x34), caps) && IsChain(Ecaps(d.cfg), 0x100, ecaps)
    modifies d`vendor, d`device, d`devClass, d`ocap, d`ecap, d`devType, d`secondary, d`lnkCapWidth, d`lnkCapSpeed
    ensures d.vendor == Read16(d.cfg, 0) && d.device == Read16(d.cfg, 2)
    ensures Answers(d.cfg) ==> Configured(d, caps, ecaps)
  {
    d.devType := -1;
    d.vendor, d.device := Read16(d.cfg, 0), Read16(d.cfg, 2);
    if d.vendor == 0xffff && d.device == 0xffff { return; }
    d.devClass := Read16(d.cfg, 0xa);
    ReadCaps(d, caps, ecaps);
  }

  /** The part of it that walks the capabilities. */
  method ReadCaps(d: PciDev, ghost caps: seq<nat>, ghost ecaps: seq<nat>)
    requires IsChain(Caps(d.cfg), d.cfg(0x34), caps) && IsChain(Ecaps(d.cfg), 0x100, ecaps) && d.devType == -1
    modifies d`ocap, d`ecap, d`devType, d`secondary, d`lnkCapWidth, d`lnkCapSpeed
    ensures CapsRead(d, caps, ecaps)
  {
    d.CapInit(caps);
    var capExp := Get(d.ocap, PCI_CAP_ID_EXP);
    if capExp > 0 {
      ReadLinkCap(d, capExp);
    }
    d.EcapInit(ecaps);
    if IsBridge(d.cfg) {
      d.secondary := d.cfg(0x19);
    }
  }

  /** The part of it that concerns the PCI Express capability. */
  method ReadLinkCap(d: PciDev, capExp: nat)
    requires capExp > 0
    modifies d`devType, d`lnkCapWidth, d`lnkCapSpeed
    ensures d.devType == DevType(d.cfg, capExp) && LinkCapRead(d, capExp)
  {
    d.devType := d.cfg(capExp + 2) / 0x10 % 0x10;
    var lnkCap := Read16(d.cfg, capExp + 0xc);
    d.lnkCapWidth, d.lnkCapSpeed := lnkCap / 0x10 % 0x40, lnkCap % 0x10;
  }

  ghost predicate LinkCapRead(d: PciDev, capExp: nat)
    reads d`lnkCapWidth, d`lnkCapSpeed
  {
    var lnkCap := Read16(d.cfg, capExp + 0xc);
    d.lnkCapWidth == lnkCap / 0x10 % 0x40 && d.lnkCapSpeed == lnkCap % 0x10
  }

  predicate Answers(cfg: Config) { !(Read16(cfg, 0) == 0xffff && Read16(cfg, 2) == 0xffff) }

  predicate IsBridge(cfg: Config) { cfg(0xe) % 0x80 == 1 }

  /** The device type of the PCI Express capability, -1 without one. */
  function DevType(cfg: Config, capExp: nat): int { if capExp > 0 then cfg(capExp + 2) / 0x10 % 0x10 else -1 }

  /** The fields say what configuration space says. */
  ghost predicate Configured(d: PciDev, caps: seq<nat>, ecaps: seq<nat>)
    requires IsChain(Caps(d.cfg), d.cfg(0x34), caps) && IsChain(Ecaps(d.cfg), 0x100, ecaps)
    reads d
  {
    && d.vendor == Read16(d.cfg, 0) && d.device == Read16(d.cfg, 2) && d.devClass == Read16(d.cfg, 0xa)
    && CapsRead(d, caps, ecaps)
  }

  ghost predicate CapsRead(d: PciDev, caps: seq<nat>, ecaps: seq<nat>)
    requires IsChain(Caps(d.cfg), d.cfg(0x34), caps) && IsChain(Ecaps(d.cfg), 0x100, ecaps)
    reads d`ocap, d`ecap, d`devType, d`secondary, d`lnkCapWidth, d`lnkCapSpeed
  {
    && d.ecap == Found(Ecaps(d.cfg), ecaps, |ecaps| - 1)
    && d.ocap == (if Read16(d.cfg, 6) / 0x10 % 2 == 0 then map[] else Found(Caps(d.cfg), caps, |caps| - 1))
    && d.devType == DevType(d.cfg, Get(d.ocap, PCI_CAP_ID_EXP))
    && (Get(d.ocap, PCI_CAP_ID_EXP) > 0 ==> LinkCapRead(d, Get(d.ocap, PCI_CAP_ID_EXP)))
    && (IsBridge(d.cfg) ==> d.secondary == d.cfg(0x19))
  }

  // ---- Linking ----

  /** The bridge that leads to a device's bus, if it is known. */
  ghost function Up(w: World, d: PciDev): PciDev?
    reads w`bus
  {
    if d.bus as nat in w.bus then w.bus[d.bus as nat] else null
  }

  /** `c` is the function 0 behind the port `p`, and of a kind that links. */
  ghost predicate LinkPair(w: World, p: PciDev, c: PciDev)
    reads w`bus, w`devs, p`devType, c`devType
  {
    && c in w.devs && Up(w, c) == p && c.devFn == 0
    && p.devType in {TYPE_ROOT_PORT, TYPE_DOWNSTREAM} && c.devType in {TYPE_ENDPOINT, TYPE_UPSTREAM}
  }

  /** One device per bus and function. */
  ghost predicate Unique(devs: seq<PciDev>) {
    forall i, j :: 0 <= i < j < |devs| ==>
      devs[i] != devs[j] && (devs[i].bus != devs[j].bus || devs[i].devFn != devs[j].devFn)
  }

  ghost function UpSet(w: World, d: PciDev): set<PciDev>
    reads w`bus
  {
    if Up(w, d) != null then {Up(w, d)} else {}
  }

  ghost function ChildSet(p: PciDev): set<PciDev>
    reads p`lnkChild
  {
    if p.lnkChild != null then {p.lnkChild} else {}
  }

  /** A device knows its parent, and its parent knows it if it is the link's other end. */
  ghost predicate DevLinked(w: World, d: PciDev)
    reads w`bus, w`devs, d`parent, d`devType, UpSet(w, d)`devType, UpSet(w, d)`lnkChild
  {
    && d.parent == Up(w, d)
    && (Up(w, d) != null && LinkPair(w, Up(w, d), d) ==> Up(w, d).lnkChild == d)
  }

  /** A link child is one. */
  ghost predicate ChildLinked(w: World, p: PciDev)
    reads w`bus, w`devs, p`devType, p`lnkChild, ChildSet(p)`devType
  {
    p.lnkChild != null ==> LinkPair(w, p, p.lnkChild)
  }

  /** Two devices that link to the same port are the same. */
  lemma OneChild(w: World, p: PciDev, c1: PciDev, c2: PciDev)
    requires w.BusesKnown() && Unique(w.devs) && LinkPair(w, p, c1) && LinkPair(w, p, c2)
    ensures c1 == c2
  {
    assert w.bus[c1.bus as nat].secondary == c1.bus && w.bus[c2.bus as nat].secondary == c2.bus;
    var i :| 0 <= i < |w.devs| && w.devs[i] == c1;
    var j :| 0 <= j < |w.devs| && w.devs[j] == c2;
    SameSpot(w.devs, i, j);
    SameSpot(w.devs, j, i);
  }

  lemma SameSpot(devs: seq<PciDev>, i: nat, j: nat)
    requires Unique(devs) && i < |devs| && j < |devs|
    ensures devs[i].bus == devs[j].bus && devs[i].devFn == devs[j].devFn ==> i >= j
  {
  }

  lemma NotTwoChildren(w: World, p: PciDev?, c1: PciDev, c2: PciDev)
    requires w.BusesKnown() && Unique(w.devs) && c1 != c2
    ensures p == null || !LinkPair(w, p, c1) || !LinkPair(w, p, c2)
  {
    if p != null && LinkPair(w, p, c1) && LinkPair(w, p, c2) { OneChild(w, p, c1, c2); }
  }

  /** One round of `PciInit`'s first loop. */
  method LinkOne(w: World, d: PciDev)
    requires d in w.devs && w.BusesKnown() && d.parent == null
    modifies d`parent, UpSet(w, d)`lnkChild
    ensures d.parent == Up(w, d)
    ensures Up(w, d) != null ==>
      Up(w, d).lnkChild == (if LinkPair(w, Up(w, d), d) then d else old(Up(w, d).lnkChild))
  {
    if d.bus as nat in w.bus {
      var up := w.bus[d.bus as nat];
      d.parent := up;
      if d.devFn == 0 && (up.devType == TYPE_ROOT_PORT || up.devType == TYPE_DOWNSTREAM)
        && (d.devType == TYPE_ENDPOINT || d.devType == TYPE_UPSTREAM) {
        up.lnkChild := d;
      }
    }
  }

  /** The first loop of `PciInit`. */
  method LinkAll(w: World)
    requires w.BusesKnown() && Unique(w.devs)
    requires forall d :: d in w.devs ==> d.parent == null && d.lnkChild == null
    modifies (set d | d in w.devs)`parent, (set d | d in w.devs)`lnkChild
    ensures w.BusesKnown()
    ensures forall d :: d in w.devs ==> DevLinked(w, d) && ChildLinked(w, d)
  {
    for i := 0 to |w.devs|
      invariant w.BusesKnown()
      invariant forall j :: 0 <= j < i ==> DevLinked(w, w.devs[j])
      invariant forall j :: i <= j < |w.devs| ==> w.devs[j].parent == null
      invariant forall d :: d in w.devs ==> ChildLinked(w, d)
    {
      var d := w.devs[i];
      LinkOne(w, d);
      forall j | 0 <= j < i + 1 ensures DevLinked(w, w.devs[j]) {
        if j < i { NotTwoChildren(w, Up(w, d), w.devs[j], d); }
      }
    }
  }

  // ---- Naming ----

  /** The kind a device is called after; downstream ports and unknown devices have none. */
  function BaseName(devType: int, vendor: nat, devClass: nat, devFn: nat): (s: string)
    ensures s != "" ==> s in BASES
  {
    if devType == TYPE_ROOT_PORT then "ROOT"
    else if devType == TYPE_UPSTREAM && vendor == 0x8086 then "ISW"
    else if devType == TYPE_UPSTREAM && vendor == 0x10b5 then "PLX"
    else if devType == TYPE_UPSTREAM && vendor == 0x11f8 then "RIMFIRE"
    else if devType == TYPE_DOWNSTREAM then ""
    else if devType == TYPE_ENDPOINT && vendor == 0x15b7 then "sandisk"
    else if devType == TYPE_ENDPOINT && vendor == 0x15b3 && devFn == 0 then "MLX"
    else if devType == TYPE_PCI_BRIDGE && vendor == 0x1a03 then "AST"
    else if devType == TYPE_ENDPOINT && vendor == 0x8086 && devClass == 0x0200 then "IETH"
    else if devType == TYPE_ENDPOINT && vendor == 0x1425 && devClass == 0x0200 && devFn == 0 then "CHL"
    else if devType == TYPE_ENDPOINT && vendor == 0x8086 && devClass == 0x0106 then "INTEL-SATA"
    else if devType == TYPE_ENDPOINT && vendor == 0x8086 && devClass == 0x0107 then "INTEL-SAS"
    else if devType == TYPE_ENDPOINT && vendor == 0x1000 && devClass == 0x0107 then "LSI-SAS"
    else ""
  }

  ghost function Parents(d: PciDev): set<PciDev>
    reads d`parent
  {
    if d.parent != null then {d.parent} else {}
  }

  /** Names one device. A downstream port without a parent would be a nil dereference. */
  method InitNickName(w: World, d: PciDev)
    requires d.devType == TYPE_DOWNSTREAM ==> d.parent != null
    modifies w`nameCount, d`nickname, d`path, Parents(d)`downPorts
    ensures d.devType == TYPE_DOWNSTREAM ==>
      && d.nickname == old(d.parent.nickname) + "p" + Dec(old(d.parent.downPorts))
      && d.path == old(d.parent.path) + "p" + Dec(old(d.parent.downPorts))
      && d.parent.downPorts == old(d.parent.downPorts) + 1
      && w.nameCount == old(w.nameCount)
    ensures d.devType != TYPE_DOWNSTREAM ==>
      var base := BaseName(d.devType, d.vendor, d.devClass, d.devFn);
      && d.nickname == (
           if base != "" then base + Dec(Count(old(w.nameCount), base))
           else if d.devFn == 0 then "bus-" + Hex2(d.bus) + "h"
           else if d.parent != null && d.parent.lnkChild != null
             then old(d.parent.lnkChild.nickname) + "." + Dec(d.devFn)
           else Hex2(d.bus) + ":" + Hex2(d.devFn / 8) + "." + Dec(d.devFn % 8))
      && d.path == (if d.parent != null then old(d.parent.path) + "/" + d.nickname else d.nickname)
      && w.nameCount == (if base != "" then old(w.nameCount)[base := Count(old(w.nameCount), base) + 1]
                         else old(w.nameCount))
      && (d.parent != null ==> d.parent.downPorts == old(d.parent.downPorts))
  {
    if d.devType == TYPE_DOWNSTREAM {
      var name := "p" + Dec(d.parent.downPorts);
      d.parent.downPorts := d.parent.downPorts + 1;
      assert forall s: string :: s + name == s + "p" + Dec(old(d.parent.downPorts));
      d.path, d.nickname := d.parent.path + name, d.parent.nickname + name;
      return;
    }
    var name := BaseName(d.devType, d.vendor, d.devClass, d.devFn);
    if name == "" {
      if d.devFn == 0 {
        d.nickname := "bus-" + Hex2(d.bus) + "h";
      } else if d.parent != null && d.parent.lnkChild != null {
        d.nickname := d.parent.lnkChild.nickname + "." + Dec(d.devFn);
      } else {
        d.nickname := Hex2(d.bus) + ":" + Hex2(d.devFn / 8) + "." + Dec(d.devFn % 8);
      }
    } else {
      var cnt := Count(w.nameCount, name);
      w.nameCount := w.nameCount[name := cnt + 1];
      d.nickname := name + Dec(cnt);
    }
    if d.parent != null {
      d.path := d.parent.path + "/" + d.nickname;
    } else {
      d.path := d.nickname;
    }
  }

  // ---- The whole of PciInit ----

  /** The place of a device in the list, or -1. */
  ghost function IndexOf(devs: seq<PciDev>, d: PciDev?): (i: int)
    ensures -1 <= i < |devs|
    ensures i >= 0 ==> devs[i] == d
    ensures i == -1 ==> d == null || d !in devs
  {
    if d != null && d in devs then var i :| 0 <= i < |devs| && devs[i] == d; i else -1
  }

  /** What naming sees of a device. */
  ghost function InfoOf(devs: seq<PciDev>, d: PciDev): Info
    reads d`parent, d`devType, d`vendor, d`devClass, Parents(d)`lnkChild
  {
    Info(d.bus, d.devFn, BaseName(d.devType, d.vendor, d.devClass, d.devFn), d.devType == TYPE_DOWNSTREAM,
         IndexOf(devs, d.parent), if d.parent != null then IndexOf(devs, d.parent.lnkChild) else -1)
  }

  /** The list is sorted by the scan's names, within one domain. */
  ghost predicate SortedByName(devs: seq<PciDev>, domain: string) {
    && (forall d :: d in devs ==> d.domain == domain)
    && (forall i, j :: 0 <= i < j < |devs| ==>
         !LexLess(SortName(domain, devs[j].bus, devs[j].devFn), SortName(domain, devs[i].bus, devs[i].devFn)))
  }

  /** Bus numbers increase away from the root, and every downstream port has a parent. */
  ghost predicate SaneBuses(w: World)
    reads w`bus, w`devs, (set d | d in w.devs)`devType
  {
    && (forall b :: b in w.bus ==> (w.bus[b].bus as nat) < b)
    && (forall d :: d in w.devs && d.devType == TYPE_DOWNSTREAM ==> d.bus as nat in w.bus)
  }

  /** Sorting puts lower buses, and lower functions of a bus, first. */
  lemma LowerFirst(devs: seq<PciDev>, domain: string, i: nat, j: nat)
    requires SortedByName(devs, domain) && i < |devs| && j < |devs|
    requires devs[i].bus < devs[j].bus || (devs[i].bus == devs[j].bus && devs[i].devFn < devs[j].devFn)
    ensures i < j
  {
    SortIsNumeric(domain, devs[i].bus, devs[i].devFn, devs[j].bus, devs[j].devFn);
  }

  /** `topo` is the tree as naming sees it. */
  ghost predicate Shows(w: World, topo: seq<Info>)
    reads w`devs, (set d | d in w.devs)`parent, (set d | d in w.devs)`devType
    reads (set d | d in w.devs)`vendor, (set d | d in w.devs)`devClass
    reads (set d, p | d in w.devs && p in Parents(d) :: p)`lnkChild
  {
    |topo| == |w.devs| && forall i :: 0 <= i < |topo| ==> topo[i] == InfoOf(w.devs, w.devs[i])
  }

  /** The links are in place. */
  ghost predicate AllLinked(w: World)
    reads w`bus, w`devs, (set d | d in w.devs)`parent, (set d | d in w.devs)`devType
    reads (set d | d in w.devs)`lnkChild
    requires w.BusesKnown()
    reads (set d | d in w.devs)`secondary
  {
    && (forall d :: d in w.devs ==> DevLinked(w, d))
    && (forall d :: d in w.devs && d.lnkChild != null ==> d.lnkChild in w.devs && ChildLinked(w, d))
  }

  lemma GetTopo(w: World) returns (topo: seq<Info>)
    ensures Shows(w, topo)
  {
    topo := [];
    for i := 0 to |w.devs|
      invariant |topo| == i && forall j :: 0 <= j < i ==> topo[j] == InfoOf(w.devs, w.devs[j])
    {
      topo := topo + [InfoOf(w.devs, w.devs[i])];
    }
  }

  /** Linked, sorted and with sane bus numbers, the tree is in the order naming needs. */
  lemma TreeOrdered(w: World, domain: string, topo: seq<Info>)
    requires w.BusesKnown() && Unique(w.devs) && SortedByName(w.devs, domain) && SaneBuses(w)
    requires forall d :: d in w.devs ==> DevLinked(w, d) && ChildLinked(w, d)
    requires Shows(w, topo)
    ensures Ordered(topo) && NoClash(topo)
  {
    forall i | 0 <= i < |topo| ensures InfoOk(topo, i) {
      InfoIsOk(w, domain, topo, i);
    }
  }

  lemma InfoIsOk(w: World, domain: string, topo: seq<Info>, i: nat)
    requires w.BusesKnown() && SortedByName(w.devs, domain) && SaneBuses(w)
    requires forall d :: d in w.devs ==> DevLinked(w, d) && ChildLinked(w, d)
    requires Shows(w, topo) && i < |topo|
    ensures InfoOk(topo, i)
  {
    var d := w.devs[i];
    assert DevLinked(w, d);
    if d.parent != null {
      var p := IndexOf(w.devs, d.parent);
      assert w.devs[p] == w.bus[d.bus as nat];
      LowerFirst(w.devs, domain, p, i);
      var c := d.parent.lnkChild;
      if c != null {
        assert ChildLinked(w, d.parent) && LinkPair(w, d.parent, c);
        assert w.bus[c.bus as nat].secondary == c.bus && w.bus[d.bus as nat].secondary == d.bus;
        var s := IndexOf(w.devs, c);
        assert topo[s] == InfoOf(w.devs, c);
        if d.devFn != 0 { LowerFirst(w.devs, domain, s, i); }
      }
    }
  }

  /** The first `|st.keys|` devices carry their names. */
  ghost predicate Applied(w: World, st: Naming)
    reads w, set d | d in w.devs
  {
    && |st.keys| == |st.paths| <= |w.devs| == |st.ports|
    && w.nameCount == st.counts
    && (forall k :: 0 <= k < |st.keys| ==>
         w.devs[k].nickname == Render(st.keys[k]) && w.devs[k].path == st.paths[k])
    && (forall k :: 0 <= k < |w.devs| ==> w.devs[k].downPorts == st.ports[k])
  }

  /** What a device's name is made of, in both worlds. */
  lemma NameSources(w: World, topo: seq<Info>, st: Naming, i: nat, d: PciDev)
    requires i < |w.devs| && w.devs[i] == d && |topo| == |w.devs| && topo[i] == InfoOf(w.devs, d)
    requires Applied(w, st) && |st.keys| == i && InfoAt(topo, i)
    requires DevLinked(w, d) && (d.parent != null ==> d.parent in w.devs && ChildLinked(w, d.parent))
    ensures if d.parent == null then topo[i].parent == topo[i].sibling == -1
            else var p := topo[i].parent;
              && p >= 0 && st.paths[p] == d.parent.path && Render(st.keys[p]) == d.parent.nickname
              && st.ports[p] == d.parent.downPorts
    ensures d.parent != null && d.devFn != 0 && !topo[i].down ==>
      if d.parent.lnkChild == null then topo[i].sibling == -1
      else topo[i].sibling >= 0 && Render(st.keys[topo[i].sibling]) == d.parent.lnkChild.nickname
  {
    if d.parent != null {
      assert w.devs[topo[i].parent] == d.parent;
      if d.parent.lnkChild != null { assert w.devs[topo[i].sibling] == d.parent.lnkChild; }
    }
  }

  /** `InitNickName` does for one device what `NameNext` says. */
  method NameDev(w: World, ghost topo: seq<Info>, ghost st: Naming, ghost i: nat, d: PciDev)
    requires i < |w.devs| && w.devs[i] == d && |topo| == |w.devs| && topo[i] == InfoOf(w.devs, d)
    requires Applied(w, st) && |st.keys| == i && InfoAt(topo, i)
    requires DevLinked(w, d) && (d.parent != null ==> d.parent in w.devs && ChildLinked(w, d.parent))
    modifies w`nameCount, d`nickname, d`path, Parents(d)`downPorts
    ensures d.nickname == Render(NextKey(topo, st)) && d.path == NextPath(topo, st)
    ensures w.nameCount == NameNext(topo, st).counts
    ensures d.parent != null ==>
      d.parent.downPorts == old(d.parent.downPorts) + (if topo[i].down then 1 else 0)
  {
    NameSources(w, topo, st, i, d);
    NextSpelled(topo, st);
    CountsSpelled(topo, st);
    InitNickName(w, d);
  }

  /** One round of the naming loop. */
  method NameOne(w: World, ghost topo: seq<Info>, ghost st: Naming, ghost i: nat, d: PciDev)
    requires i < |w.devs| && w.devs[i] == d && Shows(w, topo) && Unique(w.devs)
    requires Applied(w, st) && |st.keys| == i && InfoAt(topo, i)
    requires w.BusesKnown() && DevLinked(w, d) && (d.parent != null ==> ChildLinked(w, d.parent))
    modifies w`nameCount, d`nickname, d`path, Parents(d)`downPorts
    ensures Applied(w, NameNext(topo, st))
  {
    assert topo[i] == InfoOf(w.devs, d);
    ghost var p := topo[i].parent;
    assert d.parent != null ==> w.devs[p] == d.parent;
    assert d.parent == null ==> p == -1;
    NameDev(w, topo, st, i, d);
    NoTwice(w.devs, i);
    if d.parent != null { NoTwice(w.devs, p); }
    NextKeepsNames(topo, st);
  }

  lemma NextKeepsNames(topo: seq<Info>, st: Naming)
    requires |st.keys| == |st.paths| < |topo| == |st.ports| && InfoAt(topo, |st.keys|)
    ensures var st', i, p := NameNext(topo, st), |st.keys|, topo[|st.keys|].parent;
      && |st'.keys| == |st'.paths| == i + 1 && |st'.ports| == |st.ports|
      && st'.keys[i] == NextKey(topo, st) && st'.paths[i] == NextPath(topo, st)
      && (forall k :: 0 <= k < i ==> st'.keys[k] == st.keys[k] && st'.paths[k] == st.paths[k])
      && (forall k :: 0 <= k < |st.ports| ==>
           st'.ports[k] == st.ports[k] + if topo[i].down && k == p then 1 else 0)
  {
  }

  /** Naming leaves what it looks at as it is, ... */
  method NameAndShow(w: World, ghost topo: seq<Info>, ghost st: Naming, ghost i: nat, d: PciDev)
    requires i < |w.devs| && w.devs[i] == d && Shows(w, topo) && Unique(w.devs)
    requires Applied(w, st) && |st.keys| == i && InfoAt(topo, i)
    requires w.BusesKnown() && DevLinked(w, d) && (d.parent != null ==> ChildLinked(w, d.parent))
    modifies w`nameCount, d`nickname, d`path, Parents(d)`downPorts
    ensures Shows(w, topo) && Applied(w, NameNext(topo, st))
  {
    NameOne(w, topo, st, i, d);
  }

  /** ... and the buses, ... */
  method NameAndBuses(w: World, ghost topo: seq<Info>, ghost st: Naming, ghost i: nat, d: PciDev)
    requires i < |w.devs| && w.devs[i] == d && Shows(w, topo) && Unique(w.devs)
    requires Applied(w, st) && |st.keys| == i && InfoAt(topo, i)
    requires w.BusesKnown() && DevLinked(w, d) && (d.parent != null ==> ChildLinked(w, d.parent))
    modifies w`nameCount, d`nickname, d`path, Parents(d)`downPorts
    ensures w.BusesKnown() && Shows(w, topo) && Applied(w, NameNext(topo, st))
  {
    NameAndShow(w, topo, st, i, d);
  }

  /** ... and the links. */
  method NameAndLinks(w: World, ghost topo: seq<Info>, ghost st: Naming, ghost i: nat, d: PciDev)
    requires i < |w.devs| && w.devs[i] == d && Shows(w, topo) && Unique(w.devs) && w.BusesKnown() && AllLinked(w)
    requires Applied(w, st) && |st.keys| == i && InfoAt(topo, i)
    modifies w`nameCount, d`nickname, d`path, Parents(d)`downPorts
    ensures w.BusesKnown() && AllLinked(w) && Shows(w, topo) && Applied(w, NameNext(topo, st))
  {
    assert DevLinked(w, d);
    NameAndBuses(w, topo, st, i, d);
  }

  /** One round of the naming loop of `PciInit`. */
  method NameStep(w: World, ghost topo: seq<Info>, ghost st: Naming, i: nat)
    requires i < |w.devs| && Shows(w, topo) && Unique(w.devs) && w.BusesKnown() && AllLinked(w)
    requires Applied(w, st) && |st.keys| == i && InfoAt(topo, i)
    modifies w`nameCount, (set d | d in w.devs)`nickname, (set d | d in w.devs)`path
    modifies (set d | d in w.devs)`downPorts
    ensures w.BusesKnown() && AllLinked(w) && Shows(w, topo) && Applied(w, NameNext(topo, st))
  {
    assert DevLinked(w, w.devs[i]);
    NameAndLinks(w, topo, st, i, w.devs[i]);
  }

  lemma NoTwice(devs: seq<PciDev>, i: nat)
    requires Unique(devs) && i < |devs|
    ensures forall k :: 0 <= k < |devs| && k != i ==> devs[k] != devs[i]
  {
    forall k | 0 <= k < |devs| && k != i ensures devs[k] != devs[i] {
      if k < i { assert devs[k] != devs[i]; } else { assert devs[i] != devs[k]; }
    }
  }

  /** Nicknames and paths of all devices are pairwise different, and every path continues its
      parent's. */
  ghost predicate WellNamed(w: World)
    reads w, set d | d in w.devs, set d | d in w.devs :: d.parent
  {
    && (forall i, j :: 0 <= i < j < |w.devs| ==>
         w.devs[i].nickname != w.devs[j].nickname && w.devs[i].path != w.devs[j].path)
    && (forall d :: d in w.devs ==> PathContinues(d))
  }

  ghost predicate PathContinues(d: PciDev)
    reads d, d.parent
  {
    if d.parent == null then d.path == d.nickname
    else if d.devType == TYPE_DOWNSTREAM then
      exists n: nat :: PortStep(d.path, d.parent.path, n) && PortStep(d.nickname, d.parent.nickname, n)
    else d.path == d.parent.path + "/" + d.nickname
  }

  lemma NamesHold(w: World, topo: seq<Info>)
    requires w.BusesKnown() && Shows(w, topo) && Ordered(topo) && NoClash(topo) && AllLinked(w)
    requires forall k :: 0 <= k < |topo| ==> InfoAt(topo, k)
    requires Applied(w, NameAll(topo, |topo|))
    ensures WellNamed(w)
  {
    var st := NameAll(topo, |topo|);
    forall i, j | 0 <= i < j < |w.devs|
      ensures w.devs[i].nickname != w.devs[j].nickname && w.devs[i].path != w.devs[j].path
    {
      NicknamesDistinct(topo, i, j);
      PathsDistinct(topo, i, j);
    }
    forall d | d in w.devs ensures PathContinues(d) {
      var i := IndexOf(w.devs, d);
      PathHolds(w, topo, i, d);
    }
  }

  lemma PathHolds(w: World, topo: seq<Info>, i: nat, d: PciDev)
    requires w.BusesKnown() && Shows(w, topo) && AllLinked(w)
    requires forall k :: 0 <= k < |topo| ==> InfoAt(topo, k)
    requires Applied(w, NameAll(topo, |topo|)) && i < |w.devs| && w.devs[i] == d
    ensures PathContinues(d)
  {
    PathSteps(topo, i);
    assert DevLinked(w, d) && topo[i] == InfoOf(w.devs, d);
    var p := topo[i].parent;
    if d.parent != null { assert w.devs[p] == d.parent; }
  }

  /** Linking and naming of a scanned, sorted world. `topo` is its tree, as the lemmas about names
      see it. */
  method PciInit(w: World, ghost domain: string) returns (ghost topo: seq<Info>)
    requires w.BusesKnown() && Unique(w.devs) && SortedByName(w.devs, domain) && SaneBuses(w)
    requires forall d :: d in w.devs ==> d.parent == null && d.lnkChild == null && d.downPorts == 0
    requires w.nameCount == map[]
    modifies w`nameCount, (set d | d in w.devs)`parent, (set d | d in w.devs)`lnkChild
    modifies (set d | d in w.devs)`nickname, (set d | d in w.devs)`path, (set d | d in w.devs)`downPorts
    ensures w.BusesKnown() && AllLinked(w) && WellNamed(w)
    ensures Shows(w, topo) && Ordered(topo) && NoClash(topo) && (forall k :: 0 <= k < |topo| ==> InfoAt(topo, k))
    ensures Applied(w, NameAll(topo, |topo|))
    // Parents and links in plain words: the other end of a root port (4) or downstream port (6) is the
    // endpoint (0) or upstream port (5) that is function 0 of the bus it leads to.
    ensures forall d :: d in w.devs ==> d.parent == if d.bus as nat in w.bus then w.bus[d.bus as nat] else null
    ensures forall c :: c in w.devs && c.parent != null && c.parent.devType in {4, 6} ==>
      (c.devType in {0, 5} && c.devFn == 0 ==> c.parent.lnkChild == c)
    ensures forall p :: p in w.devs && p.lnkChild != null ==>
      && p.lnkChild in w.devs && p.lnkChild.parent == p && p.devType in {4, 6}
      && p.lnkChild.devType in {0, 5} && p.lnkChild.devFn == 0
    ensures forall d :: d in w.devs ==> CalledAfter(d)
  {
    LinkAll(w);
    topo := GetTopo(w);
    TreeOrdered(w, domain, topo);
    OrderedInfo(topo);
    assert AllLinked(w);
    for i := 0 to |w.devs|
      invariant w.BusesKnown() && Shows(w, topo) && AllLinked(w)
      invariant Applied(w, NameAll(topo, i))
    {
      NameStep(w, topo, NameAll(topo, i), i);
    }
    NamesHold(w, topo);
    LinksMean(w);
    AllCalled(w, topo);
  }

  lemma LinksMean(w: World)
    requires w.BusesKnown() && AllLinked(w)
    ensures forall d :: d in w.devs ==> d.parent == if d.bus as nat in w.bus then w.bus[d.bus as nat] else null
    ensures forall c :: c in w.devs && c.parent != null && c.parent.devType in {4, 6} ==>
      (c.devType in {0, 5} && c.devFn == 0 ==> c.parent.lnkChild == c)
    ensures forall p :: p in w.devs && p.lnkChild != null ==>
      && p.lnkChild in w.devs && p.lnkChild.parent == p && p.devType in {4, 6}
      && p.lnkChild.devType in {0, 5} && p.lnkChild.devFn == 0
  {
    forall d | d in w.devs
      ensures d.parent == if d.bus as nat in w.bus then w.bus[d.bus as nat] else null
      ensures d.parent != null && d.parent.devType in {4, 6} && d.devType in {0, 5} && d.devFn == 0 ==>
        d.parent.lnkChild == d
    {
      assert DevLinked(w, d);
    }
    forall p | p in w.devs && p.lnkChild != null
      ensures p.lnkChild in w.devs && p.lnkChild.parent == p && p.devType in {4, 6}
      ensures p.lnkChild.devType in {0, 5} && p.lnkChild.devFn == 0
    {
      assert ChildLinked(w, p) && DevLinked(w, p.lnkChild);
    }
  }

  /** `s` is `base` and a running number. */
  ghost predicate Numbered(s: string, base: string) { exists n: nat :: s == base + Dec(n) }

  /** What a device is called after, by its type, vendor, class and function. */
  ghost predicate CalledAfter(d: PciDev)
    reads d`devType, d`vendor, d`devClass, d`nickname
  {
    && (d.devType == 4 ==> Numbered(d.nickname, "ROOT"))
    && (d.devType == 5 && d.vendor == 0x8086 ==> Numbered(d.nickname, "ISW"))
    && (d.devType == 5 && d.vendor == 0x10b5 ==> Numbered(d.nickname, "PLX"))
    && (d.devType == 5 && d.vendor == 0x11f8 ==> Numbered(d.nickname, "RIMFIRE"))
    && (d.devType == 0 && d.vendor == 0x15b7 ==> Numbered(d.nickname, "sandisk"))
    && (d.devType == 0 && d.vendor == 0x15b3 && d.devFn == 0 ==> Numbered(d.nickname, "MLX"))
    && (d.devType == 7 && d.vendor == 0x1a03 ==> Numbered(d.nickname, "AST"))
    && (d.devType == 0 && d.vendor == 0x8086 && d.devClass == 0x0200 ==> Numbered(d.nickname, "IETH"))
    && (d.devType == 0 && d.vendor == 0x1425 && d.devClass == 0x0200 && d.devFn == 0 ==> Numbered(d.nickname, "CHL"))
    && (d.devType == 0 && d.vendor == 0x8086 && d.devClass == 0x0106 ==> Numbered(d.nickname, "INTEL-SATA"))
    && (d.devType == 0 && d.vendor == 0x8086 && d.devClass == 0x0107 ==> Numbered(d.nickname, "INTEL-SAS"))
    && (d.devType == 0 && d.vendor == 0x1000 && d.devClass == 0x0107 ==> Numbered(d.nickname, "LSI-SAS"))
    && (d.devType !in {0, 4, 5, 6, 7} && d.devFn == 0 ==> d.nickname == "bus-" + Hex2(d.bus) + "h")
  }

  lemma {:induction false} AllCalled(w: World, topo: seq<Info>)
    requires Shows(w, topo) && (forall k :: 0 <= k < |topo| ==> InfoAt(topo, k))
    requires Applied(w, NameAll(topo, |topo|))
    ensures forall d :: d in w.devs ==> CalledAfter(d)
  {
    forall d | d in w.devs ensures CalledAfter(d) {
      var i := IndexOf(w.devs, d);
      Settled(topo, i);
      var k := NameAll(topo, |topo|).keys[i];
      assert topo[i] == InfoOf(w.devs, d) && d.nickname == Render(k);
      var base := BaseName(d.devType, d.vendor, d.devClass, d.devFn);
      if base != "" && d.devType != 6 {
        assert k.Named? && k.base == base;
        assert Numbered(d.nickname, base) by { assert d.nickname == base + Dec(k.cnt); }
      }
    }
  }
}
