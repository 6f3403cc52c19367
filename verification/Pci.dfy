/** PCI devices as the scan finds them: capability walks, the tree of bridges, and the naming of
    the tree (pci/defs.go). */
module Pci {
  import opened Bits
  import opened Outcomes
  import opened Aer

  const PCI_CAP_ID_EXP: nat := 0x10
  const PCI_ECAP_ID_AER: nat := 1
  const TYPE_ENDPOINT := 0
  const TYPE_ROOT_PORT := 4
  const TYPE_UPSTREAM := 5
  const TYPE_DOWNSTREAM := 6
  const TYPE_PCI_BRIDGE := 7

  // ---- Configuration space and capability chains ----

  type Config = nat -> byte

  function Read16(cfg: Config, off: nat): nat {
    var lo: nat, hi: nat := cfg(off), cfg(off + 1);
    lo + 0x100 * hi
  }

  function Read32(cfg: Config, off: nat): word { Le32([cfg(off), cfg(off + 1), cfg(off + 2), cfg(off + 3)]) }

  /** One stop of a capability walk: the identifier found there and the next offset; None where
      the walk ends. */
  datatype Stop = Stop(id: nat, next: nat)

  /** Legacy capabilities (section 6.7 of the PCI Local Bus Specification 3.0). */
  function CapStop(cfg: Config, off: nat): Option<Stop> {
    if !(0x40 <= off < 0xff) then None
    else
      var cdef := Read16(cfg, off);
      if cdef % 0x100 == 0xff then None else Some(Stop(cdef % 0x100, cdef / 0x100 / 4 * 4))
  }

  /** Extended capabilities. The walk keeps the low 8 bits of the 16-bit identifier. */
  function EcapStop(cfg: Config, off: nat): Option<Stop> {
    if off == 0 then None
    else
      var cdef := Read32(cfg, off);
      if cdef == 0 || cdef == 0xffff_ffff then None else Some(Stop(cdef % 0x100, cdef / 0x10_0000))
  }

  /** A legacy stop in the bytes of configuration space: the identifier, then the next offset, whose
      lowest two bits do not count. */
  lemma CapBytes(cfg: Config, off: nat)
    requires 0x40 <= off < 0xff
    ensures CapStop(cfg, off) ==
      if cfg(off) == 0xff then None else Some(Stop(cfg(off), cfg(off + 1) - cfg(off + 1) % 4))
  {
    TwoBytes(cfg(off), cfg(off + 1));
  }

  lemma TwoBytes(lo: byte, hi: byte)
    ensures ((lo as nat) + 0x100 * (hi as nat)) % 0x100 == lo && ((lo as nat) + 0x100 * (hi as nat)) / 0x100 == hi
  {
  }

  /** An extended stop: two bytes of identifier, of which the lower is kept, and above four bits of
      version the next offset; it ends the walk if all four bytes are 0 or all are 0xff. */
  lemma EcapBytes(cfg: Config, off: nat)
    requires off != 0
    ensures EcapStop(cfg, off) ==
      if cfg(off) == cfg(off + 1) == cfg(off + 2) == cfg(off + 3) && cfg(off) in {0, 0xff} then None
      else Some(Stop(cfg(off), cfg(off + 2) / 0x10 + 0x10 * (cfg(off + 3) as nat)))
  {
    FourBytes(cfg(off), cfg(off + 1), cfg(off + 2), cfg(off + 3));
  }

  lemma FourBytes(b0: byte, b1: byte, b2: byte, b3: byte)
    ensures var w := Le32([b0, b1, b2, b3]);
      && w % 0x100 == b0 && w / 0x10_0000 == b2 / 0x10 + 0x10 * (b3 as nat)
      && (w == 0 <==> b0 == b1 == b2 == b3 == 0) && (w == 0xffff_ffff <==> b0 == b1 == b2 == b3 == 0xff)
  {
    var c1: nat, c2: nat, c3: nat := b1, b2, b3;
    var w := Le32([b0, b1, b2, b3]);
    assert w == b0 + 0x100 * (c1 + 0x100 * c2 + 0x1_0000 * c3);
    UpperHalf(b0 + 0x100 * c1, c2 + 0x100 * c3);
    NextOffset(c2, c3);
  }

  lemma UpperHalf(lo: nat, hi: nat)
    requires lo < 0x1_0000
    ensures (lo + 0x1_0000 * hi) / 0x10_0000 == hi / 0x10
  {
    assert (lo + 0x1_0000 * hi) / 0x1_0000 == hi;
  }

  lemma NextOffset(c2: nat, c3: nat)
    ensures (c2 + 0x100 * c3) / 0x10 == c2 / 0x10 + 0x10 * c3
  {
  }

  /** The link capability register: speed in bits 0 to 3, width in bits 4 to 9. */
  lemma LinkBytes(lo: byte, hi: byte)
    ensures var v := (lo as nat) + 256 * (hi as nat); v % 16 == lo % 16 && v / 16 % 64 == lo / 16 + 16 * (hi % 4)
  {
    var v := (lo as nat) + 256 * (hi as nat);
    assert v / 16 == lo / 16 + 16 * (hi as nat);
    assert (hi as nat) == 4 * (hi / 4) + hi % 4;
  }

  lemma LinkFields(cfg: Config, c: nat)
    ensures var lnkCap := Read16(cfg, c + 0xc);
      lnkCap % 0x10 == cfg(c + 0xc) % 16 && lnkCap / 0x10 % 0x40 == cfg(c + 0xc) / 16 + 16 * (cfg(c + 0xc + 1) % 4)
  {
    LinkBytes(cfg(c + 0xc), cfg(c + 0xc + 1));
  }

  function Caps(cfg: Config): nat -> Option<Stop> { (off: nat) => CapStop(cfg, off) }

  function Ecaps(cfg: Config): nat -> Option<Stop> { (off: nat) => EcapStop(cfg, off) }

  /** The offsets a walk from `start` visits, up to and including the one where it ends. */
  ghost predicate IsChain(stop: nat -> Option<Stop>, start: nat, chain: seq<nat>) {
    && |chain| > 0 && chain[0] == start && stop(chain[|chain| - 1]) == None
    && forall i :: 0 <= i < |chain| - 1 ==> stop(chain[i]).Some? && stop(chain[i]).value.next == chain[i + 1]
  }

  /** The identifiers of the first `n` stops, each with its last offset. */
  ghost function Found(stop: nat -> Option<Stop>, chain: seq<nat>, n: nat): map<nat, nat>
    requires n < |chain| && forall i :: 0 <= i < n ==> stop(chain[i]).Some?
  {
    if n == 0 then map[] else Found(stop, chain, n - 1)[stop(chain[n - 1]).value.id := chain[n - 1]]
  }

  /** A capability's entry is the offset of the last stop with its identifier, and there are no
      other entries. */
  lemma {:induction false} FoundIsLast(stop: nat -> Option<Stop>, chain: seq<nat>, n: nat, id: nat)
    requires n < |chain| && forall i :: 0 <= i < n ==> stop(chain[i]).Some?
    ensures id in Found(stop, chain, n) <==> exists i :: 0 <= i < n && stop(chain[i]).value.id == id
    ensures id in Found(stop, chain, n) ==>
      exists i :: 0 <= i < n && LastWith(stop, chain, n, id, i) && Found(stop, chain, n)[id] == chain[i]
    decreases n
  {
    if n > 0 {
      FoundIsLast(stop, chain, n - 1, id);
      if stop(chain[n - 1]).value.id == id {
        assert LastWith(stop, chain, n, id, n - 1);
      } else if id in Found(stop, chain, n) {
        var i :| 0 <= i < n - 1 && LastWith(stop, chain, n - 1, id, i) && Found(stop, chain, n - 1)[id] == chain[i];
        assert LastWith(stop, chain, n, id, i);
      }
    }
  }

  /** Stop `i` is the last of the first `n` with this identifier. */
  ghost predicate LastWith(stop: nat -> Option<Stop>, chain: seq<nat>, n: nat, id: nat, i: nat)
    requires i < n < |chain| && forall k :: 0 <= k < n ==> stop(chain[k]).Some?
  {
    stop(chain[i]).value.id == id && forall j :: i < j < n ==> stop(chain[j]).value.id != id
  }

  // ---- The 16-bit identifiers of extended capabilities ----

  /** The same stop with the whole identifier. */
  function WideStop(cfg: Config, off: nat): Option<Stop> {
    match EcapStop(cfg, off)
    case None => None
    case Some(s) => Some(Stop(Read32(cfg, off) % 0x1_0000, s.next))
  }

  function WideEcaps(cfg: Config): nat -> Option<Stop> { (off: nat) => WideStop(cfg, off) }

  function Lookup(m: map<nat, nat>, id: nat): Option<nat> { if id in m then Some(m[id]) else None }

  /** The last capability whose identifier has the low byte `id` has a high byte of zero. */
  ghost predicate Unmistaken(cfg: Config, chain: seq<nat>, id: nat)
    requires IsChain(Ecaps(cfg), 0x100, chain)
  {
    forall i :: 0 <= i < |chain| - 1 && LastWith(Ecaps(cfg), chain, |chain| - 1, id, i) ==>
      Read32(cfg, chain[i]) / 0x100 % 0x100 == 0
  }

  lemma Halves(v: nat, id: nat)
    requires id < 0x100
    ensures v % 0x1_0000 == id <==> v % 0x100 == id && v / 0x100 % 0x100 == 0
  {
    assert v % 0x1_0000 == 0x100 * (v / 0x100 % 0x100) + v % 0x100;
  }

  lemma WideChain(cfg: Config, chain: seq<nat>)
    requires IsChain(Ecaps(cfg), 0x100, chain)
    ensures IsChain(WideEcaps(cfg), 0x100, chain)
  {
    assert Ecaps(cfg)(chain[|chain| - 1]) == None;
    forall i | 0 <= i < |chain| - 1
      ensures WideEcaps(cfg)(chain[i]).Some? && WideEcaps(cfg)(chain[i]).value.next == chain[i + 1]
    {
      assert Ecaps(cfg)(chain[i]).Some?;
    }
  }

  /** Two ways to identify the stops of a chain, one coarser: they find the same for `id` exactly if
      the last stop the coarser one takes for `id` really is one. */
  lemma LookupsAgree(low: nat -> Option<Stop>, wide: nat -> Option<Stop>, chain: seq<nat>, n: nat, id: nat)
    requires n < |chain| && forall i :: 0 <= i < n ==> low(chain[i]).Some? && wide(chain[i]).Some?
    requires forall i :: 0 <= i < n && wide(chain[i]).value.id == id ==> low(chain[i]).value.id == id
    ensures Lookup(Found(low, chain, n), id) == Lookup(Found(wide, chain, n), id) <==>
      forall i :: 0 <= i < n && LastWith(low, chain, n, id, i) ==> wide(chain[i]).value.id == id
  {
    FoundIsLast(low, chain, n, id);
    FoundIsLast(wide, chain, n, id);
    if id in Found(low, chain, n) {
      var i :| 0 <= i < n && LastWith(low, chain, n, id, i) && Found(low, chain, n)[id] == chain[i];
      if wide(chain[i]).value.id == id {
        assert LastWith(wide, chain, n, id, i);
      } else if id in Found(wide, chain, n) {
        var j :| 0 <= j < n && LastWith(wide, chain, n, id, j) && Found(wide, chain, n)[id] == chain[j];
        assert chain[j] != chain[i];
      }
    }
  }

  /** Looking a capability up by the byte that is kept finds what its identifier would find,
      exactly if no other identifier with the same low byte comes after. */
  lemma TruncationExact(cfg: Config, chain: seq<nat>, id: nat)
    requires IsChain(Ecaps(cfg), 0x100, chain) && id < 0x100
    ensures IsChain(WideEcaps(cfg), 0x100, chain)
    ensures Lookup(Found(Ecaps(cfg), chain, |chain| - 1), id) == Lookup(Found(WideEcaps(cfg), chain, |chain| - 1), id)
            <==> Unmistaken(cfg, chain, id)
  {
    var n, low, wide := |chain| - 1, Ecaps(cfg), WideEcaps(cfg);
    WideChain(cfg, chain);
    forall i | 0 <= i < n
      ensures wide(chain[i]).value.id == id <==>
              low(chain[i]).value.id == id && Read32(cfg, chain[i]) / 0x100 % 0x100 == 0
    {
      Halves(Read32(cfg, chain[i]), id);
    }
    LookupsAgree(low, wide, chain, n, id);
  }

  /** A configuration space whose only extended capability has the identifier 0x101. */
  function Mistaking(off: nat): byte { if 0x100 <= off < 0x103 then 1 else 0 }

  /** It is taken for an AER capability. */
  lemma Mistaken()
    ensures var cfg: Config := Mistaking;
      && IsChain(Ecaps(cfg), 0x100, [0x100, 0])
      && Lookup(Found(Ecaps(cfg), [0x100, 0], 1), PCI_ECAP_ID_AER) == Some(0x100)
      && Read16(cfg, 0x100) == 0x101
  {
    var cfg: Config := Mistaking;
    assert Read32(cfg, 0x100) == 0x1_0101;
    assert Found(Ecaps(cfg), [0x100, 0], 0) == map[];
  }

  /** A device. `cfg` is its configuration space as the scan reads it, `hw` its live AER
      registers; `app` is the slot for the application's own record. */
  class PciDev {
    const domain: string
    const bus: byte
    const devFn: byte
    const cfg: Config
    const hw: AerHw
    var vendor: nat
    var device: nat
    var devClass: nat
    var devType: int
    var secondary: nat
    var lnkCapWidth: nat
    var lnkCapSpeed: nat
    var ocap: map<nat, nat>
    var ecap: map<nat, nat>
    var parent: PciDev?
    var lnkChild: PciDev?
    var downPorts: nat
    var nickname: string
    var path: string
    var app: object?

    constructor (domain: string, bus: byte, devFn: byte, cfg: Config, hw: AerHw)
      ensures this.domain == domain && this.bus == bus && this.devFn == devFn
      ensures this.cfg == cfg && this.hw == hw
      ensures parent == null && lnkChild == null && downPorts == 0 && app == null
    {
      this.domain, this.bus, this.devFn, this.cfg, this.hw := domain, bus, devFn, cfg, hw;
      vendor, device, devClass, devType, secondary := 0, 0, 0, -1, 0;
      lnkCapWidth, lnkCapSpeed, ocap, ecap := 0, 0, map[], map[];
      parent, lnkChild, downPorts, nickname, path, app := null, null, 0, "", "", null;
    }

    /** Walks the extended capabilities. `chain` witnesses that the walk ends. */
    method EcapInit(ghost chain: seq<nat>)
      requires IsChain(Ecaps(cfg), 0x100, chain)
      modifies `ecap
      ensures ecap == Found(Ecaps(cfg), chain, |chain| - 1)
    {
      ecap := map[];
      var off := 0x100;
      ghost var i := 0;
      while off != 0
        invariant 0 <= i < |chain| && off == chain[i]
        invariant ecap == Found(Ecaps(cfg), chain, i)
        decreases |chain| - i
      {
        var cdef := Read32(cfg, off);
        if cdef == 0 || cdef == 0xffff_ffff {
          assert i == |chain| - 1;
          break;
        }
        var id := cdef % 0x100;
        ecap := ecap[id := off];
        off := cdef / 0x10_0000;
        i := i + 1;
      }
    }

    /** Walks the legacy capabilities, if the status register says there are any. */
    method CapInit(ghost chain: seq<nat>)
      requires IsChain(Caps(cfg), cfg(0x34), chain)
      modifies `ocap
      ensures ocap == if Read16(cfg, 6) / 0x10 % 2 == 0 then map[]
                      else Found(Caps(cfg), chain, |chain| - 1)
    {
      ocap := map[];
      if Read16(cfg, 6) / 0x10 % 2 == 0 { return; }
      var start: nat := cfg(0x34);
      ghost var i := 0;
      while 0x40 <= start < 0xff
        invariant 0 <= i < |chain| && start == chain[i]
        invariant ocap == Found(Caps(cfg), chain, i)
        decreases |chain| - i
      {
        var cdef := Read16(cfg, start);
        var id := cdef % 0x100;
        if id == 0xff {
          assert i == |chain| - 1;
          break;
        }
        ocap := ocap[id := start];
        start := cdef / 0x100 / 4 * 4;
        i := i + 1;
      }
    }
  }

  /** A map lookup with Go's zero default. */
  function Get(m: map<nat, nat>, k: nat): nat { if k in m then m[k] else 0 }
}
