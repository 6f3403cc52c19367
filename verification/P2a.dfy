/** The PCI-to-BMC bridge: a movable 64 KiB window onto the BMC's bus (ast/p2a.go). */
module P2a {
  import opened Bits
  import opened NorFlash
  import opened BmcBus

  const PAGE: nat := 0x1_0000

  /** `uint32(offset) & 0xffff0000`. */
  function PageOf(addr: nat): word {
    PageInWord(addr);
    U32(addr) - addr % PAGE
  }

  lemma PageInWord(addr: nat)
    ensures 0 <= U32(addr) - addr % PAGE < TWO32
  {
    PageOffset(addr);
    Remainder(U32(addr), PAGE);
  }

  lemma Remainder(a: nat, m: nat)
    requires m > 0
    ensures a % m <= a
  {
  }

  /** The bus address shown at offset `off` of the BAR. */
  function WindowAddr(page: word, off: nat): word { U32(page - page % 0x1_0000 + off - 0x1_0000) }

  /** A selected page and the low 16 bits make up the flat address. */
  lemma WindowIsFlat(addr: nat)
    ensures PageOf(addr) % PAGE == 0
    ensures WindowAddr(PageOf(addr), PAGE + addr % PAGE) == U32(addr)
  {
    PageOffset(addr);
  }

  lemma PageOffset(addr: nat)
    ensures U32(addr) % PAGE == addr % PAGE
  {
    assert addr == TWO32 * (addr / TWO32) + U32(addr);
  }

  /** The bridge's BAR: the page register at 0xf004, the window enable at 0xf000, and the
      window itself at 0x10000. Other offsets (the 0x3cc read) have no effect here. */
  class Bar1 {
    var page: word
    var enable: word
    var bmc: Bmc

    constructor (page: word, enable: word, bmc: Bmc)
      ensures this.page == page && this.enable == enable && this.bmc == bmc
    {
      this.page, this.enable, this.bmc := page, enable, bmc;
    }

    ghost predicate Reaches(addr: nat)
      reads this
    {
      enable == 1 && page == PageOf(addr)
    }

    method Write32(off: nat, val: word)
      requires off + 4 <= 0x2_0000 && WellFormed(bmc.nor)
      modifies this
      ensures page == if off == 0xf004 then val else old(page)
      ensures enable == if off == 0xf000 then val else old(enable)
      ensures bmc == if off >= 0x1_0000 && enable == 1
                     then BusStep(old(bmc), W32(WindowAddr(page, off), val)).0
                     else old(bmc)
    {
      if off == 0xf004 {
        page := val;
      } else if off == 0xf000 {
        enable := val;
      } else if off >= 0x1_0000 && enable == 1 {
        bmc := BusStep(bmc, W32(WindowAddr(page, off), val)).0;
      }
    }

    method Write8(off: nat, val: byte)
      requires 0x1_0000 <= off < 0x2_0000 && WellFormed(bmc.nor)
      modifies this`bmc
      ensures bmc == if enable == 1
                     then BusStep(old(bmc), W8(WindowAddr(page, off), val)).0
                     else old(bmc)
    {
      if enable == 1 {
        bmc := BusStep(bmc, W8(WindowAddr(page, off), val)).0;
      }
    }

    method Read32(off: nat) returns (val: word)
      requires off + 4 <= 0x2_0000 && WellFormed(bmc.nor)
      modifies this`bmc
      ensures if off >= 0x1_0000 && enable == 1
              then (bmc, val) == BusStep(old(bmc), R32(WindowAddr(page, off)))
              else (bmc, val) == (old(bmc), 0)
    {
      val := 0;
      if off >= 0x1_0000 && enable == 1 {
        var r := BusStep(bmc, R32(WindowAddr(page, off)));
        bmc, val := r.0, r.1;
      }
    }

    method Read8(off: nat) returns (val: byte)
      requires 0x1_0000 <= off < 0x2_0000 && WellFormed(bmc.nor)
      modifies this`bmc
      ensures if enable == 1
              then (bmc, val as word) == BusStep(old(bmc), R8(WindowAddr(page, off)))
              else (bmc, val) == (old(bmc), 0)
    {
      val := 0;
      if enable == 1 {
        var r := BusStep(bmc, R8(WindowAddr(page, off)));
        bmc, val := r.0, r.1;
      }
    }
  }

  /** The handle all regions share, with the page it believes the window shows. */
  class P2aHandle {
    const bar1: Bar1
    const noWrite: bool
    var f004: word

    constructor (bar1: Bar1, noWrite: bool)
      ensures this.bar1 == bar1 && this.noWrite == noWrite && f004 == 0
    {
      this.bar1, this.noWrite, f004 := bar1, noWrite, 0;
    }

    /** The cache is still empty (0), or it tells the truth. */
    ghost predicate Coherent()
      reads this, bar1
    {
      && WellFormed(bar1.bmc.nor)
      && (f004 != 0 ==> f004 % PAGE == 0 && bar1.page == f004 && bar1.enable == 1)
    }

    method SetIndex(offset: nat)
      requires Coherent()
      modifies `f004, bar1
      ensures Coherent() && bar1.bmc == old(bar1.bmc)
      ensures f004 == PageOf(offset)
      // The one case the cache gets wrong: page 0 before any other page was ever selected.
      ensures bar1.Reaches(offset) <==>
        old(f004) != 0 || PageOf(offset) != 0 || old(bar1.Reaches(offset))
      ensures !bar1.Reaches(offset) ==> bar1.page == old(bar1.page) && bar1.enable == old(bar1.enable)
    {
      var page := PageOf(offset);
      WindowIsFlat(offset);
      if f004 != page {
        bar1.Write32(0xf004, page);
        bar1.Write32(0xf000, 1);
        f004 := page;
      }
    }
  }

  /** A region of BMC addresses, reached through the window. */
  class AstMem {
    const p2a: P2aHandle
    const start: nat
    const size: nat

    constructor (p2a: P2aHandle, start: nat, size: nat)
      ensures this.p2a == p2a && this.start == start && this.size == size
    {
      this.p2a, this.start, this.size := p2a, start, size;
    }

    /** Flat address of an offset in the region. */
    function At(offset: nat): word { U32(start + offset) }

    /** The access lands where it should: exactly when the cache has been filled, the access
        fills it, or the window happens to show page 0 already. */
    ghost predicate Mapped(offset: nat)
      reads p2a, p2a.bar1
    {
      p2a.f004 != 0 || PageOf(start + offset) != 0 || p2a.bar1.Reaches(start + offset)
    }

    /** Where it lands otherwise: in whatever page the window shows. */
    ghost function StrayAddr(offset: nat): word
      reads p2a.bar1
    {
      WindowAddr(p2a.bar1.page, PAGE + (start + offset) % PAGE)
    }

    ghost function Stray(op: BusOp): (Bmc, word)
      requires WellFormed(p2a.bar1.bmc.nor)
      reads p2a.bar1
    {
      if p2a.bar1.enable == 1 then BusStep(p2a.bar1.bmc, op) else (p2a.bar1.bmc, 0)
    }

    // The four accesses. `ok` is false where the Go code panics, out of the region's bounds.

    method Read32(offset: nat) returns (ok: bool, val: word)
      requires p2a.Coherent() && (offset < size ==> (start + offset) % PAGE + 4 <= PAGE)
      modifies p2a, p2a.bar1
      ensures p2a.Coherent() && (ok <==> offset < size) && (!ok ==> p2a.bar1.bmc == old(p2a.bar1.bmc))
      ensures ok && old(Mapped(offset)) ==>
        (p2a.bar1.bmc, val) == BusStep(old(p2a.bar1.bmc), R32(At(offset)))
      ensures ok && !old(Mapped(offset)) ==> (p2a.bar1.bmc, val) == old(Stray(R32(StrayAddr(offset))))
    {
      if offset >= size { return false, 0; }
      var off := offset + start;
      p2a.SetIndex(off);
      WindowIsFlat(off);
      ok := true;
      val := p2a.bar1.Read32(PAGE + off % PAGE);
    }

    method Read8(offset: nat) returns (ok: bool, val: byte)
      requires p2a.Coherent()
      modifies p2a, p2a.bar1
      ensures p2a.Coherent() && (ok <==> offset < size) && (!ok ==> p2a.bar1.bmc == old(p2a.bar1.bmc))
      ensures ok && old(Mapped(offset)) ==>
        (p2a.bar1.bmc, val as word) == BusStep(old(p2a.bar1.bmc), R8(At(offset)))
      ensures ok && !old(Mapped(offset)) ==> (p2a.bar1.bmc, val as word) == old(Stray(R8(StrayAddr(offset))))
    {
      if offset >= size { return false, 0; }
      var off := offset + start;
      p2a.SetIndex(off);
      WindowIsFlat(off);
      ok := true;
      val := p2a.bar1.Read8(PAGE + off % PAGE);
    }

    method Write32(offset: nat, val: word) returns (ok: bool)
      requires p2a.Coherent() && (offset < size ==> (start + offset) % PAGE + 4 <= PAGE)
      modifies p2a, p2a.bar1
      ensures p2a.Coherent() && (ok <==> offset < size)
      ensures !ok || p2a.noWrite ==> p2a.bar1.bmc == old(p2a.bar1.bmc)
      ensures ok && !p2a.noWrite && old(Mapped(offset)) ==>
        p2a.bar1.bmc == BusStep(old(p2a.bar1.bmc), W32(At(offset), val)).0
      ensures ok && !p2a.noWrite && !old(Mapped(offset)) ==>
        p2a.bar1.bmc == old(Stray(W32(StrayAddr(offset), val))).0
    {
      if offset >= size { return false; }
      var off := offset + start;
      p2a.SetIndex(off);
      WindowIsFlat(off);
      ok := true;
      if !p2a.noWrite {
        p2a.bar1.Write32(PAGE + off % PAGE, val);
      }
      var _ := p2a.bar1.Read32(0x3cc);
    }

    method Write8(offset: nat, val: byte) returns (ok: bool)
      requires p2a.Coherent()
      modifies p2a, p2a.bar1
      ensures p2a.Coherent() && (ok <==> offset < size)
      ensures !ok || p2a.noWrite ==> p2a.bar1.bmc == old(p2a.bar1.bmc)
      ensures ok && !p2a.noWrite && old(Mapped(offset)) ==>
        p2a.bar1.bmc == BusStep(old(p2a.bar1.bmc), W8(At(offset), val)).0
      ensures ok && !p2a.noWrite && !old(Mapped(offset)) ==>
        p2a.bar1.bmc == old(Stray(W8(StrayAddr(offset), val))).0
    {
      if offset >= size { return false; }
      var off := offset + start;
      p2a.SetIndex(off);
      WindowIsFlat(off);
      ok := true;
      if !p2a.noWrite {
        p2a.bar1.Write8(PAGE + off % PAGE, val);
      }
      var _ := p2a.bar1.Read32(0x3cc);
    }
  }
}
