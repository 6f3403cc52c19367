/** Writing an image to the flash, block by block (doSpiWrite in cmds/ast/ast.go). */
module SpiWrite {
  import opened Bits
  import opened Outcomes
  import opened NorFlash
  import opened NorFrames
  import opened BmcBus
  import opened P2a
  import opened Fmc
  import opened SpiEnv

  /** The array once one block has been brought up to date with `data` at its start: left
      alone if it already reads so, else the data followed by erased bytes. */
  function FlashBlock(cells: seq<byte>, sec: nat, data: seq<byte>, eraseSize: nat): (s: seq<byte>)
    requires |data| <= eraseSize && sec + eraseSize <= |cells|
    ensures |s| == |cells|
  {
    if cells[sec..sec + |data|] == data then cells
    else
      seq(|cells|, p requires 0 <= p < |cells| =>
        if sec <= p < sec + |data| then data[p - sec]
        else if sec + |data| <= p < sec + eraseSize then 0xff
        else cells[p])
  }

  /** The first block boundary at or behind `len`, counting in blocks from `x`. */
  function Touched(len: nat, e: nat, x: nat): (t: nat)
    requires e > 0
    ensures t >= len && t >= x && (x < len + e ==> t < len + e)
    decreases len - x
  {
    if x >= len then x else Touched(len, e, x + e)
  }

  /** The piece of the image that goes into the block at `x`. */
  function Chunk(image: seq<byte>, e: nat, x: nat): (s: seq<byte>)
    requires x < |image|
    ensures |s| <= e
  {
    if e > |image| - x then image[x..] else image[x..x + e]
  }

  /** The reference result: every block of the image in turn, from `x` on. */
  function Flash(cells: seq<byte>, off: nat, image: seq<byte>, e: nat, x: nat): (s: seq<byte>)
    requires e > 0 && off + Touched(|image|, e, x) <= |cells|
    ensures |s| == |cells|
    decreases |image| - x
  {
    if x >= |image| then cells
    else Flash(FlashBlock(cells, off + x, Chunk(image, e, x), e), off, image, e, x + e)
  }

  /** Blocks tile the part, so the touched blocks of an in-range image exist. */
  lemma {:induction false} TouchedFits(off: nat, len: nat, size: nat, e: nat, x: nat)
    requires e in {0x1_0000, 0x4_0000} && x < len + e
    requires Aligned(off + x, e) && Aligned(size, e) && off + len <= size
    ensures off + Touched(len, e, x) <= size
    decreases len - x
  {
    if x < len {
      NextAligned(off + x, e);
      TouchedFits(off, len, size, e, x + e);
    }
  }

  /** The touched blocks end at a block boundary. */
  lemma {:induction false} TouchedAligned(off: nat, len: nat, e: nat, x: nat)
    requires e in {0x1_0000, 0x4_0000} && Aligned(off + x, e)
    ensures Aligned(off + Touched(len, e, x), e)
    decreases len - x
  {
    if x < len {
      NextAligned(off + x, e);
      TouchedAligned(off, len, e, x + e);
    }
  }

  lemma NextAligned(a: nat, e: nat)
    requires e in {0x1_0000, 0x4_0000} && Aligned(a, e)
    ensures Aligned(a + e, e)
  {
  }

  /** From `cells` to `s`: the image's bytes [x, |image|) stand at their place; nothing changed
      outside [off + x, to); and behind the image there are the old bytes or erased ones. */
  ghost predicate Flashed(cells: seq<byte>, s: seq<byte>, off: nat, image: seq<byte>, x: nat, to: nat) {
    && |s| == |cells| && off + |image| <= to <= |cells|
    && (forall p :: 0 <= p < |cells| && !(off + x <= p < to) ==> s[p] == cells[p])
    && (forall p :: off + x <= p < off + |image| ==> s[p] == image[p - off])
    && ((forall p :: off + |image| <= p < to ==> s[p] == cells[p])
        || (forall p :: off + |image| <= p < to ==> s[p] == 0xff))
  }

  /** One block: its data, then the old bytes or erased ones, and nothing else changed. */
  lemma FlashBlockAt(cells: seq<byte>, sec: nat, data: seq<byte>, e: nat)
    requires |data| <= e && sec + e <= |cells|
    ensures Flashed(cells, FlashBlock(cells, sec, data, e), sec, data, 0, sec + e)
  {
    if cells[sec..sec + |data|] == data {
      forall p | sec <= p < sec + |data| ensures cells[p] == data[p - sec] {
        assert cells[p] == cells[sec..sec + |data|][p - sec];
      }
    }
  }

  /** What `Flash` leaves. */
  lemma {:induction false} FlashAt(cells: seq<byte>, off: nat, image: seq<byte>, e: nat, x: nat,
                                   s: seq<byte>, to: nat)
    requires e > 0 && to == off + Touched(|image|, e, x) && to <= |cells|
    requires s == Flash(cells, off, image, e, x)
    ensures Flashed(cells, s, off, image, x, to)
    decreases |image| - x
  {
    if x < |image| {
      FlashAt(FlashBlock(cells, off + x, Chunk(image, e, x), e), off, image, e, x + e, s, to);
      BlockThenRest(cells, s, off, image, e, x, to);
    }
  }

  /** One block done, then the rest. */
  lemma BlockThenRest(cells: seq<byte>, s: seq<byte>, off: nat, image: seq<byte>,
                      e: nat, x: nat, to: nat)
    requires x < |image| && e > 0 && off + x + e <= |cells|
    requires Flashed(FlashBlock(cells, off + x, Chunk(image, e, x), e), s, off, image, x + e, to)
    requires off + x + e <= to && (x + e >= |image| ==> to == off + x + e)
    ensures Flashed(cells, s, off, image, x, to)
  {
    var chunk := Chunk(image, e, x);
    var mid := FlashBlock(cells, off + x, chunk, e);
    FlashBlockAt(cells, off + x, chunk, e);
    forall p | off + x <= p < off + |image| ensures s[p] == image[p - off] {
      if p < off + x + e {
        assert mid[p] == chunk[p - (off + x)];
      }
    }
  }

  /** Erase, then program: the block holds the data and erased bytes. */
  lemma EraseThenWrite(cells: seq<byte>, mid: seq<byte>, after: seq<byte>, sec: nat, data: seq<byte>, eraseSize: nat)
    requires eraseSize in {0x1_0000, 0x4_0000} && Aligned(sec, eraseSize)
    requires |data| <= eraseSize && sec + eraseSize <= |cells|
    requires mid == ErasedCells(cells, sec, eraseSize) && AndedInto(mid, after, sec, data)
    requires cells[sec..sec + |data|] != data
    ensures after == FlashBlock(cells, sec, data, eraseSize)
  {
    ErasesBlock(cells, sec, eraseSize);
    var s := FlashBlock(cells, sec, data, eraseSize);
    forall p | 0 <= p < |cells|
      ensures after[p] == s[p]
    {
      if sec <= p < sec + |data| {
        assert mid[p] == 0xff;
        AndErased(data[p - sec]);
      }
    }
  }

  /** `sec` is a block of the part. */
  ghost predicate BlockFits(n: Nor, sec: nat)
    requires n.eraseSize > 0
  {
    Aligned(sec, n.eraseSize) && sec + n.eraseSize <= |n.cells|
  }

  /** One round of the block loop. Whatever the block, the chip is at rest when it begins and
      when it ends. */
  method WriteBlock(fmc: Fmc, sec: nat, data: seq<byte>) returns (r: Outcome<()>)
    requires fmc.Open() && |data| <= fmc.chip.eraseSize
    modifies fmc.mem.p2a, fmc.mem.p2a.bar1
    ensures r == Panic || r == Done(())
    ensures r.Done? <==> |data| % 4 == 0
    ensures r == Panic ==> fmc.Nor() == old(fmc.Nor())
    ensures r.Done? ==> fmc.Open() && SamePart(old(fmc.Nor()), fmc.Nor())
    ensures SafeExtension(old(fmc.Nor()).log, fmc.Nor().log)
    ensures r.Done? && Correct(old(fmc.Nor())) && BlockFits(old(fmc.Nor()), sec) ==>
      fmc.Nor().cells == FlashBlock(old(fmc.Nor()).cells, sec, data, fmc.chip.eraseSize)
  {
    ghost var n := fmc.Nor();
    var oldData := fmc.SpiRead(sec, |data|);
    if oldData == Panic { return Panic; }
    ghost var fits := BlockFits(n, sec);
    assert fits ==> oldData.value == n.cells[sec..sec + |data|];
    if oldData.value == data { return Done(()); }
    ghost var n1 := fmc.Nor();
    var ok := fmc.EraseBlock(sec);
    if !ok { return Fatal("While erasing sector"); }
    ghost var n2 := fmc.Nor();
    ok := fmc.Write(sec, data);
    if !ok { return Fatal("While Page Programming"); }
    if fits && Correct(n) {
      InRange(sec, |n.cells|);
      CorrectStart(n1, ErasedCells(n.cells, sec, n.eraseSize));
      EraseThenWrite(n.cells, n2.cells, fmc.Nor().cells, sec, data, n.eraseSize);
    }
    r := Done(());
  }

  /** The block loop after `x` bytes' worth of blocks: the block boundary it has reached. */
  ghost predicate AtBlock(e: nat, off: nat, len: nat, x: nat) {
    && e in {0x1_0000, 0x4_0000} && Aligned(off + x, e)
    && x % 4 == 0 && x < len + e && (x >= len ==> len % 4 == 0)
  }

  /** On a correct chip: finishing from here gives the reference result, and nothing beyond
      the blocks done has changed. */
  ghost predicate CellsAt(before: seq<byte>, cells: seq<byte>, off: nat, image: seq<byte>, x: nat, e: nat) {
    && e > 0 && |cells| == |before|
    && Touched(|image|, e, x) == Touched(|image|, e, 0) <= |cells| - off
    && Flash(cells, off, image, e, x) == Flash(before, off, image, e, 0)
    && forall p :: 0 <= p < |cells| && !(off <= p < off + x) ==> cells[p] == before[p]
  }

  ghost predicate Flashing(n: Nor, m: Nor, off: nat, image: seq<byte>, x: nat) {
    forall e {:trigger CellsAt(n.cells, m.cells, off, image, x, e)} :: e == n.eraseSize ==>
      AtBlock(e, off, |image|, x) && CellsAt(n.cells, m.cells, off, image, x, e)
  }

  lemma StartsFlashing(n: Nor, off: nat, image: seq<byte>)
    requires WellFormed(n) && ImageFits(n, off, image) && Aligned(off, n.eraseSize)
    ensures Flashing(n, n, off, image, 0)
  {
    var e := n.eraseSize;
    TouchedFits(off, |image|, |n.cells|, e, 0);
    assert off + 0 == off && AtBlock(e, off, |image|, 0);
    assert CellsAt(n.cells, n.cells, off, image, 0, e);
  }

  lemma NextBlock(e: nat, off: nat, len: nat, x: nat)
    requires AtBlock(e, off, len, x) && x < len
    requires len - x < e ==> (len - x) % 4 == 0
    ensures AtBlock(e, off, len, x + e)
  {
    NextAligned(off + x, e);
    if len - x < e { assert len == x + (len - x); }
  }

  /** One more block. */
  lemma FlashesOn(before: seq<byte>, cells: seq<byte>, off: nat, image: seq<byte>, x: nat, e: nat)
    requires CellsAt(before, cells, off, image, x, e) && x < |image|
    ensures off + x + e <= |cells|
    ensures CellsAt(before, FlashBlock(cells, off + x, Chunk(image, e, x), e), off, image, x + e, e)
  {
    FlashBlockAt(cells, off + x, Chunk(image, e, x), e);
  }

  /** The image lies inside the part. */
  ghost predicate ImageFits(n: Nor, off: nat, image: seq<byte>) { off + |image| <= |n.cells| }

  /** On a correct chip the block loop completes exactly for whole words, with the reference
      result; otherwise nothing outside the image's range has changed. */
  ghost predicate BlocksOutcome(n: Nor, m: Nor, off: nat, image: seq<byte>, r: Outcome<()>)
    requires n.eraseSize > 0
  {
    && (r.Done? <==> |image| % 4 == 0) && (r == Panic <==> |image| % 4 != 0)
    && |m.cells| == |n.cells| && off + Touched(|image|, n.eraseSize, 0) <= |n.cells|
    && (r.Done? ==> m.cells == Flash(n.cells, off, image, n.eraseSize, 0))
    && (!r.Done? ==> UnchangedOutside(n.cells, m.cells, off, |image|))
  }

  lemma FlashedAll(n: Nor, m: Nor, off: nat, image: seq<byte>, x: nat)
    requires Flashing(n, m, off, image, x) && x >= |image|
    ensures n.eraseSize > 0 && BlocksOutcome(n, m, off, image, Done(()))
  {
    assert CellsAt(n.cells, m.cells, off, image, x, n.eraseSize);
  }

  /** `WriteBlock`'s promise, inside the loop. */
  lemma RoundDone(n: Nor, m: Nor, m': Nor, off: nat, image: seq<byte>, x: nat)
    requires Flashing(n, m, off, image, x) && x < |image| && n.eraseSize == m.eraseSize
    requires n.eraseSize > 0 && |Chunk(image, n.eraseSize, x)| % 4 == 0
    requires BlockFits(m, x + off) ==>
      m'.cells == FlashBlock(m.cells, x + off, Chunk(image, n.eraseSize, x), m.eraseSize)
    ensures Flashing(n, m', off, image, x + n.eraseSize)
  {
    assert CellsAt(n.cells, m.cells, off, image, x, n.eraseSize);
    NextBlock(n.eraseSize, off, |image|, x);
    FlashesOn(n.cells, m.cells, off, image, x, n.eraseSize);
  }

  lemma StoppedShort(n: Nor, m: Nor, off: nat, image: seq<byte>, x: nat)
    requires Flashing(n, m, off, image, x) && x < |image|
    requires n.eraseSize > 0 && |Chunk(image, n.eraseSize, x)| % 4 != 0
    ensures BlocksOutcome(n, m, off, image, Panic)
  {
    assert CellsAt(n.cells, m.cells, off, image, x, n.eraseSize);
    NotWords(x, |image|, |Chunk(image, n.eraseSize, x)|);
  }

  lemma NotWords(x: nat, len: nat, chunk: nat)
    requires x % 4 == 0 && chunk % 4 != 0 && len == x + chunk
    ensures len % 4 != 0
  {
  }

  /** However a round ends. */
  lemma RoundEnds(promised: bool, n: Nor, m: Nor, m': Nor, off: nat, image: seq<byte>, x: nat, r: Outcome<()>)
    requires x < |image| && n.eraseSize > 0 && n.eraseSize == m.eraseSize && (r == Panic || r == Done(()))
    requires r.Done? <==> |Chunk(image, n.eraseSize, x)| % 4 == 0
    requires promised ==> Flashing(n, m, off, image, x)
    requires r == Panic ==> m' == m
    requires r.Done? && promised && BlockFits(m, x + off) ==>
      m'.cells == FlashBlock(m.cells, x + off, Chunk(image, n.eraseSize, x), m.eraseSize)
    ensures r.Done? && promised ==> Flashing(n, m', off, image, x + n.eraseSize)
    ensures !r.Done? && promised ==> BlocksOutcome(n, m', off, image, r)
  {
    if promised {
      if r.Done? {
        RoundDone(n, m, m', off, image, x);
      } else {
        StoppedShort(n, m, off, image, x);
      }
    }
  }

  /** One round of the block loop, with its bookkeeping. */
  method BlockRound(fmc: Fmc, spiOff: nat, image: seq<byte>, x: nat, ghost n: Nor, ghost promised: bool)
    returns (r: Outcome<()>)
    requires fmc.Open() && SamePart(n, fmc.Nor()) && x < |image| && WellFormed(n)
    requires SafeExtension(n.log, fmc.Nor().log)
    requires promised ==> Correct(n) && Flashing(n, fmc.Nor(), spiOff, image, x)
    modifies fmc.mem.p2a, fmc.mem.p2a.bar1
    ensures SafeExtension(n.log, fmc.Nor().log)
    ensures r == Panic || r == Done(())
    ensures r.Done? ==> fmc.Open() && SamePart(n, fmc.Nor())
    ensures r.Done? && promised ==> Flashing(n, fmc.Nor(), spiOff, image, x + n.eraseSize)
    ensures !r.Done? && promised ==> BlocksOutcome(n, fmc.Nor(), spiOff, image, r)
  {
    ghost var m := fmc.Nor();
    var sec := x + spiOff;
    var chunk := fmc.chip.eraseSize;
    if chunk > |image| - x {
      chunk := |image| - x;
    }
    assert image[x..x + chunk] == Chunk(image, n.eraseSize, x);
    r := WriteBlock(fmc, sec, image[x..x + chunk]);
    SafeExtensions(n.log, m.log, fmc.Nor().log);
    RoundEnds(promised, n, m, fmc.Nor(), spiOff, image, x, r);
  }

  /** The block loop. */
  method WriteBlocks(fmc: Fmc, spiOff: nat, image: seq<byte>) returns (r: Outcome<()>)
    requires fmc.Open() && Aligned(spiOff, fmc.chip.eraseSize)
    modifies fmc.mem.p2a, fmc.mem.p2a.bar1
    ensures SafeExtension(old(fmc.Nor()).log, fmc.Nor().log)
    ensures r == Panic || r == Done(())
    ensures r.Done? ==> fmc.Open() && SamePart(old(fmc.Nor()), fmc.Nor())
    ensures Correct(old(fmc.Nor())) && ImageFits(old(fmc.Nor()), spiOff, image) ==>
      BlocksOutcome(old(fmc.Nor()), fmc.Nor(), spiOff, image, r)
  {
    ghost var n := fmc.Nor();
    ghost var promised := Correct(n) && ImageFits(n, spiOff, image);
    if promised { StartsFlashing(n, spiOff, image); }
    var x := 0;
    while x < |image|
      invariant fmc.Open() && SamePart(n, fmc.Nor()) && SafeExtension(n.log, fmc.Nor().log)
      invariant promised ==> Flashing(n, fmc.Nor(), spiOff, image, x)
    {
      r := BlockRound(fmc, spiOff, image, x, n, promised);
      if !r.Done? { return; }
      x := x + fmc.chip.eraseSize;
    }
    if promised { FlashedAll(n, fmc.Nor(), spiOff, image, x); }
    r := Done(());
  }

  const MISALIGNED := "Cannot write non-block aligned data to flash"
  const REREAD_FAILED := "Reread comparison failed!"

  /** Block loop and verification pass, on an opened programmer. `image` is `buf[0:spiLen]`. */
  method WriteImage(fmc: Fmc, spiOff: nat, image: seq<byte>) returns (r: Outcome<()>)
    requires fmc.Open()
    modifies fmc.mem.p2a, fmc.mem.p2a.bar1
    // Whatever the chip does: the protocol is kept, and success means the image is there.
    ensures SafeExtension(old(fmc.Nor()).log, fmc.Nor().log)
    ensures r.Done? ==> fmc.Open() && SamePart(old(fmc.Nor()), fmc.Nor())
    ensures r.Done? && ImageFits(old(fmc.Nor()), spiOff, image) ==>
      fmc.Nor().cells[spiOff..spiOff + |image|] == image
    ensures !Aligned(spiOff, fmc.chip.eraseSize) <==> r == Fatal(MISALIGNED)
    ensures r.Fatal? ==> r == Fatal(MISALIGNED) || r == Fatal(REREAD_FAILED)
    ensures !Aligned(spiOff, fmc.chip.eraseSize) ==> fmc.Nor() == old(fmc.Nor())
    // A correct chip: when it succeeds, and what it leaves. Verification never fails.
    ensures Correct(old(fmc.Nor())) && ImageFits(old(fmc.Nor()), spiOff, image)
            && Aligned(spiOff, fmc.chip.eraseSize)
      ==> BlocksOutcome(old(fmc.Nor()), fmc.Nor(), spiOff, image, r)
    ensures Correct(old(fmc.Nor())) && ImageFits(old(fmc.Nor()), spiOff, image) && r.Done? ==>
      Flashed(old(fmc.Nor().cells), fmc.Nor().cells, spiOff, image, 0,
              spiOff + Touched(|image|, fmc.chip.eraseSize, 0))
  {
    if !Aligned(spiOff, fmc.chip.eraseSize) { return Fatal(MISALIGNED); }
    ghost var n := fmc.Nor();
    r := WriteBlocks(fmc, spiOff, image);
    if !r.Done? { return; }
    ghost var m := fmc.Nor();
    var reread := fmc.SpiRead(spiOff, |image|);
    if !reread.Done? { return Panic; }
    if ImageFits(n, spiOff, image) {
      Reread(m, spiOff, reread.value);
      if Correct(n) {
        FlashAt(n.cells, spiOff, image, n.eraseSize, 0, m.cells,
                spiOff + Touched(|image|, n.eraseSize, 0));
        assert m.cells[spiOff..spiOff + |image|] == image;
      }
    }
    if reread.value != image { return Fatal(REREAD_FAILED); }
  }

  /** An in-range read is the slice of the array. */
  lemma Reread(m: Nor, off: nat, s: seq<byte>)
    requires off + |s| <= |m.cells| <= FMC_WINDOW
    requires forall i :: 0 <= i < |s| ==> s[i] == m.cells[Wrap(U32(off) + i, |m.cells|)]
    ensures s == m.cells[off..off + |s|]
  {
  }

  /** `full` is the image file with the environment written into it, if one was given. */
  ghost predicate Prepared(file: seq<byte>, env: seq<byte>, crc: seq<byte> -> word, full: seq<byte>) {
    if env == [] then full == file
    else
      && |full| == |file| && |file| in {0x200_0000, 0x1_0000}
      && var base := if |file| == 0x200_0000 then 0x1fc_0000 else 0;
      && SectorBytes(full[base..base + 0x1_0000], env, crc(full[base + 5..base + 0x1_0000]))
      && full[..base] == file[..base] && full[base + 0x1_0000..] == file[base + 0x1_0000..]
  }

  /** The file has an erased sector for the environment, and the environment fits in it. */
  ghost predicate EnvFits(file: seq<byte>, env: seq<byte>) {
    env == [] ||
    (|file| in {0x200_0000, 0x1_0000} && |env| + 7 <= 0x1_0000
     && var base := if |file| == 0x200_0000 then 0x1fc_0000 else 0;
     forall k :: base <= k < base + 0x1_0000 ==> file[k] == 0xff)
  }

  lemma SameOutside(s: seq<byte>, t: seq<byte>, base: nat)
    requires |s| == |t| && base + SECTOR <= |s|
    requires forall k :: 0 <= k < |s| && !(base <= k < base + SECTOR) ==> t[k] == s[k]
    ensures t[..base] == s[..base] && t[base + SECTOR..] == s[base + SECTOR..]
  {
  }

  lemma SectorPrepared(file: seq<byte>, full: seq<byte>, env: seq<byte>, crc: seq<byte> -> word, base: nat)
    requires env != [] && |full| == |file| && |file| in {0x200_0000, 0x1_0000}
    requires base == if |file| == 0x200_0000 then 0x1fc_0000 else 0
    requires forall k :: 0 <= k < |file| && !(base <= k < base + SECTOR) ==> full[k] == file[k]
    requires SectorBytes(full[base..base + SECTOR], env, crc(full[base + 5..base + SECTOR]))
    ensures Prepared(file, env, crc, full)
  {
    SameOutside(file, full, base);
  }

  /** The image file in memory, with its environment sector. */
  method PrepareImage(file: seq<byte>, env: seq<byte>, crc: seq<byte> -> word)
    returns (r: Outcome<seq<byte>>)
    ensures r.Done? ==> Prepared(file, env, crc, r.value)
    ensures r.Done? <==> EnvFits(file, env)
  {
    var buf := new byte[|file|](i requires 0 <= i < |file| => file[i]);
    assert buf[..] == file;
    if env != [] {
      var o := SpiMakeEnv(buf, env, crc);
      if o == Panic { return Panic; }
      if o.Fatal? { return Fatal("spiMakeEnv"); }
      ghost var base := if |file| == 0x200_0000 then 0x1fc_0000 else 0;
      assert buf[..][base..base + SECTOR] == buf[base..base + SECTOR];
      assert buf[..][base + 5..base + SECTOR] == buf[base + 5..base + SECTOR];
      assert |file| == SECTOR ==> buf[..] == buf[base..base + SECTOR];
      SectorPrepared(file, buf[..], env, crc, base);
    }
    r := Done(buf[..]);
  }

  /** The whole command. `full` is the prepared image, `len` the number of bytes asked for (all of
      the file unless a length was given), and `end` the end of the last block touched. */
  method DoSpiWrite(p2a: P2aHandle, spiMode: int, file: seq<byte>, spiOff: nat, spiLen: int,
                    env: seq<byte>, crc: seq<byte> -> word)
    returns (r: Outcome<()>, ghost full: seq<byte>, ghost len: nat, ghost end: nat)
    requires p2a.Coherent() && !Selected(p2a.bar1.bmc) && Genuine(p2a.bar1.bmc.nor)
    modifies p2a, p2a.bar1
    ensures spiLen <= 0 ==> len == |file|
    ensures spiLen > 0 ==> len == spiLen
    ensures r.Done? ==> Prepared(file, env, crc, full) && len <= |full|
    // Only safe frames, whatever the chip does; a busy chip is refused.
    ensures old(p2a.bar1.bmc.nor).busy == 0 ==> SafeExtension(old(p2a.bar1.bmc.nor).log, p2a.bar1.bmc.nor.log)
    ensures old(p2a.bar1.bmc.nor).busy > 0 ==> !r.Done?
    ensures r.Done? ==> AtRest(p2a.bar1.bmc.nor)
    // A run without writes touches nothing, and always gives up.
    ensures p2a.noWrite ==> !r.Done? && p2a.bar1.bmc == old(p2a.bar1.bmc)
    // Success means the image is there, whatever the chip does, and giving up beforehand means
    // that nothing was changed.
    ensures r.Done? && spiOff + len <= |p2a.bar1.bmc.nor.cells| ==>
      p2a.bar1.bmc.nor.cells[spiOff..spiOff + len] == full[..len]
    ensures r.Fatal? && r != Fatal(REREAD_FAILED) ==> p2a.bar1.bmc.nor.cells == old(p2a.bar1.bmc.nor).cells
    // On a correct chip, for an image that fits: the verification pass never fails, success has an
    // exact condition, leaves the image followed by old or erased bytes up to the next block
    // boundary, and changes nothing else; and a panic leaves everything outside the range as it was.
    ensures Correct(old(p2a.bar1.bmc.nor)) && spiOff + len <= |old(p2a.bar1.bmc.nor).cells| ==>
      && r != Fatal(REREAD_FAILED)
      && (r.Done? ==>
           && spiOff + len <= end < spiOff + len + old(p2a.bar1.bmc.nor).eraseSize
           && end % old(p2a.bar1.bmc.nor).eraseSize == 0
           && Flashed(old(p2a.bar1.bmc.nor).cells, p2a.bar1.bmc.nor.cells, spiOff, full[..len], 0, end))
      && (r == Panic ==> UnchangedOutside(old(p2a.bar1.bmc.nor).cells, p2a.bar1.bmc.nor.cells, spiOff, len))
      && (r.Done? <==> !p2a.noWrite && Recognised(old(p2a.bar1.bmc), spiMode) && EnvFits(file, env)
                       && len <= |file| && len % 4 == 0 && spiOff % old(p2a.bar1.bmc.nor).eraseSize == 0)
  {
    full, len, end := file, if spiLen <= 0 then |file| else spiLen, 0;
    var buf := PrepareImage(file, env, crc);
    if buf == Panic { return Panic, full, len, end; }
    if buf.Fatal? { return Fatal("spiMakeEnv"), full, len, end; }
    full := buf.value;
    if spiLen > 0 && spiLen > |buf.value| { return Fatal("too small for -spilen"), full, len, end; }
    var size := if spiLen <= 0 then |buf.value| else spiLen;
    var fmc := FmcNew(p2a, spiMode);
    if !fmc.Done? { return Fatal("FmcNew"), full, len, end; }
    ghost var ready := p2a.bar1.bmc.nor;
    r, end := WriteAndVerify(fmc.value, spiOff, buf.value[..size]);
    if old(p2a.bar1.bmc.nor).busy == 0 {
      SafeExtensions(old(p2a.bar1.bmc.nor).log, ready.log, p2a.bar1.bmc.nor.log);
    }
  }

  lemma AlignedMeans(off: nat, e: nat)
    requires e in {0x1_0000, 0x4_0000}
    ensures Aligned(off, e) <==> off % e == 0
  {
  }

  /** `WriteImage`, with what it means for the whole array. */
  method WriteAndVerify(fmc: Fmc, spiOff: nat, image: seq<byte>) returns (r: Outcome<()>, ghost end: nat)
    requires fmc.Open()
    modifies fmc.mem.p2a, fmc.mem.p2a.bar1
    ensures SafeExtension(old(fmc.Nor()).log, fmc.Nor().log)
    ensures r.Done? ==> AtRest(fmc.Nor())
    ensures r.Done? && spiOff + |image| <= |fmc.Nor().cells| ==>
      fmc.Nor().cells[spiOff..spiOff + |image|] == image
    ensures r.Fatal? && r != Fatal(REREAD_FAILED) ==> fmc.Nor().cells == old(fmc.Nor()).cells
    ensures Correct(old(fmc.Nor())) && spiOff + |image| <= |old(fmc.Nor()).cells| ==>
      && r != Fatal(REREAD_FAILED)
      && (r.Done? ==> Finish(old(fmc.Nor()), fmc.Nor(), spiOff, image, end))
      && (r == Panic ==> UnchangedOutside(old(fmc.Nor()).cells, fmc.Nor().cells, spiOff, |image|))
      && (r.Done? <==> |image| % 4 == 0 && spiOff % old(fmc.Nor()).eraseSize == 0)
  {
    ghost var n := fmc.Nor();
    r := WriteImage(fmc, spiOff, image);
    AlignedMeans(spiOff, n.eraseSize);
    end := spiOff + Touched(|image|, n.eraseSize, 0);
    AlignedMeans(end, n.eraseSize);
    if Aligned(spiOff, n.eraseSize) { TouchedAligned(spiOff, |image|, n.eraseSize, 0); }
  }

  /** The image stands there, followed by old or erased bytes up to the next block boundary, and
      nothing else has changed. */
  ghost predicate Finish(n: Nor, m: Nor, off: nat, image: seq<byte>, end: nat) {
    && n.eraseSize > 0 && off + |image| <= end < off + |image| + n.eraseSize && end % n.eraseSize == 0
    && Flashed(n.cells, m.cells, off, image, 0, end)
  }

  ghost predicate UnchangedOutside(before: seq<byte>, after: seq<byte>, off: nat, len: nat) {
    |after| == |before| && forall p :: 0 <= p < |before| && !(off <= p < off + len) ==> after[p] == before[p]
  }
}
