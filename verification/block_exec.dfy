/** The block execution loop's own operations, on caches changed in place. */
module BlockExec {
  import opened Wrappers
  import opened ChainCache
  import opened CodeCache

  class ModelDevice {
    const mode: StalePageMode
    const chained: bool
    const chain: DirectMappedCache<Option<Translation>>
    var blocks: BlockCache
    var virtBase: nat
    var physBase: nat
    var staleCodePages: seq<nat>
    var phase: Phase
    var clock: nat
    var reported: map<nat, nat>

    ghost predicate Valid()
      reads this
    {
      chain.Valid()
    }

    function View(): State
      reads this, chain.table
    {
      State(phase, blocks, chain.table[..], virtBase, physBase, staleCodePages, clock, reported)
    }

    constructor (mode: StalePageMode, chained: bool, n: nat)
      requires n > 0
      ensures Valid() && View() == Start(n) && Coherent(View())
      ensures fresh(chain) && fresh(chain.table) && this.mode == mode && this.chained == chained
    {
      this.mode, this.chained := mode, chained;
      chain := new DirectMappedCache(n, SENTINEL, None);
      blocks, virtBase, physBase, staleCodePages := map[], 1, 1, [];
      phase, clock, reported := Draining, 0, map[];
    }

    /** The environment reports a page of code as written to. */
    method ReportStale(page: nat)
      requires Valid() && Coherent(View())
      modifies this
      ensures Valid() && View() == Apply(mode, chained, old(View()), Report(page)) && Coherent(View())
    {
      ApplyCoherent(mode, chained, View(), Report(page));
      staleCodePages := staleCodePages + [page];
      reported := reported[page := clock];
      clock := clock + 1;
    }

    /** Drops the translations of one page after another, last reported first. */
    method PopStalePages()
      modifies this`blocks, this`staleCodePages
      ensures staleCodePages == [] && blocks == ClearPages(old(blocks), old(staleCodePages))
    {
      while staleCodePages != []
        invariant |staleCodePages| <= |old(staleCodePages)| && staleCodePages == old(staleCodePages)[..|staleCodePages|]
        invariant blocks == ClearPages(old(blocks), old(staleCodePages)[|staleCodePages|..])
        decreases |staleCodePages|
      {
        var last := |staleCodePages| - 1;
        var page := staleCodePages[last];
        staleCodePages := staleCodePages[..last];
        assert old(staleCodePages)[last..] == [page] + old(staleCodePages)[last + 1..];
        if page in blocks {
          blocks := blocks[page := map[]];
        }
      }
      assert old(staleCodePages)[0..] == old(staleCodePages);
    }

    method DrainStalePages()
      requires Valid() && Coherent(View()) && phase.Draining?
      modifies this, chain.table
      ensures Valid() && View() == Apply(mode, chained, old(View()), Drain) && Coherent(View())
      ensures !mode.NoTracking? ==> NoneStale(View())
    {
      ApplyCoherent(mode, chained, View(), Drain);
      if !mode.NoTracking? {
        DrainLeavesNoneStale(mode, View());
      }
      if !mode.NoTracking? && staleCodePages != [] {
        chain.Fill(SENTINEL);
        if mode.SoftwareFullFlush? {
          staleCodePages := [];
          blocks := map[];
        } else {
          PopStalePages();
        }
      }
      phase := Fetching;
      clock := clock + 1;
    }

    /** The translation kept under a page and an offset, made and kept if there was none. */
    method EntryFor(page: nat, offset: nat) returns (t: Translation)
      requires var t := FindBlock(blocks, page, offset, clock); t.page == page && t.offset == offset
      modifies this`blocks
      ensures t == FindBlock(old(blocks), page, offset, clock) && blocks == KeepBlock(old(blocks), t)
    {
      if page !in blocks {
        blocks := blocks[page := map[]];
      }
      var entries := blocks[page];
      if offset !in entries {
        entries := entries[offset := Translation(page, offset, clock)];
        blocks := blocks[page := entries];
      }
      t := entries[offset];
      assert entries == entries[offset := t];
    }

    /** Finds or makes the translation of the block at `pc`; `translated` is its physical address. */
    method NextBlock(pc: nat, translated: nat) returns (t: Translation)
      requires Valid() && Coherent(View()) && phase.Fetching?
      modifies this, chain.table
      ensures Valid() && View() == Apply(mode, chained, old(View()), Fetch(pc, translated)) && Coherent(View())
      ensures phase == Executing(t) && t.page == physBase && t.offset == pc % 4096
      ensures virtBase % 4096 == 0 && virtBase <= pc < virtBase + 4096
      ensures old(virtBase) % 4096 == 0 && old(virtBase) <= pc < old(virtBase) + 4096 ==>
                virtBase == old(virtBase) && physBase == old(physBase)
      ensures !(old(virtBase) % 4096 == 0 && old(virtBase) <= pc < old(virtBase) + 4096) ==>
                physBase % 4096 == 0 && physBase <= translated < physBase + 4096
    {
      PageIs(pc, old(virtBase));
      PageIs(translated, physBase);
      hide FindBlock, KeepBlock, Held, BlocksOk, ChainOk;
      ApplyCoherent(mode, chained, View(), Fetch(pc, translated));
      FoundOk(View(), EnterRegion(View(), pc, translated).physBase, pc % 4096);
      if PageOf(pc) != virtBase {
        virtBase := PageOf(pc);
        physBase := PageOf(translated);
      }
      t := EntryFor(physBase, pc % 4096);
      if chained {
        chain.InsertKey(pc, Some(t));
      }
      phase := Executing(t);
      clock := clock + 1;
    }

    method AfterExecute(tlbInvalidate: bool, codeFlush: bool)
      requires Valid() && Coherent(View()) && phase.Executing?
      modifies this, chain.table
      ensures Valid() && View() == Apply(mode, chained, old(View()), Return(tlbInvalidate, codeFlush))
                && Coherent(View())
    {
      ApplyCoherent(mode, chained, View(), Return(tlbInvalidate, codeFlush));
      if tlbInvalidate {
        chain.Fill(SENTINEL);
      }
      if codeFlush {
        chain.Fill(SENTINEL);
      }
      phase := Draining;
      clock := clock + 1;
    }
  }
}
