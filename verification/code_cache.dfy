/** The translation caches of the block execution loop, as a machine whose environment reports pages
    of guest code that have been written to. */
module CodeCache {
  import opened Wrappers
  import opened ChainCache

  /** A translation, the page and offset it is kept under and when it was made. */
  datatype Translation = Translation(page: nat, offset: nat, made: nat)

  datatype StalePageMode = EPT | NoTracking | SoftwareTargetedFlush | SoftwareFullFlush

  type BlockCache = map<nat, map<nat, Translation>>

  /** The key of a forgotten entry, which is no address of an instruction. */
  const SENTINEL: nat := 1

  /** Where the loop is: about to drain stale pages, to find a block, or running one. */
  datatype Phase = Draining | Fetching | Executing(block: Translation)

  datatype State = State(
    phase: Phase, blocks: BlockCache, chain: Table<Option<Translation>>,
    virtBase: nat, physBase: nat, pending: seq<nat>,
    clock: nat, reported: map<nat, nat>)

  datatype Action =
    | Report(page: nat)
    | Drain
    | Fetch(pc: nat, translated: nat)
    | Return(tlbInvalidate: bool, codeFlush: bool)
    | Restore

  function PageOf(address: nat): nat {
    address / 4096 * 4096
  }

  /** A page is 4096 bytes from a multiple of 4096 on, and an address is in one page only. */
  lemma {:induction false} PageIs(address: nat, base: nat)
    ensures PageOf(address) % 4096 == 0 && PageOf(address) <= address < PageOf(address) + 4096
    ensures base % 4096 == 0 && base <= address < base + 4096 <==> base == PageOf(address)
  {}

  /** Translations of the stale pages are dropped, the pages stay known. */
  function ClearPages(blocks: BlockCache, stale: seq<nat>): BlockCache {
    map page | page in blocks :: if page in stale then map[] else blocks[page]
  }

  function DrainPages(mode: StalePageMode, s: State): State {
    match mode
    case NoTracking => s
    case SoftwareFullFlush =>
      if s.pending == [] then s else s.(pending := [], chain := FillKeys(s.chain, SENTINEL), blocks := map[])
    case _ =>
      if s.pending == [] then s
      else s.(pending := [], chain := FillKeys(s.chain, SENTINEL), blocks := ClearPages(s.blocks, s.pending))
  }

  /** The region the program counter is in; addresses are translated only when it is left. */
  function EnterRegion(s: State, pc: nat, translated: nat): State {
    if PageOf(pc) != s.virtBase then s.(virtBase := PageOf(pc), physBase := PageOf(translated)) else s
  }

  /** The block at an offset of a page, translated now if it is not there. */
  function FindBlock(blocks: BlockCache, page: nat, offset: nat, clock: nat): Translation {
    if page in blocks && offset in blocks[page] then blocks[page][offset] else Translation(page, offset, clock)
  }

  function KeepBlock(blocks: BlockCache, t: Translation): BlockCache {
    blocks[t.page := (if t.page in blocks then blocks[t.page] else map[])[t.offset := t]]
  }

  function FetchBlock(chained: bool, s: State, pc: nat, translated: nat): State
    requires s.chain != []
  {
    var s1 := EnterRegion(s, pc, translated);
    var t := FindBlock(s1.blocks, s1.physBase, pc % 4096, s1.clock);
    s1.(phase := Executing(t), blocks := KeepBlock(s1.blocks, t),
        chain := if chained then Insert(s1.chain, pc, Some(t)) else s1.chain)
  }

  /** One step of the loop or of its environment; an action that is not due does nothing but take time. */
  function Act(mode: StalePageMode, chained: bool, s: State, a: Action): State
    requires s.chain != []
  {
    match a
    case Report(page) => s.(pending := s.pending + [page], reported := s.reported[page := s.clock])
    case Drain => if s.phase.Draining? then DrainPages(mode, s).(phase := Fetching) else s
    case Fetch(pc, translated) => if s.phase.Fetching? then FetchBlock(chained, s, pc, translated) else s
    case Return(tlbInvalidate, codeFlush) =>
      if !s.phase.Executing? then s
      else s.(phase := Draining, chain := if tlbInvalidate || codeFlush then FillKeys(s.chain, SENTINEL) else s.chain)
    case Restore => s.(phase := Draining, virtBase := 1, physBase := 1)
  }

  function Apply(mode: StalePageMode, chained: bool, s: State, a: Action): State
    requires s.chain != []
  {
    Act(mode, chained, s, a).(clock := s.clock + 1)
  }

  function Run(mode: StalePageMode, chained: bool, s: State, actions: seq<Action>): (s': State)
    requires s.chain != []
    ensures |s'.chain| == |s.chain|
    decreases actions
  {
    if actions == [] then s else Run(mode, chained, Apply(mode, chained, s, actions[0]), actions[1..])
  }

  function Start(n: nat): State {
    State(Draining, map[], seq(n, _ => Entry(SENTINEL, None)), 1, 1, [], 0, map[])
  }

  ghost predicate Held(blocks: BlockCache, t: Translation) {
    t.page in blocks && t.offset in blocks[t.page] && blocks[t.page][t.offset] == t
  }

  /** The page of `t` has been reported since `t` was made. */
  predicate Stale(s: State, t: Translation) {
    t.page in s.reported && t.made < s.reported[t.page]
  }

  ghost predicate BlocksOk(s: State) {
    forall p, o :: p in s.blocks && o in s.blocks[p] ==>
      var t := s.blocks[p][o];
      t.page == p && t.offset == o && t.made < s.clock && (Stale(s, t) ==> p in s.pending)
  }

  /** The entry leads to a translation that is still held, of the right offset. */
  ghost predicate EntryOk(blocks: BlockCache, e: Entry<Option<Translation>>) {
    e.key != 1 ==> e.value.Some? && Held(blocks, e.value.value) && e.value.value.offset == e.key % 4096
  }

  ghost predicate ChainOk(s: State) {
    forall i :: 0 <= i < |s.chain| ==> EntryOk(s.blocks, s.chain[i])
  }

  /** The running block is held, on the page the program counter is in. */
  ghost predicate PhaseOk(s: State) {
    s.phase.Executing? ==> Held(s.blocks, s.phase.block) && s.phase.block.page == s.physBase
  }

  ghost predicate Coherent(s: State) {
    && s.chain != [] && BlocksOk(s) && ChainOk(s) && PhaseOk(s)
    && forall p :: p in s.reported ==> s.reported[p] < s.clock
  }

  lemma {:induction false} DrainCoherent(mode: StalePageMode, s: State)
    requires Coherent(s)
    ensures BlocksOk(DrainPages(mode, s)) && ChainOk(DrainPages(mode, s))
  {}

  /** A block found under a page and an offset is the one for them. */
  lemma {:induction false} FoundOk(s: State, page: nat, offset: nat)
    requires BlocksOk(s)
    ensures var t := FindBlock(s.blocks, page, offset, s.clock); t.page == page && t.offset == offset
  {}

  lemma {:induction false} FetchChainOk(chained: bool, s: State, pc: nat, translated: nat)
    requires Coherent(s)
    ensures ChainOk(FetchBlock(chained, s, pc, translated))
  {
    hide Index;
    var s', s1 := FetchBlock(chained, s, pc, translated), EnterRegion(s, pc, translated);
    var t := FindBlock(s.blocks, s1.physBase, pc % 4096, s.clock);
    forall i | 0 <= i < |s'.chain|
      ensures EntryOk(s'.blocks, s'.chain[i])
    {
      assert EntryOk(s.blocks, s.chain[i]);
    }
  }

  lemma {:induction false} FetchBlocksOk(chained: bool, s: State, pc: nat, translated: nat)
    requires Coherent(s)
    ensures var s' := FetchBlock(chained, s, pc, translated).(clock := s.clock + 1); BlocksOk(s') && PhaseOk(s')
  {}

  lemma {:induction false} ReportCoherent(mode: StalePageMode, chained: bool, s: State, page: nat)
    requires Coherent(s)
    ensures Coherent(Apply(mode, chained, s, Report(page)))
  {
    var s' := Apply(mode, chained, s, Report(page));
    forall p, o | p in s'.blocks && o in s'.blocks[p]
      ensures Stale(s', s'.blocks[p][o]) ==> p in s'.pending
    {
      assert page in s'.pending;
    }
  }

  lemma {:induction false} DrainStepCoherent(mode: StalePageMode, chained: bool, s: State)
    requires Coherent(s)
    ensures Coherent(Apply(mode, chained, s, Drain))
  {
    DrainCoherent(mode, s);
  }

  lemma {:induction false} FetchCoherent(mode: StalePageMode, chained: bool, s: State, pc: nat, translated: nat)
    requires Coherent(s)
    ensures Coherent(Apply(mode, chained, s, Fetch(pc, translated)))
  {
    hide FindBlock, KeepBlock, Insert;
    FetchChainOk(chained, s, pc, translated);
    FetchBlocksOk(chained, s, pc, translated);
  }

  lemma {:induction false} ReturnCoherent(mode: StalePageMode, chained: bool, s: State, tlbInvalidate: bool,
      codeFlush: bool)
    requires Coherent(s)
    ensures Coherent(Apply(mode, chained, s, Return(tlbInvalidate, codeFlush)))
  {}

  lemma {:induction false} RestoreCoherent(mode: StalePageMode, chained: bool, s: State)
    requires Coherent(s)
    ensures Coherent(Apply(mode, chained, s, Restore))
  {}

  /** Every step of the loop and of its environment keeps the caches coherent. */
  lemma {:induction false} ApplyCoherent(mode: StalePageMode, chained: bool, s: State, a: Action)
    requires Coherent(s)
    ensures Coherent(Apply(mode, chained, s, a))
  {
    hide Apply, BlocksOk, ChainOk, PhaseOk;
    match a
    case Report(page) => ReportCoherent(mode, chained, s, page);
    case Drain => DrainStepCoherent(mode, chained, s);
    case Fetch(pc, translated) => FetchCoherent(mode, chained, s, pc, translated);
    case Return(tlbInvalidate, codeFlush) => ReturnCoherent(mode, chained, s, tlbInvalidate, codeFlush);
    case Restore => RestoreCoherent(mode, chained, s);
  }

  lemma {:induction false} RunCoherent(mode: StalePageMode, chained: bool, s: State, actions: seq<Action>)
    requires Coherent(s)
    ensures Coherent(Run(mode, chained, s, actions))
    decreases actions
  {
    if actions != [] {
      ApplyCoherent(mode, chained, s, actions[0]);
      RunCoherent(mode, chained, Apply(mode, chained, s, actions[0]), actions[1..]);
    }
  }

  /** No translation that either cache leads to was made before its page was last reported. */
  ghost predicate NoneStale(s: State) {
    && (forall p, o :: p in s.blocks && o in s.blocks[p] ==> !Stale(s, s.blocks[p][o]))
    && forall i :: 0 <= i < |s.chain| && s.chain[i].key != 1 ==>
         s.chain[i].value.Some? && !Stale(s, s.chain[i].value.value)
  }

  /** In every run, chain entries lead to held translations, and stale ones are only there while reports
      are pending. */
  lemma {:induction false} RunSafe(mode: StalePageMode, chained: bool, n: nat, actions: seq<Action>)
    requires n > 0
    ensures var s := Run(mode, chained, Start(n), actions); ChainOk(s) && (s.pending == [] ==> NoneStale(s))
  {
    RunCoherent(mode, chained, Start(n), actions);
  }

  /** The program counter and the physical address with which a region was entered. */
  datatype Entrance = Entrance(pc: nat, translated: nat)

  /** The entrance of the current region after action `a`: fetching from another page enters a region, and
      restoring a snapshot leaves it. */
  function EntranceAfter(s: State, a: Action, e: Option<Entrance>): Option<Entrance> {
    if a.Restore? then None
    else if a.Fetch? && s.phase.Fetching? && !(e.Some? && e.value.pc / 4096 == a.pc / 4096) then
      Some(Entrance(a.pc, a.translated))
    else e
  }

  function LastEntrance(mode: StalePageMode, chained: bool, s: State, actions: seq<Action>, e: Option<Entrance>):
      Option<Entrance>
    requires s.chain != []
    decreases actions
  {
    if actions == [] then e
    else LastEntrance(mode, chained, Apply(mode, chained, s, actions[0]), actions[1..], EntranceAfter(s, actions[0], e))
  }

  /** The bases are the pages of the entrance, and the running block is at an offset of that page. */
  ghost predicate RegionIs(s: State, e: Option<Entrance>) {
    match e
    case None => s.virtBase % 4096 != 0 && !s.phase.Executing?
    case Some(Entrance(pc, translated)) =>
      && s.virtBase % 4096 == 0 && s.virtBase <= pc < s.virtBase + 4096
      && s.physBase % 4096 == 0 && s.physBase <= translated < s.physBase + 4096
      && (s.phase.Executing? ==> s.phase.block.page == s.physBase)
  }

  lemma {:induction false} ApplyRegion(mode: StalePageMode, chained: bool, s: State, a: Action, e: Option<Entrance>)
    requires Coherent(s) && RegionIs(s, e)
    ensures RegionIs(Apply(mode, chained, s, a), EntranceAfter(s, a, e))
  {
    if a.Fetch? && s.phase.Fetching? {
      PageIs(a.pc, s.virtBase);
      PageIs(a.translated, s.physBase);
      FetchCoherent(mode, chained, s, a.pc, a.translated);
      if e.Some? {
        SamePage(e.value.pc, a.pc, s.virtBase);
      }
      hide PageOf, FindBlock, KeepBlock, Insert;
    }
  }

  lemma {:induction false} SamePage(x: nat, y: nat, base: nat)
    requires base % 4096 == 0 && base <= x < base + 4096
    ensures x / 4096 == y / 4096 <==> base <= y < base + 4096
  {}

  lemma {:induction false} RunRegionFrom(mode: StalePageMode, chained: bool, s: State, actions: seq<Action>,
      e: Option<Entrance>)
    requires Coherent(s) && RegionIs(s, e)
    ensures RegionIs(Run(mode, chained, s, actions), LastEntrance(mode, chained, s, actions, e))
    decreases actions
  {
    hide RegionIs, Coherent, Apply, EntranceAfter;
    if actions != [] {
      NotEmpty(s);
      ApplyRegion(mode, chained, s, actions[0], e);
      ApplyCoherent(mode, chained, s, actions[0]);
      RunRegionFrom(mode, chained, Apply(mode, chained, s, actions[0]), actions[1..], EntranceAfter(s, actions[0], e));
    }
  }

  lemma {:induction false} NotEmpty(s: State)
    requires Coherent(s)
    ensures s.chain != []
  {}

  /** In every run the block that is running lies on the page of the physical address that its region was
      entered with, and the program counter it was entered with is in the region. */
  lemma {:induction false} RunRegion(mode: StalePageMode, chained: bool, n: nat, actions: seq<Action>)
    requires n > 0
    ensures RegionIs(Run(mode, chained, Start(n), actions), LastEntrance(mode, chained, Start(n), actions, None))
  {
    RunRegionFrom(mode, chained, Start(n), actions, None);
  }

  /** Where stale pages are tracked, draining them leaves no stale translation; a targeted flush keeps those of
      every page that was not reported. */
  lemma {:induction false} DrainLeavesNoneStale(mode: StalePageMode, s: State)
    requires Coherent(s) && !mode.NoTracking?
    ensures NoneStale(DrainPages(mode, s))
    ensures !mode.SoftwareFullFlush? ==> forall p :: p in s.blocks && p !in s.pending ==>
              p in DrainPages(mode, s).blocks && DrainPages(mode, s).blocks[p] == s.blocks[p]
  {
    DrainCoherent(mode, s);
    assert DrainPages(mode, s).pending == [];
  }

  /** What a step means for the chain cache: a block found is remembered, everything is forgotten when
      stale pages are drained and when the block that ran changed address translation or code. */
  function ChainOps(mode: StalePageMode, chained: bool, s: State, a: Action): seq<Op<Option<Translation>>>
    requires s.chain != []
  {
    if a.Drain? && s.phase.Draining? && !mode.NoTracking? && s.pending != [] then [Filled(SENTINEL)]
    else if a.Return? && s.phase.Executing? && (a.tlbInvalidate || a.codeFlush) then [Filled(SENTINEL)]
    else if a.Fetch? && s.phase.Fetching? && chained then
      [Inserted(a.pc, Some(FetchBlock(chained, s, a.pc, a.translated).phase.block))]
    else []
  }

  function ChainHistory(mode: StalePageMode, chained: bool, s: State,
      actions: seq<Action>): seq<Op<Option<Translation>>>
    requires s.chain != []
    decreases actions
  {
    if actions == [] then []
    else
      ChainOps(mode, chained, s, actions[0]) +
      ChainHistory(mode, chained, Apply(mode, chained, s, actions[0]), actions[1..])
  }

  lemma {:induction false} ApplyChain(mode: StalePageMode, chained: bool, s: State, a: Action)
    requires s.chain != []
    ensures Apply(mode, chained, s, a).chain == Replay(s.chain, ChainOps(mode, chained, s, a))
    ensures forall op <- ChainOps(mode, chained, s, a) :: op.Filled? ==> op.key == SENTINEL
  {
    hide Index, FindBlock, KeepBlock, ClearPages;
    var ops := ChainOps(mode, chained, s, a);
    if ops != [] {
      assert ops[..0] == [];
      assert Replay(s.chain, ops[..0]) == s.chain;
    }
  }

  lemma {:induction false} RunChain(mode: StalePageMode, chained: bool, s: State, actions: seq<Action>)
    requires s.chain != []
    ensures Run(mode, chained, s, actions).chain == Replay(s.chain, ChainHistory(mode, chained, s, actions))
    ensures forall op <- ChainHistory(mode, chained, s, actions) :: op.Filled? ==> op.key == SENTINEL
    decreases actions
  {
    if actions != [] {
      var s' := Apply(mode, chained, s, actions[0]);
      ApplyChain(mode, chained, s, actions[0]);
      RunChain(mode, chained, s', actions[1..]);
      ReplayAppend(s.chain, ChainOps(mode, chained, s, actions[0]), ChainHistory(mode, chained, s', actions[1..]));
    }
  }

  /** In every run, looking up a program counter gives the block found for it last since everything was
      last forgotten, unless another has taken its slot. */
  lemma {:induction false} RunLookup(mode: StalePageMode, chained: bool, n: nat, actions: seq<Action>, pc: nat)
    requires n > 0 && pc != 1
    ensures var history := ChainHistory(mode, chained, Start(n), actions);
            && (LastIn(n, history, Index(n, pc)) == Some(pc) ==> pc in Latest(history))
            && Get(Run(mode, chained, Start(n), actions).chain, pc) ==
               if LastIn(n, history, Index(n, pc)) == Some(pc) then Some(Latest(history)[pc]) else None
  {
    var s := Start(n);
    RunChain(mode, chained, s, actions);
    GetIsLatest(s.chain, ChainHistory(mode, chained, s, actions), pc);
  }
}
