/** The state the allocator and the page tables share: one flat memory of 64-bit words, the head of
    the free list, the page of the root table, and the bookkeeping that says what each page is for.
    The functions give the effect of each kernel routine on that state. */
module KernelState {
  import opened Bits
  import opened ArchMm

  /** A table is named by its level and the part of the page number that selects it. */
  datatype Key = Key(lvl: nat, k: nat)

  /** What a managed page is used for; a page has one use at a time. */
  datatype Owner = Free | Held | Table(key: Key)

  datatype State = State(
    mem: seq<u64>,
    head: u64,                // g_alloc_mem.freelist
    root: nat,                // page of g_kvm.ptbl, 0 while there is none
    free: seq<nat>,           // the free pages, next to be handed out first
    owner: map<nat, Owner>,   // every managed page
    tables: map<Key, nat>)    // the tables of the tree under `root`

  const PPN_LIMIT: nat := 0x1000_0000_0000
  const MAX_VPN: nat := 0x400_0000
  const ALLOC_FILL: u64 := 0xeeee_eeee_eeee_eeee
  const FREE_FILL: u64 := 0xbbbb_bbbb_bbbb_bbbb

  // ---------- memory ----------

  function At(m: seq<u64>, k: nat): u64 {
    if k < |m| then m[k] else 0
  }

  function Put(m: seq<u64>, k: nat, w: u64): (r: seq<u64>)
    ensures |r| == |m|
  {
    if k < |m| then m[k := w] else m
  }

  function Entry(m: seq<u64>, page: nat, i: nat): u64 {
    At(m, page * 512 + i)
  }

  function FillPage(m: seq<u64>, page: nat, w: u64): (r: seq<u64>)
    ensures |r| == |m|
    ensures forall k :: 0 <= k < |m| ==> r[k] == if page * 512 <= k < page * 512 + 512 then w else m[k]
  {
    seq(|m|, k requires 0 <= k < |m| => if page * 512 <= k < page * 512 + 512 then w else m[k])
  }

  // ---------- the invariant ----------

  ghost predicate PagesOk(s: State) {
    forall p <- s.owner :: 0 < p < PPN_LIMIT && p * 512 + 512 <= |s.mem|
  }

  /** The address a free page must hold, or the head: that of the page at position `i`. */
  function Link(free: seq<nat>, i: nat): nat {
    if i < |free| then free[i] * 4096 else 0
  }

  ghost predicate LinkOk(s: State, i: nat)
    requires i < |s.free|
  {
    && s.free[i] in s.owner && s.owner[s.free[i]] == Free
    && Entry(s.mem, s.free[i], 0) == Link(s.free, i + 1)
  }

  /** The chain in memory is exactly the stack `free`: acyclic, null-terminated, complete. */
  ghost predicate ChainOk(s: State) {
    && s.head == Link(s.free, 0)
    && (forall i, j :: 0 <= i < j < |s.free| ==> s.free[i] != s.free[j])
    && (forall i :: 0 <= i < |s.free| ==> LinkOk(s, i))
    && (forall p <- s.owner :: s.owner[p] == Free ==> p in s.free)
  }

  function Child(key: Key, j: nat): Key
    requires key.lvl > 0
  {
    Key(key.lvl - 1, key.k * 512 + j)
  }

  ghost predicate TableOk(s: State, key: Key)
    requires key in s.tables
  {
    && s.tables[key] in s.owner && s.owner[s.tables[key]] == Table(key)
    && key.lvl <= 2
    && (key.lvl == 2 ==> key.k == 0)
    && (key.lvl < 2 ==> Key(key.lvl + 1, key.k / 512) in s.tables)
  }

  /** Tables have three levels, hang under a parent, and no two share a page. */
  ghost predicate TablesOk(s: State) {
    && (forall key {:trigger TableOk(s, key)} :: key in s.tables ==> TableOk(s, key))
    && (forall p <- s.owner :: s.owner[p].Table? ==> s.owner[p].key in s.tables && s.tables[s.owner[p].key] == p)
    && (Key(2, 0) in s.tables <==> s.root != 0)
    && (s.root != 0 ==> s.tables[Key(2, 0)] == s.root)
  }

  /** An upper-level entry is valid exactly when the table it selects exists; it is then the bare
      pointer to that table, with none of R, W and X. */
  ghost predicate EntryOk(s: State, key: Key, j: nat)
    requires key in s.tables && key.lvl > 0
  {
    var w := Entry(s.mem, s.tables[key], j);
    if Child(key, j) in s.tables then w == s.tables[Child(key, j)] * 1024 + 1 else w % 2 == 0
  }

  ghost predicate EntriesOk(s: State) {
    && (forall key, j :: key in s.tables && key.lvl > 0 && 0 <= j < 512 ==> EntryOk(s, key, j))
    && (s.root != 0 ==> forall j :: 256 <= j < 512 ==> Entry(s.mem, s.root, j) == 0)
  }

  ghost predicate WF(s: State) {
    PagesOk(s) && ChainOk(s) && TablesOk(s) && EntriesOk(s)
  }

  // ---------- reading the tables ----------

  /** The index of page number `x` in a table of level `lvl`. */
  function Index(lvl: nat, x: nat): nat {
    if lvl == 0 then x % 512 else if lvl == 1 then x / 512 % 512 else x / 512 / 512 % 512
  }

  /** The table of level `lvl` on the path to page number `x`. */
  function PathKey(lvl: nat, x: nat): Key {
    Key(lvl, if lvl == 0 then x / 512 else if lvl == 1 then x / 512 / 512 else 0)
  }

  /** The word that would hold the leaf of page number `x`: its place, if its tables exist, and value. */
  predicate HasSlot(s: State, x: nat) {
    PathKey(0, x) in s.tables
  }

  function Slot(s: State, x: nat): nat
    requires HasSlot(s, x)
  {
    s.tables[PathKey(0, x)] * 512 + Index(0, x)
  }

  function Leaf(s: State, x: nat): u64 {
    if HasSlot(s, x) then At(s.mem, Slot(s, x)) else 0
  }

  predicate Present(s: State, x: nat) {
    Leaf(s, x) % 2 == 1
  }

  // ---------- the routines ----------

  /** A stack without its `n` topmost pages. */
  function Rest(free: seq<nat>, n: nat): seq<nat>
    requires n <= |free|
  {
    if n == 0 then free else free[n..]
  }

  /** `pz_alloc_pnew`: pops the chain; the page handed out, or 0. */
  function PNew(s: State): (State, nat) {
    if s.free == [] then (s, 0)
    else
      var p := s.free[0];
      (s.(mem := FillPage(s.mem, p, ALLOC_FILL), head := At(s.mem, p * 512), free := s.free[1..],
          owner := s.owner[p := Held]), p)
  }

  /** `pz_alloc_pfree`. */
  function PFree(s: State, p: nat): State
    requires p < PPN_LIMIT
  {
    s.(mem := Put(FillPage(s.mem, p, FREE_FILL), p * 512, s.head), head := p * 4096,
       free := [p] + s.free, owner := s.owner[p := Free])
  }

  /** The loop of `free_range`, on the pages from `lo` to `hi`. */
  function FreeAll(s: State, lo: nat, hi: nat): State
    requires hi <= lo || hi <= PPN_LIMIT
    decreases hi
  {
    if hi <= lo then s else PFree(FreeAll(s, lo, hi - 1), hi - 1)
  }

  /** The entry that points to the table in page `p`. */
  function Pointer(p: nat): u64 {
    if p < PPN_LIMIT then p * 1024 + 1 else 1
  }

  /** A zeroed page that the kernel holds becomes the table `key`, referenced from `slot`. */
  function LinkTable(s: State, slot: nat, p: nat, key: Key): State {
    s.(mem := Put(s.mem, slot, Pointer(p)), owner := s.owner[p := Table(key)], tables := s.tables[key := p])
  }

  /** The first free page is taken, cleared and linked as the table `key` from `slot`. */
  function NewTable(s: State, slot: nat, key: Key): State
    requires s.free != []
  {
    var (s1, p) := PNew(s);
    LinkTable(s1.(mem := FillPage(s1.mem, p, 0)), slot, p, key)
  }

  /** One turn of `walk`, at the table of level `lvl` in page `t`: the page of the next table, or 0. */
  function Visit(s: State, x: nat, lvl: nat, t: nat, alloc: bool): (State, nat)
    requires lvl > 0
  {
    var w := Entry(s.mem, t, Index(lvl, x));
    if w % 2 == 1 then (s, w / 1024)
    else if !alloc || s.free == [] then (s, 0)
    else (NewTable(s, t * 512 + Index(lvl, x), PathKey(lvl - 1, x)), s.free[0])
  }

  /** What `walk` found: the page of the level-0 table, or that there is none. */
  datatype Found = Missing | Page(page: nat)

  /** The loop of `walk`, from the table of level `lvl` in page `t` down. */
  function WalkFrom(s: State, x: nat, lvl: nat, t: nat, alloc: bool): (State, Found)
    decreases lvl
  {
    if lvl == 0 then (s, Page(t))
    else
      var (s1, t1) := Visit(s, x, lvl, t, alloc);
      if t1 == 0 then (s1, Missing) else WalkFrom(s1, x, lvl - 1, t1, alloc)
  }

  /** `walk` for page number `x`. */
  function WalkState(s: State, x: nat, alloc: bool): (State, Found) {
    WalkFrom(s, x, 2, s.root, alloc)
  }

  datatype MapEnd = Done | NoMemory | Panic

  /** One turn of `map`, below the limit: page number `x` gets the entry `leaf`. */
  function MapPage(s: State, x: nat, leaf: u64): (State, MapEnd) {
    var (s1, found) := WalkState(s, x, true);
    if found.Missing? then (s1, NoMemory)
    else
      var slot := found.page * 512 + Index(0, x);
      if At(s1.mem, slot) % 2 == 1 then (s1, Panic)
      else (s1.(mem := Put(s1.mem, slot, leaf)), Done)
  }

  /** The address that `map` has reached at page number `x`, when `first` goes to `pa`. */
  function AddressAt(first: nat, pa: u64, x: nat): u64 {
    Wrap(pa + (x - first) * 4096)
  }

  /** The turns of a call of `map`. */
  function MapTurn(first: nat, pa: u64, perm: u64): (State, nat) -> (State, MapEnd) {
    (s: State, x: nat) => MapPage(s, x, LeafPte(AddressAt(first, pa, x), perm))
  }

  /** The loop of `map` over such turns, from page number `x` to `last`: the state it leaves, the page
      number it got to, and how it ended. */
  function MapLoop(turn: (State, nat) -> (State, MapEnd), s: State, x: nat, last: nat): (State, nat, MapEnd)
    decreases if x < MAX_VPN then MAX_VPN - x else 0
  {
    if x >= MAX_VPN then (s, x, Panic)
    else
      var (s1, end) := turn(s, x);
      if !end.Done? then (s1, x, end) else if x == last then (s1, x + 1, Done) else MapLoop(turn, s1, x + 1, last)
  }

  /** `map` of the page numbers from `first` to `last`. */
  function MapState(s: State, first: nat, last: nat, pa: u64, perm: u64): (State, nat, MapEnd) {
    MapLoop(MapTurn(first, pa, perm), s, first, last)
  }
}
