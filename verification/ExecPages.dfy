/** Executable regions as the header states them: pages of an address space that are written,
    published, sealed and made a file's, over any sequence of calls. Where the header leaves
    an outcome to the environment, the call carries the environment's choice. */
module ExecPages {
  import opened Sums

  type Byte = b: int | 0 <= b < 256

  datatype Error = Invalid | Permission | NotSupported | NoMemory | Other

  datatype Outcome = Ok | Refused(e: Error)

  /** What the environment decides of one call: whether it grants it, and the error it gives
      where the header names none. */
  datatype Env = Env(grants: bool, error: Error)

  /** `base` is the first page of the region the page belongs to; `file` says the page is a
      file's, `forever` that it was sealed for the life of the program. */
  datatype Page = Page(base: nat, writable: bool, executable: bool, published: bool,
                       file: bool, forever: bool, own: bool, bytes: seq<Byte>)

  /** `gran` is kal_exec_granularity; `memoryPages` is kal_memory_granularity in pages; the
      others are positions of kal_exec_props. */
  datatype Props = Props(gran: nat, memoryPages: nat, available: bool, republish: bool,
                         fileParts: bool, place: bool, sealForever: bool)

  /** An address, an offset or a size: `pages` times the granularity and `rest` bytes. */
  datatype Extent = Extent(pages: nat, rest: nat)

  /** Pages by page number, and the page count of each region by its first page. */
  datatype Space = Space(pages: map<nat, Page>, regions: map<nat, nat>)

  /** A file to map: whether it was opened to read, whether its volume can be mapped. */
  datatype File = File(readable: bool, mappable: bool, bytes: seq<Byte>)

  /** The positions of `how`, and whether a position not assigned is set. */
  datatype How = How(execute: bool, prefetch: bool, bti: bool, write: bool, unassigned: bool)

  /** The position of a seal's flags, and whether one not assigned is set. */
  datatype SealFlags = SealFlags(forever: bool, unassigned: bool)

  const MAP_ALIGNMENT: nat := 65536

  /** `place` in `Alloc` is the page the environment would put the region at; `keepExecute` in
      `SealPart` is whether a file's executed part stays so, which the header leaves open. `Reopen`
      is the environment letting a published part be written, to be published again; `FileChanges`
      is a change of a mapped file that shows in a page, as it may or may not. */
  datatype Call =
    | Alloc(size: Extent, place: nat, env: Env)
    | AllocAt(at: Extent, size: Extent, env: Env)
    | PublishPart(region: nat, offset: Extent, size: Extent, env: Env)
    | SealPart(region: nat, offset: Extent, size: Extent, flags: SealFlags, keepExecute: bool, env: Env)
    | MapPart(region: nat, offset: Extent, size: Extent, file: File, fileAt: nat, how: How, env: Env)
    | Reopen(region: nat, offset: Extent, size: Extent, env: Env)
    | Free(region: nat)
    | Store(at: Extent, value: Byte)
    | FileChanges(page: nat, bytes: seq<Byte>)

  /** The calls that are of part of a region. */
  predicate OnPart(c: Call) {
    c.PublishPart? || c.SealPart? || c.MapPart? || c.Reopen?
  }

  // ----- Pages and parts

  function PageNumbers(at: nat, n: nat): (r: set<nat>)
    ensures forall p: nat :: p in r <==> at <= p < at + n
  {
    if n == 0 then {} else PageNumbers(at, n - 1) + {at + n - 1}
  }

  predicate Unreserved(s: Space, at: nat, n: nat) {
    PageNumbers(at, n) !! s.pages.Keys
  }

  function FreshPage(props: Props, base: nat): Page {
    Page(base, true, false, false, false, false, true, seq(props.gran, _ => 0))
  }

  function PagesFor(size: Extent): nat {
    size.pages + (if size.rest == 0 then 0 else 1)
  }

  /** The part lies in a region that is reserved. */
  predicate IsPart(s: Space, region: nat, offset: Extent, size: Extent) {
    region in s.regions && offset.pages + size.pages <= s.regions[region]
  }

  predicate InPart(c: Call, p: nat)
    requires OnPart(c)
  {
    c.region + c.offset.pages <= p < c.region + c.offset.pages + c.size.pages
  }

  /** Whether some page of the part is as `which` says. */
  predicate Any(s: Space, c: Call, which: Page -> bool)
    requires OnPart(c)
  {
    exists p :: p in s.pages && InPart(c, p) && which(s.pages[p])
  }

  predicate Aligned(c: Call)
    requires OnPart(c)
  {
    c.offset.rest == 0 && c.size.rest == 0
  }

  // ----- What each call answers

  function OutcomeOf(s: Space, props: Props, c: Call): Outcome {
    match c
    case Alloc(size, place, env) =>
      if props.available && env.grants && PagesFor(size) > 0 && place !in s.regions
         && Unreserved(s, place, PagesFor(size)) then Ok
      else Refused(NoMemory)
    case AllocAt(at, size, env) =>
      if props.available && props.place && at.rest == 0 && props.memoryPages > 0
         && at.pages % props.memoryPages == 0 && PagesFor(size) > 0
         && env.grants && at.pages !in s.regions && Unreserved(s, at.pages, PagesFor(size)) then Ok
      else Refused(NoMemory)
    case PublishPart(region, offset, size, env) =>
      if !Aligned(c) then Refused(Invalid)
      else if Any(s, c, (g: Page) => g.forever) then Refused(Permission)
      else if !IsPart(s, region, offset, size) || Any(s, c, (g: Page) => g.file)
           || (!props.republish && Any(s, c, (g: Page) => g.published)) || !env.grants
      then Refused(env.error)
      else Ok
    case SealPart(region, offset, size, flags, _, env) =>
      if !Aligned(c) || flags.unassigned then Refused(Invalid)
      else if Any(s, c, (g: Page) => g.forever) then Refused(Permission)
      else if !IsPart(s, region, offset, size) || !env.grants then Refused(env.error)
      else Ok
    case MapPart(region, offset, size, file, fileAt, how, env) =>
      if !props.fileParts then Refused(NotSupported)
      else if !Aligned(c) || fileAt % MAP_ALIGNMENT != 0 || size.pages == 0
           || fileAt + size.pages * props.gran > |file.bytes|
           || how.unassigned || (how.write && how.execute)
      then Refused(Invalid)
      else if !file.readable then Refused(Permission)
      else if !file.mappable then Refused(NotSupported)
      else if !IsPart(s, region, offset, size) || Any(s, c, (g: Page) => g.forever || g.file) || !env.grants
      then Refused(env.error)
      else Ok
    case Reopen(region, offset, size, env) =>
      if props.republish && Aligned(c) && IsPart(s, region, offset, size) && env.grants
         && !Any(s, c, (g: Page) => g.forever || g.file || !g.published) then Ok
      else Refused(env.error)
    case Free(region) => if region in s.regions then Ok else Refused(Invalid)
    case Store(at, _) =>
      if at.pages in s.pages && at.rest < |s.pages[at.pages].bytes| && s.pages[at.pages].writable then Ok
      else Refused(Other)
    case FileChanges(page, bytes) =>
      if page in s.pages && !s.pages[page].own && |bytes| == props.gran then Ok else Refused(Other)
  }

  // ----- What a call granted does

  function Reserved(s: Space, props: Props, at: nat, n: nat): Space {
    s.(pages := s.pages + map p | p in PageNumbers(at, n) :: FreshPage(props, at),
       regions := s.regions[at := n])
  }

  function Published(g: Page): Page {
    g.(writable := false, executable := true, published := true)
  }

  function Sealed(g: Page, forever: bool, keepExecute: bool): Page {
    g.(writable := false, executable := g.file && g.executable && keepExecute, forever := forever)
  }

  /** A page that may be written again until it is published again. */
  function Reopened(g: Page): Page {
    g.(writable := true, executable := false, published := false)
  }

  /** A page made the file's bytes that begin at `from`. */
  function Mapped(g: Page, gran: nat, file: File, from: nat, how: How): Page {
    g.(writable := how.write, executable := how.execute, published := false, file := true, own := false,
       bytes := if from + gran <= |file.bytes| then file.bytes[from..from + gran] else g.bytes)
  }

  /** A page of the part, after the call. */
  function Changed(props: Props, c: Call, p: nat, g: Page): Page
    requires OnPart(c) && InPart(c, p)
  {
    if c.PublishPart? then Published(g)
    else if c.Reopen? then Reopened(g)
    else if c.SealPart? then Sealed(g, c.flags.forever && props.sealForever, c.keepExecute)
    else Mapped(g, props.gran, c.file, c.fileAt + (p - c.region - c.offset.pages) * props.gran, c.how)
  }

  function PartChanged(s: Space, props: Props, c: Call): Space
    requires OnPart(c)
  {
    s.(pages := map p | p in s.pages :: if InPart(c, p) then Changed(props, c, p, s.pages[p]) else s.pages[p])
  }

  predicate KeepsForever(s: Space, region: nat) {
    exists p :: p in s.pages && s.pages[p].base == region && s.pages[p].forever
  }

  /** A region with a part sealed for ever is not released. */
  function Freed(s: Space, region: nat): Space {
    if KeepsForever(s, region) then s
    else Space(map p | p in s.pages && s.pages[p].base != region :: s.pages[p], s.regions - {region})
  }

  function Stored(s: Space, at: Extent, value: Byte): Space
    requires at.pages in s.pages && at.rest < |s.pages[at.pages].bytes|
  {
    var g := s.pages[at.pages];
    s.(pages := s.pages[at.pages := g.(own := true, bytes := g.bytes[at.rest := value])])
  }

  function Effect(s: Space, props: Props, c: Call): Space
    requires OutcomeOf(s, props, c).Ok?
  {
    match c
    case Alloc(size, place, _) => Reserved(s, props, place, PagesFor(size))
    case AllocAt(at, size, _) => Reserved(s, props, at.pages, PagesFor(size))
    case Free(region) => Freed(s, region)
    case Store(at, value) => Stored(s, at, value)
    case FileChanges(page, bytes) => s.(pages := s.pages[page := s.pages[page].(bytes := bytes)])
    case _ => PartChanged(s, props, c)
  }

  function Do(s: Space, props: Props, c: Call): Space {
    if OutcomeOf(s, props, c).Ok? then Effect(s, props, c) else s
  }

  function After(s: Space, props: Props, calls: seq<Call>): Space
    decreases |calls|
  {
    if |calls| == 0 then s else After(Do(s, props, calls[0]), props, calls[1..])
  }

  // ----- What every call keeps

  ghost predicate PageValid(props: Props, g: Page) {
    && !(g.writable && g.executable)
    && |g.bytes| == props.gran
    && (g.published ==> !g.writable)
    && (g.forever ==> !g.writable)
    && (!g.own ==> g.file)
  }

  /** The page lies in the region it belongs to. */
  ghost predicate AtHome(s: Space, p: nat)
    requires p in s.pages
  {
    var b := s.pages[p].base;
    b in s.regions && b <= p < b + s.regions[b]
  }

  ghost predicate BelongsTo(s: Space, p: nat, b: nat) {
    p in s.pages && s.pages[p].base == b
  }

  /** Every page is one of its region's, and every region's pages are all there. */
  ghost predicate Partition(s: Space) {
    && (forall p :: p in s.pages ==> AtHome(s, p))
    && (forall b, p: nat :: b in s.regions && b <= p < b + s.regions[b] ==> BelongsTo(s, p, b))
  }

  ghost predicate Valid(s: Space, props: Props) {
    && (forall p :: p in s.pages ==> PageValid(props, s.pages[p]))
    && Partition(s)
  }

  const EMPTY := Space(map[], map[])

  /** Same regions, same pages, each in the region it was in. */
  ghost predicate SameShape(s: Space, s': Space) {
    && s'.regions == s.regions && s'.pages.Keys == s.pages.Keys
    && forall p :: p in s.pages ==> s'.pages[p].base == s.pages[p].base
  }

  lemma ShapeKeepsPartition(s: Space, s': Space)
    requires Partition(s) && SameShape(s, s')
    ensures Partition(s')
  {
    forall p | p in s'.pages ensures AtHome(s', p) {
      assert AtHome(s, p);
    }
    forall b, p: nat | b in s'.regions && b <= p < b + s'.regions[b] ensures BelongsTo(s', p, b) {
      assert BelongsTo(s, p, b);
    }
  }

  lemma MappedIsValid(props: Props, g: Page, file: File, from: nat, how: How)
    requires PageValid(props, g) && !(how.write && how.execute) && !g.forever
    ensures PageValid(props, Mapped(g, props.gran, file, from, how))
  {}

  lemma ChangedIsValid(props: Props, c: Call, p: nat, g: Page)
    requires OnPart(c) && InPart(c, p)
    requires PageValid(props, g)
    requires c.MapPart? ==> !(c.how.write && c.how.execute) && !g.forever
    requires c.Reopen? ==> !g.forever
    ensures PageValid(props, Changed(props, c, p, g)) && Changed(props, c, p, g).base == g.base
  {
    if c.MapPart? {
      MappedIsValid(props, g, c.file, c.fileAt + (p - c.region - c.offset.pages) * props.gran, c.how);
    }
  }

  lemma PartKeepsValid(s: Space, props: Props, c: Call)
    requires Valid(s, props) && OnPart(c)
    requires c.MapPart? ==> !(c.how.write && c.how.execute) && !Any(s, c, (g: Page) => g.forever || g.file)
    requires c.Reopen? ==> !Any(s, c, (g: Page) => g.forever || g.file || !g.published)
    ensures Valid(PartChanged(s, props, c), props)
  {
    var s' := PartChanged(s, props, c);
    forall p | p in s.pages
      ensures PageValid(props, s'.pages[p]) && s'.pages[p].base == s.pages[p].base
    {
      if InPart(c, p) {
        ChangedIsValid(props, c, p, s.pages[p]);
      }
    }
    ShapeKeepsPartition(s, s');
  }

  lemma StoreKeepsValid(s: Space, props: Props, at: Extent, value: Byte)
    requires Valid(s, props) && at.pages in s.pages && at.rest < |s.pages[at.pages].bytes|
    ensures Valid(Stored(s, at, value), props)
  {
    var s' := Stored(s, at, value);
    forall p | p in s.pages
      ensures PageValid(props, s'.pages[p]) && s'.pages[p].base == s.pages[p].base
    {
      assert p != at.pages ==> s'.pages[p] == s.pages[p];
    }
    ShapeKeepsPartition(s, s');
  }

  lemma FileChangeKeepsValid(s: Space, props: Props, page: nat, bytes: seq<Byte>)
    requires Valid(s, props) && page in s.pages && |bytes| == props.gran
    ensures Valid(s.(pages := s.pages[page := s.pages[page].(bytes := bytes)]), props)
  {
    var s' := s.(pages := s.pages[page := s.pages[page].(bytes := bytes)]);
    forall p | p in s.pages
      ensures PageValid(props, s'.pages[p]) && s'.pages[p].base == s.pages[p].base
    {
      assert p != page ==> s'.pages[p] == s.pages[p];
    }
    ShapeKeepsPartition(s, s');
  }

  lemma ReservedPages(s: Space, props: Props, at: nat, n: nat, p: nat)
    ensures p in Reserved(s, props, at, n).pages <==> p in s.pages || at <= p < at + n
    ensures p in Reserved(s, props, at, n).pages ==>
              Reserved(s, props, at, n).pages[p] == if at <= p < at + n then FreshPage(props, at) else s.pages[p]
  {}

  lemma ReservedPageIsValid(s: Space, props: Props, at: nat, n: nat, p: nat)
    requires Valid(s, props) && Unreserved(s, at, n) && at !in s.regions
    requires p in Reserved(s, props, at, n).pages
    ensures PageValid(props, Reserved(s, props, at, n).pages[p]) && AtHome(Reserved(s, props, at, n), p)
  {
    ReservedPages(s, props, at, n, p);
    if !(at <= p < at + n) {
      assert AtHome(s, p);
    }
  }

  lemma ReservedRegionIsThere(s: Space, props: Props, at: nat, n: nat, b: nat, p: nat)
    requires Valid(s, props) && Unreserved(s, at, n) && at !in s.regions
    requires var s' := Reserved(s, props, at, n); b in s'.regions && b <= p < b + s'.regions[b]
    ensures BelongsTo(Reserved(s, props, at, n), p, b)
  {
    ReservedPages(s, props, at, n, p);
    if b != at {
      assert BelongsTo(s, p, b);
      NotReserved(s, at, n, p);
    }
  }

  lemma ReserveKeepsValid(s: Space, props: Props, at: nat, n: nat)
    requires Valid(s, props) && Unreserved(s, at, n) && at !in s.regions
    ensures Valid(Reserved(s, props, at, n), props)
  {
    var s' := Reserved(s, props, at, n);
    forall p | p in s'.pages ensures PageValid(props, s'.pages[p]) && AtHome(s', p) {
      ReservedPageIsValid(s, props, at, n, p);
    }
    forall b, p: nat | b in s'.regions && b <= p < b + s'.regions[b] ensures BelongsTo(s', p, b) {
      ReservedRegionIsThere(s, props, at, n, b, p);
    }
  }

  lemma FreeKeepsValid(s: Space, props: Props, region: nat)
    requires Valid(s, props)
    ensures Valid(Freed(s, region), props)
  {
    var s' := Freed(s, region);
    forall p | p in s'.pages ensures AtHome(s', p) {
      assert AtHome(s, p);
    }
    forall b, p: nat | b in s'.regions && b <= p < b + s'.regions[b] ensures BelongsTo(s', p, b) {
      assert BelongsTo(s, p, b);
    }
  }

  lemma CallKeepsValid(s: Space, props: Props, c: Call)
    requires Valid(s, props)
    ensures Valid(Do(s, props, c), props)
  {
    if OutcomeOf(s, props, c).Ok? {
      match c
      case Alloc(size, place, _) => ReserveKeepsValid(s, props, place, PagesFor(size));
      case AllocAt(at, size, _) => ReserveKeepsValid(s, props, at.pages, PagesFor(size));
      case Free(region) => FreeKeepsValid(s, props, region);
      case Store(at, value) => StoreKeepsValid(s, props, at, value);
      case FileChanges(page, bytes) => FileChangeKeepsValid(s, props, page, bytes);
      case _ => PartKeepsValid(s, props, c);
    }
  }

  /** Over every sequence of calls, granted or refused: no page is ever writable and
      executable. */
  lemma {:induction false} NeverBoth(s: Space, props: Props, calls: seq<Call>)
    requires Valid(s, props)
    ensures Valid(After(s, props, calls), props)
    ensures forall p :: p in After(s, props, calls).pages ==>
              !(After(s, props, calls).pages[p].writable && After(s, props, calls).pages[p].executable)
    decreases |calls|
  {
    if |calls| > 0 {
      CallKeepsValid(s, props, calls[0]);
      NeverBoth(Do(s, props, calls[0]), props, calls[1..]);
    }
  }

  /** The same page, with the same bytes where they are the program's own. */
  ghost predicate SamePage(g: Page, g': Page) {
    g' == g.(bytes := g'.bytes) && (g.own ==> g'.bytes == g.bytes)
  }

  /** A page sealed for ever is the same page after any one call. */
  lemma ForeverStep(s: Space, props: Props, c: Call, p: nat)
    requires Valid(s, props) && p in s.pages && s.pages[p].forever
    ensures p in Do(s, props, c).pages && SamePage(s.pages[p], Do(s, props, c).pages[p])
  {
    if OutcomeOf(s, props, c).Ok? {
      match c
      case Alloc(size, place, _) => ReservedPages(s, props, place, PagesFor(size), p);
      case AllocAt(at, size, _) => ReservedPages(s, props, at.pages, PagesFor(size), p);
      case Free(region) =>
      case Store(at, value) =>
      case FileChanges(page, bytes) =>
      case _ => assert !InPart(c, p);
    }
  }

  /** A page sealed for ever keeps its protection and its mapping, and its bytes where they are
      not a file's that changes, and its address is given to nothing else, for the rest of every
      run. */
  lemma {:induction false} SealedForEver(s: Space, props: Props, calls: seq<Call>, p: nat)
    requires Valid(s, props) && p in s.pages && s.pages[p].forever
    ensures p in After(s, props, calls).pages && SamePage(s.pages[p], After(s, props, calls).pages[p])
    decreases |calls|
  {
    if |calls| > 0 {
      CallKeepsValid(s, props, calls[0]);
      ForeverStep(s, props, calls[0], p);
      SealedForEver(Do(s, props, calls[0]), props, calls[1..], p);
    }
  }

  ghost predicate HoldsAfter(s: Space, props: Props, calls: seq<Call>, p: nat, bytes: seq<Byte>) {
    p in After(s, props, calls).pages && After(s, props, calls).pages[p].bytes == bytes
  }

  /** What a page sealed for ever holds stays the same in every run exactly where it is the
      program's own. */
  lemma SealedBytesStayIfOwn(s: Space, props: Props, p: nat)
    requires Valid(s, props) && p in s.pages && s.pages[p].forever && props.gran > 0
    ensures s.pages[p].own <==> forall calls :: HoldsAfter(s, props, calls, p, s.pages[p].bytes)
  {
    var g := s.pages[p];
    if g.own {
      forall calls ensures HoldsAfter(s, props, calls, p, g.bytes) {
        SealedForEver(s, props, calls, p);
      }
    } else {
      var other: Byte := if g.bytes[0] == 0 then 1 else 0;
      var change := FileChanges(p, g.bytes[0 := other]);
      assert After(s, props, [change]) == After(Do(s, props, change), props, []);
      assert After(s, props, [change]).pages[p].bytes[0] == other;
      assert !HoldsAfter(s, props, [change], p, g.bytes);
    }
  }

  /** After any run, a page sealed for ever refuses every call that would change it: publishing
      and sealing with the error the header names. */
  lemma SealedForEverRefuses(s: Space, props: Props, calls: seq<Call>, p: nat, c: Call)
    requires Valid(s, props) && p in s.pages && s.pages[p].forever
    requires OnPart(c) && InPart(c, p)
    ensures OutcomeOf(After(s, props, calls), props, c).Refused?
    ensures !c.MapPart? && !c.Reopen? && Aligned(c) && (c.SealPart? ==> !c.flags.unassigned) ==>
              OutcomeOf(After(s, props, calls), props, c) == Refused(Permission)
  {
    SealedForEver(s, props, calls, p);
    var s' := After(s, props, calls);
    assert p in s'.pages && InPart(c, p) && s'.pages[p].forever;
  }

  /** The call releases page `p` with its region. */
  predicate Releases(s: Space, c: Call, p: nat)
    requires p in s.pages
  {
    c.Free? && c.region == s.pages[p].base && !KeepsForever(s, c.region)
  }

  /** No call of the run releases page `p`. */
  predicate Held(s: Space, props: Props, calls: seq<Call>, p: nat)
    decreases |calls|
  {
    |calls| == 0
    || (p in s.pages && !Releases(s, calls[0], p) && Held(Do(s, props, calls[0]), props, calls[1..], p))
  }

  /** A page made a file's without execution is never executed while its region is held. */
  lemma {:induction false} FileNeverGainsExecution(s: Space, props: Props, calls: seq<Call>, p: nat)
    requires Valid(s, props) && p in s.pages && s.pages[p].file && !s.pages[p].executable
    requires Held(s, props, calls, p)
    ensures var s' := After(s, props, calls); p in s'.pages && s'.pages[p].file && !s'.pages[p].executable
    decreases |calls|
  {
    if |calls| > 0 {
      CallKeepsValid(s, props, calls[0]);
      FileStep(s, props, calls[0], p);
      FileNeverGainsExecution(Do(s, props, calls[0]), props, calls[1..], p);
    }
  }

  lemma FileStep(s: Space, props: Props, c: Call, p: nat)
    requires Valid(s, props) && p in s.pages && s.pages[p].file && !Releases(s, c, p)
    ensures var s' := Do(s, props, c);
      p in s'.pages && s'.pages[p].file && s'.pages[p].base == s.pages[p].base
      && (s'.pages[p].executable ==> s.pages[p].executable)
  {
    if OutcomeOf(s, props, c).Ok? {
      match c
      case Alloc(size, place, _) =>
        NotReserved(s, place, PagesFor(size), p);
        ReservedPages(s, props, place, PagesFor(size), p);
      case AllocAt(at, size, _) =>
        NotReserved(s, at.pages, PagesFor(size), p);
        ReservedPages(s, props, at.pages, PagesFor(size), p);
      case Free(region) =>
      case Store(at, value) =>
      case _ =>
    }
  }

  /** Granted publications of page `p`. */
  function Publications(s: Space, props: Props, calls: seq<Call>, p: nat): nat
    decreases |calls|
  {
    if |calls| == 0 then 0
    else
      (if calls[0].PublishPart? && OutcomeOf(s, props, calls[0]).Ok? && InPart(calls[0], p) then 1 else 0)
      + Publications(Do(s, props, calls[0]), props, calls[1..], p)
  }

  /** Where republishing is not provided, a page is published at most once while its region is
      held, and not at all once it is a file's. */
  lemma {:induction false} PublishedAtMostOnce(s: Space, props: Props, calls: seq<Call>, p: nat)
    requires Valid(s, props) && p in s.pages && !props.republish
    requires Held(s, props, calls, p)
    ensures Publications(s, props, calls, p) <= if s.pages[p].published || s.pages[p].file then 0 else 1
    decreases |calls|
  {
    if |calls| > 0 {
      CallKeepsValid(s, props, calls[0]);
      PublishedStep(s, props, calls[0], p);
      PublishedAtMostOnce(Do(s, props, calls[0]), props, calls[1..], p);
    }
  }

  lemma PublishedStep(s: Space, props: Props, c: Call, p: nat)
    requires Valid(s, props) && p in s.pages && !props.republish && !Releases(s, c, p)
    ensures var s' := Do(s, props, c);
      && p in s'.pages && s'.pages[p].base == s.pages[p].base
      && (s.pages[p].published || s.pages[p].file ==> s'.pages[p].published || s'.pages[p].file)
      && (c.PublishPart? && OutcomeOf(s, props, c).Ok? && InPart(c, p) ==>
            !s.pages[p].published && !s.pages[p].file && s'.pages[p].published)
  {
    if OutcomeOf(s, props, c).Ok? {
      match c
      case Alloc(size, place, _) =>
        NotReserved(s, place, PagesFor(size), p);
        ReservedPages(s, props, place, PagesFor(size), p);
      case AllocAt(at, size, _) =>
        NotReserved(s, at.pages, PagesFor(size), p);
        ReservedPages(s, props, at.pages, PagesFor(size), p);
      case _ =>
    }
  }

  /** Page `p` is one of those a size asks for, from `at` on: a part of a page is a page. */
  predicate AskedFor(at: nat, size: Extent, p: nat) {
    at <= p < at + size.pages || (p == at + size.pages && size.rest > 0)
  }

  /** A granted reservation gives pages nobody held, writable, not executable and zero, and
      leaves every other page alone. */
  lemma ReservationIsFresh(s: Space, props: Props, c: Call, at: nat, p: nat)
    requires Valid(s, props) && (c.Alloc? || c.AllocAt?) && OutcomeOf(s, props, c).Ok?
    requires at == if c.Alloc? then c.place else c.at.pages
    ensures var s' := Do(s, props, c);
      && (AskedFor(at, c.size, p) ==>
            && p !in s.pages && p in s'.pages && s'.pages[p].base == at
            && s'.pages[p].writable && !s'.pages[p].executable
            && forall i :: 0 <= i < props.gran ==> s'.pages[p].bytes[i] == 0)
      && (p in s.pages ==> p in s'.pages && s'.pages[p] == s.pages[p])
      && (p in s'.pages ==> p in s.pages || AskedFor(at, c.size, p))
  {
    var n := PagesFor(c.size);
    assert p in PageNumbers(at, n) <==> at <= p < at + n;
    ReservedPages(s, props, at, n, p);
  }

  /** A byte of a page that may be written is written, and no other, and the page is then the program's
      own; of any other page it is not. */
  lemma StoreIsOfWritable(s: Space, props: Props, at: Extent, value: Byte)
    requires Valid(s, props) && at.pages in s.pages && at.rest < props.gran
    ensures var s' := Do(s, props, Store(at, value)); var g, p := s.pages[at.pages], at.pages;
      && (OutcomeOf(s, props, Store(at, value)) == Ok <==> g.writable)
      && p in s'.pages && s'.pages.Keys == s.pages.Keys
      && s'.pages[p].bytes == (if g.writable then g.bytes[at.rest := value] else g.bytes)
      && s'.pages[p].own == (g.own || g.writable)
      && forall q :: q in s.pages && q != p ==> s'.pages[q] == s.pages[q]
  {}

  // ----- What becomes of the bytes

  /** The call does not release page `p`, and is not granted to make `p` a file's or to let it be
      written again; the last is never granted where republishing is not provided. */
  predicate Leaves(s: Space, props: Props, c: Call, p: nat)
    requires p in s.pages
  {
    && !Releases(s, c, p)
    && !((c.MapPart? || c.Reopen?) && InPart(c, p) && OutcomeOf(s, props, c).Ok?)
  }

  lemma FrozenStep(s: Space, props: Props, c: Call, p: nat)
    requires Valid(s, props) && p in s.pages && !s.pages[p].writable && Leaves(s, props, c, p)
    ensures var s' := Do(s, props, c);
      p in s'.pages && !s'.pages[p].writable && s'.pages[p].base == s.pages[p].base
      && (s.pages[p].own ==> s'.pages[p].own && s'.pages[p].bytes == s.pages[p].bytes)
  {
    if OutcomeOf(s, props, c).Ok? {
      match c
      case Alloc(size, place, _) =>
        NotReserved(s, place, PagesFor(size), p);
        ReservedPages(s, props, place, PagesFor(size), p);
      case AllocAt(at, size, _) =>
        NotReserved(s, at.pages, PagesFor(size), p);
        ReservedPages(s, props, at.pages, PagesFor(size), p);
      case Free(region) =>
      case Store(at, value) =>
      case _ =>
    }
  }

  lemma NotReserved(s: Space, at: nat, n: nat, p: nat)
    requires Unreserved(s, at, n) && p in s.pages
    ensures !(at <= p < at + n)
  {
    assert p in PageNumbers(at, n) <==> at <= p < at + n;
  }

  predicate AllLeave(s: Space, props: Props, calls: seq<Call>, p: nat)
    decreases |calls|
  {
    |calls| == 0
    || (p in s.pages && Leaves(s, props, calls[0], p) && AllLeave(Do(s, props, calls[0]), props, calls[1..], p))
  }

  /** Once published or sealed, a page is never written again, and holds the same bytes where they
      are the program's own, for as long as its region is held and it is neither made a file's
      nor, where republishing is provided, let be written again: what is executed of a page that
      is not a file's is what was published last, in every run. */
  lemma {:induction false} FrozenBytes(s: Space, props: Props, calls: seq<Call>, p: nat)
    requires Valid(s, props) && p in s.pages && !s.pages[p].writable && AllLeave(s, props, calls, p)
    ensures var s' := After(s, props, calls);
      p in s'.pages && !s'.pages[p].writable
      && (s.pages[p].own ==> s'.pages[p].own && s'.pages[p].bytes == s.pages[p].bytes)
    decreases |calls|
  {
    if |calls| > 0 {
      CallKeepsValid(s, props, calls[0]);
      FrozenStep(s, props, calls[0], p);
      FrozenBytes(Do(s, props, calls[0]), props, calls[1..], p);
    }
  }

  /** Where republishing is provided and the environment grants it, a byte of what is published
      may be written, and is executed once published again. */
  lemma RepublishedIsRewritten(s: Space, props: Props, p: nat, at: nat, value: Byte, env: Env)
    requires Valid(s, props) && p in s.pages && at < props.gran
    requires s.pages[p].published && !s.pages[p].file && !s.pages[p].forever
    requires props.republish && env.grants
    ensures var g, part := s.pages[p], Extent(p - s.pages[p].base, 0);
            var calls := [Reopen(g.base, part, Extent(1, 0), env), Store(Extent(p, at), value),
                          PublishPart(g.base, part, Extent(1, 0), env)];
            var s' := After(s, props, calls);
      && p in s'.pages && s'.pages[p] == Published(g.(own := true, bytes := g.bytes[at := value]))
      && forall q :: q in s.pages && q != p ==> q in s'.pages && s'.pages[q] == s.pages[q]
  {
    assert AtHome(s, p);
    var g, part := s.pages[p], Extent(p - s.pages[p].base, 0);
    var r, w, u := Reopen(g.base, part, Extent(1, 0), env), Store(Extent(p, at), value),
                   PublishPart(g.base, part, Extent(1, 0), env);
    OnePage(s, props, r, p);
    var s1 := Do(s, props, r);
    var s2 := Do(s1, props, w);
    OnePage(s2, props, u, p);
    AfterThree(s, props, r, w, u);
  }

  /** What a call does whose part is one page. */
  lemma OnePage(s: Space, props: Props, c: Call, p: nat)
    requires p in s.pages && AtHome(s, p) && props.republish
    requires (c.Reopen? && s.pages[p].published) || c.PublishPart?
    requires c.region == s.pages[p].base && c.offset == Extent(p - c.region, 0) && c.size == Extent(1, 0)
    requires !s.pages[p].file && !s.pages[p].forever && c.env.grants
    ensures OutcomeOf(s, props, c).Ok?
    ensures Do(s, props, c) == s.(pages := s.pages[p := Changed(props, c, p, s.pages[p])])
  {
    assert forall q: nat :: InPart(c, q) <==> q == p;
    assert PartChanged(s, props, c).pages == s.pages[p := Changed(props, c, p, s.pages[p])];
  }

  lemma AfterThree(s: Space, props: Props, a: Call, b: Call, c: Call)
    ensures After(s, props, [a, b, c]) == Do(Do(Do(s, props, a), props, b), props, c)
  {
    var s2 := Do(Do(s, props, a), props, b);
    assert [a, b, c][1..] == [b, c] && [b, c][1..] == [c];
    assert After(s2, props, [c]) == After(Do(s2, props, c), props, []);
  }

  /** A granted publish or seal leaves every byte of the space as it was, and every page
      outside the part altogether. */
  lemma PublishAndSealKeepBytes(s: Space, props: Props, c: Call)
    requires Valid(s, props) && (c.PublishPart? || c.SealPart?)
    ensures var s' := Do(s, props, c);
      && s'.pages.Keys == s.pages.Keys && s'.regions == s.regions
      && (forall p :: p in s.pages ==> s'.pages[p].bytes == s.pages[p].bytes)
      && (forall p :: p in s.pages && !InPart(c, p) ==> s'.pages[p] == s.pages[p])
      && (OutcomeOf(s, props, c).Ok? ==> forall p: nat :: InPart(c, p) ==>
            && p in s'.pages && !s'.pages[p].writable
            && (c.PublishPart? ==> s'.pages[p].executable)
            && (c.SealPart? ==>
                  s'.pages[p].executable == (c.keepExecute && s.pages[p].file && s.pages[p].executable))
            && (c.SealPart? ==> s'.pages[p].forever == (c.flags.forever && props.sealForever)))
  {
    if OutcomeOf(s, props, c).Ok? {
      PartIsReserved(s, props, c);
    }
  }

  /** Page `k` of the part is the file's bytes at that distance from where it begins, with the
      protection asked for. */
  ghost predicate HoldsFilePage(s: Space, props: Props, c: Call, k: nat)
    requires c.MapPart?
  {
    var p, from := c.region + c.offset.pages + k, c.fileAt + k * props.gran;
    && p in s.pages
    && from + props.gran <= |c.file.bytes|
    && s.pages[p].bytes == c.file.bytes[from..from + props.gran]
    && s.pages[p].writable == c.how.write && s.pages[p].executable == c.how.execute && s.pages[p].file
    && !s.pages[p].own
  }

  lemma MappedPage(s: Space, props: Props, c: Call, k: nat)
    requires c.MapPart? && k < c.size.pages && c.fileAt + c.size.pages * props.gran <= |c.file.bytes|
    requires c.region + c.offset.pages + k in s.pages
    ensures HoldsFilePage(PartChanged(s, props, c), props, c, k)
  {
    MulMonotone(props.gran, k + 1, c.size.pages);
    assert (k + 1) * props.gran == k * props.gran + props.gran;
    assert InPart(c, c.region + c.offset.pages + k);
  }

  /** A granted map makes each page of the part exactly the file's bytes at its distance from
      `at`, with the protection asked for, and changes nothing else. */
  lemma MapReplacesItsPart(s: Space, props: Props, c: Call)
    requires Valid(s, props) && c.MapPart? && OutcomeOf(s, props, c).Ok?
    ensures var s' := Do(s, props, c);
      && s'.pages.Keys == s.pages.Keys && s'.regions == s.regions
      && (forall p :: p in s.pages && !InPart(c, p) ==> s'.pages[p] == s.pages[p])
      && forall k: nat :: k < c.size.pages ==> HoldsFilePage(s', props, c, k)
  {
    PartIsReserved(s, props, c);
    forall k: nat | k < c.size.pages ensures HoldsFilePage(PartChanged(s, props, c), props, c, k) {
      assert InPart(c, c.region + c.offset.pages + k);
      MappedPage(s, props, c, k);
    }
  }

  // ----- What a release gives back

  /** After any run, a free of a region with no part sealed for ever is granted, leaves no page and
      no trace of the region, and every other page and region as it was. */
  lemma FreeReleases(start: Space, props: Props, calls: seq<Call>, region: nat)
    requires Valid(start, props)
    requires var s := After(start, props, calls);
      region in s.regions && forall p :: p in s.pages && s.pages[p].base == region ==> !s.pages[p].forever
    ensures var s := After(start, props, calls); var s' := Do(s, props, Free(region));
      && OutcomeOf(s, props, Free(region)) == Ok
      && region !in s'.regions && (forall p :: region <= p < region + s.regions[region] ==> p !in s'.pages)
      && (forall p :: p in s'.pages <==> p in s.pages && s.pages[p].base != region)
      && (forall p :: p in s'.pages ==> s'.pages[p] == s.pages[p])
      && (forall b :: b in s.regions && b != region ==> b in s'.regions && s'.regions[b] == s.regions[b])
  {
    NeverBoth(start, props, calls);
    var s := After(start, props, calls);
    forall p: nat | region <= p < region + s.regions[region] ensures p !in Freed(s, region).pages {
      assert BelongsTo(s, p, region);
    }
  }

  /** And what was released is reserved again, at the same address, wherever the environment grants
      it: the new region holds none of what the old one did. */
  lemma ReservedAgain(start: Space, props: Props, calls: seq<Call>, region: nat, size: Extent, env: Env)
    requires Valid(start, props)
    requires var s := After(start, props, calls);
      && region in s.regions && 0 < PagesFor(size) <= s.regions[region]
      && forall p :: p in s.pages && s.pages[p].base == region ==> !s.pages[p].forever
    requires props.available && props.place && env.grants
    requires props.memoryPages > 0 && region % props.memoryPages == 0
    ensures var s' := Do(After(start, props, calls), props, Free(region));
            var c := AllocAt(Extent(region, 0), size, env);
      && OutcomeOf(s', props, c) == Ok
      && forall p: nat :: region <= p < region + PagesFor(size) ==>
           p in Do(s', props, c).pages && Do(s', props, c).pages[p] == FreshPage(props, region)
  {
    FreeReleases(start, props, calls, region);
    var s, c := After(start, props, calls), AllocAt(Extent(region, 0), size, env);
    var s' := Do(s, props, Free(region));
    forall p: nat | p in PageNumbers(region, PagesFor(size)) ensures p !in s'.pages {
      assert region <= p < region + s.regions[region];
    }
    assert OutcomeOf(s', props, c) == Ok;
    forall p: nat | region <= p < region + PagesFor(size)
      ensures p in Do(s', props, c).pages && Do(s', props, c).pages[p] == FreshPage(props, region)
    {
      ReservedPages(s', props, region, PagesFor(size), p);
    }
  }

  // ----- What is refused, and with what

  /** A part that is not of whole pages is refused as invalid, whatever else is wrong with it. */
  lemma PartOfPagesIsInvalid(s: Space, props: Props, c: Call)
    requires c.PublishPart? || c.SealPart? || (c.MapPart? && props.fileParts)
    requires c.offset.rest > 0 || c.size.rest > 0
    ensures OutcomeOf(s, props, c) == Refused(Invalid)
  {}

  /** What the header names of a seal: a flag it does not assign, and a page sealed for ever. */
  lemma SealIsRefused(s: Space, props: Props, c: Call)
    requires c.SealPart? && c.offset.rest == 0 && c.size.rest == 0
    ensures c.flags.unassigned ==> OutcomeOf(s, props, c) == Refused(Invalid)
    ensures !c.flags.unassigned && (exists p :: p in s.pages && InPart(c, p) && s.pages[p].forever) ==>
              OutcomeOf(s, props, c) == Refused(Permission)
  {
    if exists p :: p in s.pages && InPart(c, p) && s.pages[p].forever {
      var p :| p in s.pages && InPart(c, p) && s.pages[p].forever;
      assert Any(s, c, (g: Page) => g.forever);
    }
  }

  /** What the header names of a mapping, in order: that parts are not made a file's at all; an
      offset, a size or a place in the file that is not aligned, nothing to map, the end of the
      file, a flag it does not assign, and both ways at once; a file not opened to read; and a
      volume that cannot be mapped. */
  lemma MapIsRefused(s: Space, props: Props, c: Call)
    requires c.MapPart?
    ensures !props.fileParts ==> OutcomeOf(s, props, c) == Refused(NotSupported)
    ensures props.fileParts && MalformedMap(props, c) ==> OutcomeOf(s, props, c) == Refused(Invalid)
    ensures props.fileParts && !MalformedMap(props, c) && !c.file.readable ==>
              OutcomeOf(s, props, c) == Refused(Permission)
    ensures props.fileParts && !MalformedMap(props, c) && c.file.readable && !c.file.mappable ==>
              OutcomeOf(s, props, c) == Refused(NotSupported)
  {}

  predicate MalformedMap(props: Props, c: Call)
    requires c.MapPart?
  {
    || c.offset.rest > 0 || c.size.rest > 0 || c.size.pages == 0
    || c.fileAt % 65536 != 0 || |c.file.bytes| < c.fileAt + c.size.pages * props.gran
    || c.how.unassigned || (c.how.write && c.how.execute)
  }

  /** What nothing stands against is granted, if the environment grants it. */
  lemma SoundCallIsGranted(s: Space, props: Props, c: Call)
    requires OnPart(c) && c.env.grants && c.offset.rest == 0 && c.size.rest == 0
    requires c.region in s.regions && c.offset.pages + c.size.pages <= s.regions[c.region]
    requires forall p :: p in s.pages && InPart(c, p) ==> !s.pages[p].forever
    requires c.PublishPart? || c.MapPart? || c.Reopen? ==>
               forall p :: p in s.pages && InPart(c, p) ==> !s.pages[p].file
    requires c.PublishPart? && !props.republish ==>
               forall p :: p in s.pages && InPart(c, p) ==> !s.pages[p].published
    requires c.Reopen? ==> props.republish && forall p :: p in s.pages && InPart(c, p) ==> s.pages[p].published
    requires c.SealPart? ==> !c.flags.unassigned
    requires c.MapPart? ==> props.fileParts && !MalformedMap(props, c) && c.file.readable && c.file.mappable
    ensures OutcomeOf(s, props, c) == Ok
  {}

  /** Where placing is not provided, or the address is not a whole number of the quantum of
      reservation, or the size is zero, or something is there, no region is reserved at it. */
  lemma PlaceIsRefused(s: Space, props: Props, c: Call)
    requires c.AllocAt?
    requires !props.place || !props.available || c.at.rest > 0
             || props.memoryPages == 0 || c.at.pages % props.memoryPages != 0
             || (c.size.pages == 0 && c.size.rest == 0)
             || exists p :: p in s.pages && c.at.pages <= p < c.at.pages + PagesFor(c.size)
    ensures OutcomeOf(s, props, c).Refused?
  {
    if exists p :: p in s.pages && c.at.pages <= p < c.at.pages + PagesFor(c.size) {
      var p :| p in s.pages && c.at.pages <= p < c.at.pages + PagesFor(c.size);
      assert p in PageNumbers(c.at.pages, PagesFor(c.size));
    }
  }

  /** No region is reserved of no bytes, or where something is; and none is released that is not
      reserved. */
  lemma NothingToReserveOrRelease(s: Space, props: Props, c: Call)
    ensures c.Alloc? && (!props.available || (c.size.pages == 0 && c.size.rest == 0)) ==>
              OutcomeOf(s, props, c) == Refused(NoMemory)
    ensures c.Free? && c.region !in s.regions ==> OutcomeOf(s, props, c) == Refused(Invalid)
  {}

  // ----- The calls as code on one address space

  class AddressSpace {
    var pages: map<nat, Page>
    var regions: map<nat, nat>
    const props: Props

    ghost function View(): Space
      reads this
    {
      Space(pages, regions)
    }

    constructor (props: Props)
      ensures this.props == props && View() == EMPTY && Valid(View(), props)
    {
      pages, regions, this.props := map[], map[], props;
    }

    method ReservePages(at: nat, n: nat)
      requires Unreserved(View(), at, n)
      modifies this
      ensures View() == Reserved(old(View()), props, at, n)
    {
      ghost var before := View();
      var i := 0;
      while i < n
        invariant i <= n && regions == before.regions
        invariant forall p: nat :: p in pages <==> p in before.pages || at <= p < at + i
        invariant forall p :: p in pages ==>
                    pages[p] == if at <= p < at + i then FreshPage(props, at) else before.pages[p]
      {
        pages := pages[at + i := FreshPage(props, at)];
        i := i + 1;
      }
      regions := regions[at := n];
      forall p: nat
        ensures p in pages <==> p in Reserved(before, props, at, n).pages
        ensures p in pages ==> pages[p] == Reserved(before, props, at, n).pages[p]
      {
        ReservedPages(before, props, at, n, p);
      }
      assert pages == Reserved(before, props, at, n).pages;
    }

    method ChangePage(c: Call, p: nat)
      requires OnPart(c) && InPart(c, p) && p in pages
      modifies this`pages
      ensures pages == old(pages)[p := Changed(props, c, p, old(pages)[p])]
    {
      pages := pages[p := Changed(props, c, p, pages[p])];
    }

    method ChangePart(c: Call)
      requires OnPart(c)
      requires forall p: nat :: InPart(c, p) ==> p in pages
      modifies this
      ensures View() == PartChanged(old(View()), props, c)
    {
      ghost var before := View();
      ghost var after := PartChanged(before, props, c).pages;
      var first := c.region + c.offset.pages;
      var i := 0;
      while i < c.size.pages
        invariant i <= c.size.pages && regions == before.regions && pages.Keys == before.pages.Keys
        invariant forall p :: p in pages ==> pages[p] == if p < first + i then after[p] else before.pages[p]
      {
        ChangePage(c, first + i);
        i := i + 1;
      }
      assert pages == after;
    }

    method FreeRegion(region: nat)
      modifies this
      ensures View() == Freed(old(View()), region)
    {
      if !KeepsForever(Space(pages, regions), region) {
        pages := map p | p in pages && pages[p].base != region :: pages[p];
        regions := regions - {region};
      }
    }

    method StoreByte(at: Extent, value: Byte)
      requires at.pages in pages && at.rest < |pages[at.pages].bytes|
      modifies this
      ensures View() == Stored(old(View()), at, value)
    {
      var g := pages[at.pages];
      pages := pages[at.pages := g.(own := true, bytes := g.bytes[at.rest := value])];
    }

    method Grant(c: Call)
      requires OutcomeOf(View(), props, c).Ok?
      requires OnPart(c) ==> forall p: nat :: InPart(c, p) ==> p in pages
      modifies this
      ensures View() == Effect(old(View()), props, c)
    {
      match c
      case Alloc(size, place, _) => ReservePages(place, PagesFor(size));
      case AllocAt(at, size, _) => ReservePages(at.pages, PagesFor(size));
      case Free(region) => FreeRegion(region);
      case Store(at, value) => StoreByte(at, value);
      case FileChanges(page, bytes) => pages := pages[page := pages[page].(bytes := bytes)];
      case _ => ChangePart(c);
    }

    /** Any call: it answers as the header states, a refused call changes nothing, and no page
        is writable and executable afterwards. */
    method Perform(c: Call) returns (o: Outcome)
      requires Valid(View(), props)
      modifies this
      ensures o == OutcomeOf(old(View()), props, c)
      ensures View() == Do(old(View()), props, c)
      ensures o.Refused? ==> View() == old(View())
      ensures Valid(View(), props)
    {
      CallKeepsValid(View(), props, c);
      o := OutcomeOf(Space(pages, regions), props, c);
      if o.Ok? {
        PartIsReserved(View(), props, c);
        Grant(c);
      }
    }
  }

  lemma PartIsReserved(s: Space, props: Props, c: Call)
    requires Valid(s, props) && OutcomeOf(s, props, c).Ok?
    ensures OnPart(c) ==> forall p: nat :: InPart(c, p) ==> p in s.pages
  {
    if OnPart(c) {
      forall p: nat | InPart(c, p) ensures p in s.pages {
        assert BelongsTo(s, p, c.region);
      }
    }
  }
}
