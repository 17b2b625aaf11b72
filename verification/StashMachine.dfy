/** Interleaved runs over many stashes and many Stash objects, against a map of plain queues. */
module StashMachine {
  import opened Bytes
  import opened StashMemory
  import opened StashModel
  import opened StashRuns

  /** What a program can do, naming its Stash objects by number. */
  datatype Op =
    | DoCreate(id: nat)
    | DoPut(id: nat, c: Byte)
    | DoSave(id: nat)
    | DoOpen(id: nat, fd: Byte)
    | DoGet(id: nat)
    | DoSize(id: nat)
    | DoRelease(id: nat)
    | Flush              // load(0, 0), as length, extract and cleanup start with
    | DoFreeCount

  // ---------------------------------------------------------------- the implementation

  datatype System = System(w: World, objects: map<nat, Handle>)

  const BLANK := Handle(0, 0, 0, 0, 0)

  function Object(s: System, id: nat): Handle {
    if id in s.objects then s.objects[id] else BLANK
  }

  /** The pages `release` frees, following links in RAM; `fuel` pages at most. */
  function Walk(ram: seq<Page>, first: Byte, fuel: nat): seq<Byte>
    decreases fuel
  {
    if first == 0 || fuel == 0 then [] else [first] + Walk(ram, Peek(ram, first, NEXT), fuel - 1)
  }

  function Step(s: System, op: Op): (System, int) {
    match op
    case DoCreate(id) =>
      var (w, h) := Create(s.w);
      (System(w, s.objects[id := h]), h.first)
    case DoPut(id, c) =>
      var (w, h) := Put(s.w, Object(s, id), c);
      (System(w, s.objects[id := h]), 0)
    case DoSave(id) => (s.(w := s.w.(mem := Save(s.w.mem, Object(s, id)))), 0)
    case DoOpen(id, fd) =>
      var (m, h) := Open(s.w.mem, fd);
      (System(s.w.(mem := m), s.objects[id := h]), h.curr)
    case DoGet(id) =>
      var (m, h, b) := Get(s.w.mem, Object(s, id));
      (System(s.w.(mem := m), s.objects[id := h]), b)
    case DoSize(id) => (s, Size(s.w.mem, Object(s, id)))
    case DoRelease(id) =>
      var h := Object(s, id);
      (System(s.w.(free := s.w.free + PageSet(Walk(s.w.mem.ram, h.first, PAGES))),
              s.objects[id := h.(first := 0)]), 0)
    case Flush => (s.(w := s.w.(mem := Load0(s.w.mem, 0))), 0)
    case DoFreeCount => (s, |s.w.free|)
  }

  // ---------------------------------------------------------------- the specification

  datatype Queue = Queue(data: seq<Byte>, saved: bool)

  /** Plain queues, object positions, and the stash last written to (0 when flushed). */
  datatype Spec = Spec(queues: map<Byte, Queue>, cursors: map<nat, (Byte, nat)>, hot: Byte)

  ghost function PagesHeld(q: map<Byte, Queue>): nat {
    if q == map[] then 0 else
      var fd :| fd in q;
      Pages(|q[fd].data|) + PagesHeld(q - {fd})
  }

  predicate Live(t: Spec, id: nat) {
    id in t.cursors && t.cursors[id].0 in t.queues && t.cursors[id].1 <= |t.queues[t.cursors[id].0].data|
  }

  function QueueOf(t: Spec, id: nat): Queue
    requires Live(t, id)
  {
    t.queues[t.cursors[id].0]
  }

  predicate Fills(data: seq<Byte>) {
    (|data| + 1 + HEADER) % 63 == 0
  }

  /** The discipline, in terms a caller can see. */
  ghost predicate Allowed(t: Spec, op: Op) {
    match op
    case DoCreate(_) => PagesHeld(t.queues) < PAGES - 1
    case DoPut(id, _) =>
      && Live(t, id) && !QueueOf(t, id).saved
      && (Fills(QueueOf(t, id).data) ==> PagesHeld(t.queues) < PAGES - 1)
    case DoSave(id) => Live(t, id)
    case DoOpen(_, fd) => fd in t.queues && t.queues[fd].saved
    case DoGet(id) => Live(t, id) && QueueOf(t, id).saved
    case DoSize(id) =>
      Live(t, id) && var q := QueueOf(t, id);
      q.saved || t.hot == t.cursors[id].0 || q.data == [] || |q.data| + HEADER >= 63
    case DoRelease(id) => Live(t, id) && t.hot != t.cursors[id].0
    case Flush => true
    case DoFreeCount => true
  }

  /** The answer a queue gives. */
  ghost predicate Answers(t: Spec, op: Op, out: int)
    requires Allowed(t, op)
  {
    match op
    case DoCreate(_) => 1 <= out < PAGES && out !in t.queues
    case DoOpen(_, fd) => out == fd
    case DoGet(id) => out == Nth(QueueOf(t, id).data, t.cursors[id].1)
    case DoSize(id) => out == |QueueOf(t, id).data|
    case DoFreeCount => out == PAGES - 1 - PagesHeld(t.queues)
    case _ => true
  }

  ghost function Next(t: Spec, op: Op, out: int): Spec
    requires Allowed(t, op) && Answers(t, op, out)
  {
    match op
    case DoCreate(id) => Spec(t.queues[out as Byte := Queue([], false)], t.cursors[id := (out as Byte, 0)], out)
    case DoPut(id, c) =>
      var (fd, _) := t.cursors[id];
      t.(queues := t.queues[fd := Queue(t.queues[fd].data + [c], false)], hot := fd)
    case DoSave(id) =>
      var (fd, _) := t.cursors[id];
      t.(queues := t.queues[fd := t.queues[fd].(saved := true)], hot := fd)
    case DoOpen(id, fd) => t.(cursors := t.cursors[id := (fd, 0)])
    case DoGet(id) =>
      var (fd, pos) := t.cursors[id];
      t.(cursors := t.cursors[id := (fd, if pos < |t.queues[fd].data| then pos + 1 else pos)])
    case DoSize(_) => t
    case DoRelease(id) =>
      var (fd, _) := t.cursors[id];
      Spec(t.queues - {fd}, map i | i in t.cursors && t.cursors[i].0 != fd :: t.cursors[i], t.hot)
    case Flush => t.(hot := 0)
    case DoFreeCount => t
  }

  // ---------------------------------------------------------------- the refinement

  ghost predicate SameQueues(q: map<Byte, Queue>, dir: Dir) {
    && q.Keys == dir.Keys
    && forall fd :: fd in q ==> q[fd] == Queue(dir[fd].data, dir[fd].saved)
  }

  /** Each live cursor is an object standing there. */
  ghost predicate Positions(s: System, t: Spec, dir: Dir) {
    forall id :: id in t.cursors ==>
      && id in s.objects && s.objects[id].first == t.cursors[id].0
      && At(dir, s.objects[id], t.cursors[id].1)
  }

  /** A stash being written is held by its creator alone. */
  ghost predicate SoleWriter(t: Spec) {
    forall i, j :: i in t.cursors && j in t.cursors && t.cursors[i].0 == t.cursors[j].0
      && t.cursors[i].0 in t.queues && !t.queues[t.cursors[i].0].saved
      ==> i == j
  }

  ghost predicate Refines(s: System, t: Spec, dir: Dir) {
    && Inv(s.w, dir)
    && SameQueues(t.queues, dir)
    && Positions(s, t, dir)
    && SoleWriter(t)
    && (if t.hot == 0 then s.w.mem.n0 == 0 else OwnedBy(dir, t.hot, s.w.mem.n0))
  }

  lemma {:induction false} HeldRemove(q: map<Byte, Queue>, fd: Byte)
    requires fd in q
    ensures PagesHeld(q) == Pages(|q[fd].data|) + PagesHeld(q - {fd})
  {
    var g :| g in q && PagesHeld(q) == Pages(|q[g].data|) + PagesHeld(q - {g});
    if g != fd {
      HeldRemove(q - {g}, fd);
      HeldRemove(q - {fd}, g);
      assert q - {g} - {fd} == q - {fd} - {g};
    }
  }

  lemma {:induction false} HeldIsUsed(q: map<Byte, Queue>, dir: Dir)
    requires SameQueues(q, dir) && forall fd :: fd in dir ==> ChainOk(dir[fd], fd)
    ensures PagesHeld(q) == PagesUsed(dir)
  {
    if dir == map[] {
      assert q == map[];
    } else {
      var fd :| fd in dir && PagesUsed(dir) == |dir[fd].chain| + PagesUsed(dir - {fd});
      HeldRemove(q, fd);
      HeldIsUsed(q - {fd}, dir - {fd});
    }
  }

  /** The free map is exactly what the queues do not need. */
  lemma FreeIsRest(s: System, t: Spec, dir: Dir)
    requires Inv(s.w, dir) && SameQueues(t.queues, dir)
    ensures |s.w.free| + PagesHeld(t.queues) == PAGES - 1
  {
    forall fd | fd in dir ensures ChainOk(dir[fd], fd) {
      InvChain(s.w, dir, fd);
    }
    HeldIsUsed(t.queues, dir);
    Conservation(s.w, dir);
  }

  lemma {:induction false} WalkFollows(ram: seq<Page>, first: Byte, chain: seq<Byte>, fuel: nat)
    requires RamChain(ram, first, chain) && |chain| <= fuel
    ensures Walk(ram, first, fuel) == chain
    decreases fuel
  {
    if chain != [] {
      WalkFollows(ram, Peek(ram, first, NEXT), chain[1..], fuel - 1);
      assert chain == [first] + chain[1..];
    }
  }

  /** Each disciplined operation answers as the queues do, and the refinement goes on. */
  lemma StepRefines(s: System, t: Spec, dir: Dir, op: Op) returns (dir': Dir)
    requires Refines(s, t, dir) && Allowed(t, op)
    ensures var (s', out) := Step(s, op);
            Answers(t, op, out) && Refines(s', Next(t, op, out), dir')
  {
    hide Refines, Allowed, Answers, Next, Step;
    match op
    case DoCreate(id) => dir' := CreateRefines(s, t, dir, id);
    case DoPut(id, c) => dir' := PutRefines(s, t, dir, id, c);
    case DoSave(id) => dir' := SaveRefines(s, t, dir, id);
    case DoOpen(id, fd) => dir' := dir; OpenRefines(s, t, dir, id, fd);
    case DoGet(id) => dir' := dir; GetRefines(s, t, dir, id);
    case DoSize(id) => dir' := dir; SizeRefines(s, t, dir, id);
    case DoRelease(id) => dir' := ReleaseRefines(s, t, dir, id);
    case Flush => dir' := dir; FlushRefines(s, t, dir);
    case DoFreeCount => dir' := dir; FreeCountRefines(s, t, dir);
  }

  lemma FlushRefines(s: System, t: Spec, dir: Dir)
    requires Refines(s, t, dir)
    ensures var (s', out) := Step(s, Flush); Answers(t, Flush, out) && Refines(s', Next(t, Flush, out), dir)
  {
    hide Inv, Positions, SameQueues, OwnedBy, View;
    InvValid(s.w, dir);
    Load0PreservesView(s.w.mem, 0);
    Load0Inv(s.w, dir, 0);
    SamePositions(s, t, dir, Step(s, Flush).0, Next(t, Flush, 0));
  }

  lemma SamePositions(s: System, t: Spec, dir: Dir, s': System, t': Spec)
    requires Positions(s, t, dir) && s'.objects == s.objects && t'.cursors == t.cursors
    ensures Positions(s', t', dir)
  {
    hide At;
  }

  lemma FreeCountRefines(s: System, t: Spec, dir: Dir)
    requires Refines(s, t, dir)
    ensures var (s', out) := Step(s, DoFreeCount);
            Answers(t, DoFreeCount, out) && Refines(s', Next(t, DoFreeCount, out), dir)
  {
    hide Inv, Positions, SameQueues, SoleWriter, OwnedBy;
    FreeIsRest(s, t, dir);
  }

  /** A handle depends on its own stash alone. */
  lemma AtFrame(dir: Dir, dir': Dir, h: Handle, pos: nat)
    requires At(dir, h, pos) && h.first in dir && h.first in dir' && dir'[h.first] == dir[h.first]
    ensures At(dir', h, pos)
  {
  }

  /** Objects whose stash is as before stand where they stood. */
  lemma PositionsFrame(s: System, t: Spec, dir: Dir, s': System, t': Spec, dir': Dir, id: nat)
    requires Positions(s, t, dir)
    requires forall i :: i in t'.cursors && i != id ==>
      && i in t.cursors && t'.cursors[i] == t.cursors[i] && i in s'.objects && s'.objects[i] == s.objects[i]
      && t.cursors[i].0 in dir && t.cursors[i].0 in dir' && dir'[t.cursors[i].0] == dir[t.cursors[i].0]
    requires id in t'.cursors ==> id in s'.objects && s'.objects[id].first == t'.cursors[id].0
                                  && At(dir', s'.objects[id], t'.cursors[id].1)
    ensures Positions(s', t', dir')
  {
    hide At;
    forall i | i in t'.cursors
      ensures i in s'.objects && s'.objects[i].first == t'.cursors[i].0 && At(dir', s'.objects[i], t'.cursors[i].1)
    {
      if i != id {
        AtFrame(dir, dir', s.objects[i], t.cursors[i].1);
      }
    }
  }

  lemma CreateRefines(s: System, t: Spec, dir: Dir, id: nat) returns (dir': Dir)
    requires Refines(s, t, dir) && Allowed(t, DoCreate(id))
    ensures var (s', out) := Step(s, DoCreate(id));
            Answers(t, DoCreate(id), out) && Refines(s', Next(t, DoCreate(id), out), dir')
  {
    hide Inv, At, Create, EntryOk, Allowed, Answers, Next, Step;
    hide SameQueues, SoleWriter, Positions, OwnedBy, Lowest, View;
    FreeForCreate(s, t, dir, id);
    CreateStep(s.w, dir);
    LowestIsFree(s.w, dir);
    var (w, h) := Create(s.w);
    dir' := Created(dir, h.first);
    StepCreate(s, id);
    CreateSpec(s, t, dir, id, h.first);
    CreatePositions(s, t, dir, System(w, s.objects[id := h]), Next(t, DoCreate(id), h.first), id, h);
  }

  lemma StepCreate(s: System, id: nat)
    ensures var (w, h) := Create(s.w); Step(s, DoCreate(id)) == (System(w, s.objects[id := h]), h.first)
  {
    hide Create;
  }

  lemma FreeForCreate(s: System, t: Spec, dir: Dir, id: nat)
    requires Inv(s.w, dir) && SameQueues(t.queues, dir) && Allowed(t, DoCreate(id))
    ensures s.w.free != {}
  {
    hide Inv, SameQueues;
    FreeIsRest(s, t, dir);
  }

  /** What a create does to the queues: one more, empty and unsaved. */
  lemma CreateSpec(s: System, t: Spec, dir: Dir, id: nat, fd: Byte)
    requires Positions(s, t, dir) && SameQueues(t.queues, dir) && SoleWriter(t)
    requires Allowed(t, DoCreate(id)) && fd !in dir && 1 <= fd < PAGES
    ensures Answers(t, DoCreate(id), fd)
    ensures var t' := Next(t, DoCreate(id), fd);
            && t' == Spec(t.queues[fd := Queue([], false)], t.cursors[id := (fd, 0)], fd)
            && SameQueues(t'.queues, Created(dir, fd)) && SoleWriter(t') && OwnedBy(Created(dir, fd), fd, fd)
  {
    hide Positions, Allowed;
    CursorsLive(s, t, dir);
  }

  lemma CreatePositions(s: System, t: Spec, dir: Dir, s': System, t': Spec, id: nat, h: Handle)
    requires Positions(s, t, dir) && h.first !in dir && At(Created(dir, h.first), h, 0)
    requires s'.objects == s.objects[id := h] && t'.cursors == t.cursors[id := (h.first, 0)]
    ensures Positions(s', t', Created(dir, h.first))
  {
    hide At, Positions;
    CursorsLive(s, t, dir);
    CursorObjects(s, t, dir);
    PositionsFrame(s, t, dir, s', t', Created(dir, h.first), id);
  }

  lemma CursorObjects(s: System, t: Spec, dir: Dir)
    requires Positions(s, t, dir)
    ensures forall i :: i in t.cursors ==> i in s.objects && s.objects[i].first == t.cursors[i].0
  {
    hide At;
  }

  lemma CursorsLive(s: System, t: Spec, dir: Dir)
    requires Positions(s, t, dir)
    ensures forall i :: i in t.cursors ==> t.cursors[i].0 in dir && t.cursors[i].1 <= |dir[t.cursors[i].0].data|
  {
  }

  lemma PutRefines(s: System, t: Spec, dir: Dir, id: nat, c: Byte) returns (dir': Dir)
    requires Refines(s, t, dir) && Allowed(t, DoPut(id, c))
    ensures var (s', out) := Step(s, DoPut(id, c));
            Answers(t, DoPut(id, c), out) && Refines(s', Next(t, DoPut(id, c), out), dir')
  {
    hide Inv, At, Put, EntryOk, SoleWriter, View, OwnedBy, Lowest;
    FreeIsRest(s, t, dir);
    var (fd, pos) := t.cursors[id];
    InvChain(s.w, dir, fd);
    PutStep(s.w, dir, s.objects[id], pos, c);
    dir' := Appended(dir, fd, c, Lowest(s.w.free));
    CursorsLive(s, t, dir);
    PutQueues(t, dir, dir', id, c, Lowest(s.w.free));
    PositionsFrame(s, t, dir, Step(s, DoPut(id, c)).0, Next(t, DoPut(id, c), 0), dir', id);
  }

  lemma PutQueues(t: Spec, dir: Dir, dir': Dir, id: nat, c: Byte, blk: Byte)
    requires Allowed(t, DoPut(id, c)) && SameQueues(t.queues, dir) && SoleWriter(t)
    requires dir' == Appended(dir, t.cursors[id].0, c, blk)
    ensures var t' := Next(t, DoPut(id, c), 0); SameQueues(t'.queues, dir') && SoleWriter(t') && t'.cursors == t.cursors
    ensures forall i :: i in t.cursors && i != id ==> t.cursors[i].0 != t.cursors[id].0
    ensures forall fd :: fd in dir && fd != t.cursors[id].0 ==> fd in dir' && dir'[fd] == dir[fd]
  {
  }

  lemma SaveRefines(s: System, t: Spec, dir: Dir, id: nat) returns (dir': Dir)
    requires Refines(s, t, dir) && Allowed(t, DoSave(id))
    ensures var (s', out) := Step(s, DoSave(id));
            Answers(t, DoSave(id), out) && Refines(s', Next(t, DoSave(id), out), dir')
  {
    hide Inv, Save, EntryOk, View, At;
    var (fd, pos) := t.cursors[id];
    SaveStep(s.w, dir, s.objects[id], pos);
    InvChain(s.w, dir, fd);
    dir' := Saved(dir, fd);
    assert OwnedBy(dir', fd, fd);
    CursorsLive(s, t, dir);
    SavePositions(s, t, dir, Step(s, DoSave(id)).0, Next(t, DoSave(id), 0), fd);
  }

  lemma SavePositions(s: System, t: Spec, dir: Dir, s': System, t': Spec, fd: Byte)
    requires Positions(s, t, dir) && fd in dir && s'.objects == s.objects && t'.cursors == t.cursors
    ensures Positions(s', t', Saved(dir, fd))
  {
    forall i | i in t.cursors ensures At(Saved(dir, fd), s.objects[i], t.cursors[i].1) {
      assert At(dir, s.objects[i], t.cursors[i].1);
    }
  }

  lemma OpenRefines(s: System, t: Spec, dir: Dir, id: nat, fd: Byte)
    requires Refines(s, t, dir) && Allowed(t, DoOpen(id, fd))
    ensures var (s', out) := Step(s, DoOpen(id, fd));
            Answers(t, DoOpen(id, fd), out) && Refines(s', Next(t, DoOpen(id, fd), out), dir)
  {
    hide Inv, At, EntryOk;
    OpenStep(s.w, dir, fd);
    var (s', out) := Step(s, DoOpen(id, fd));
    CursorsLive(s, t, dir);
    PositionsFrame(s, t, dir, s', Next(t, DoOpen(id, fd), out), dir, id);
  }

  lemma GetRefines(s: System, t: Spec, dir: Dir, id: nat)
    requires Refines(s, t, dir) && Allowed(t, DoGet(id))
    ensures var (s', out) := Step(s, DoGet(id));
            Answers(t, DoGet(id), out) && Refines(s', Next(t, DoGet(id), out), dir)
  {
    hide Inv, At, Get, EntryOk;
    GetStep(s.w, dir, s.objects[id], t.cursors[id].1);
    var (s', out) := Step(s, DoGet(id));
    CursorsLive(s, t, dir);
    PositionsFrame(s, t, dir, s', Next(t, DoGet(id), out), dir, id);
  }

  lemma SizeRefines(s: System, t: Spec, dir: Dir, id: nat)
    requires Refines(s, t, dir) && Allowed(t, DoSize(id))
    ensures var (s', out) := Step(s, DoSize(id));
            Answers(t, DoSize(id), out) && Refines(s', Next(t, DoSize(id), out), dir)
  {
    hide Refines, Size, Live;
    SizeAnswers(s, t, dir, id);
  }

  lemma SizeAnswers(s: System, t: Spec, dir: Dir, id: nat)
    requires Refines(s, t, dir) && Allowed(t, DoSize(id))
    ensures Size(s.w.mem, Object(s, id)) == |QueueOf(t, id).data|
  {
    hide Inv, EntryOk, Size;
    var (fd, pos) := t.cursors[id];
    SizeStep(s.w, dir, s.objects[id], pos);
    InvChain(s.w, dir, fd);
  }

  lemma ReleaseRefines(s: System, t: Spec, dir: Dir, id: nat) returns (dir': Dir)
    requires Refines(s, t, dir) && Allowed(t, DoRelease(id))
    ensures var (s', out) := Step(s, DoRelease(id));
            Answers(t, DoRelease(id), out) && Refines(s', Next(t, DoRelease(id), out), dir')
  {
    hide Inv, Allowed, Answers, Next, Step, SameQueues, SoleWriter, Positions, OwnedBy;
    LiveId(t, id);
    dir' := dir - {t.cursors[id].0};
    ReleaseFrees(s, t, dir, id);
    ReleaseSpec(s, t, dir, id);
    ReleasePositions(s, t, dir, Step(s, DoRelease(id)).0, id);
  }

  lemma LiveId(t: Spec, id: nat)
    requires Allowed(t, DoRelease(id))
    ensures id in t.cursors
  {
  }

  /** The pages of the stash, and no others, go back to the free map; the memory stays. */
  lemma ReleaseFrees(s: System, t: Spec, dir: Dir, id: nat)
    requires Refines(s, t, dir) && Allowed(t, DoRelease(id))
    ensures var fd := t.cursors[id].0; var (s', out) := Step(s, DoRelease(id));
            && fd in dir && out == 0 && s'.w.mem == s.w.mem && Inv(s'.w, dir - {fd})
            && s'.objects == s.objects[id := Object(s, id).(first := 0)]
  {
    hide EntryOk, At, RamChain, Walk, Inv, SoleWriter, OwnedBy;
    var fd := t.cursors[id].0;
    CursorsLive(s, t, dir);
    CursorObjects(s, t, dir);
    NotHot(s, t, dir, fd);
    NotHeld(s, dir, fd);
    ReleaseStep(s.w, dir, fd);
    InvChain(s.w, dir, fd);
    WalkFollows(s.w.mem.ram, fd, dir[fd].chain, PAGES);
  }

  lemma NotHeld(s: System, dir: Dir, fd: Byte)
    requires fd in dir && !OwnedBy(dir, fd, s.w.mem.n0)
    ensures s.w.mem.n0 !in dir[fd].chain
  {
  }

  lemma ReleaseSpec(s: System, t: Spec, dir: Dir, id: nat)
    requires Refines(s, t, dir) && Allowed(t, DoRelease(id))
    ensures Answers(t, DoRelease(id), 0)
    ensures var fd := t.cursors[id].0; var t' := Next(t, DoRelease(id), 0);
            && t'.hot == t.hot && SameQueues(t'.queues, dir - {fd}) && SoleWriter(t')
            && (t.hot != 0 ==> OwnedBy(dir - {fd}, t.hot, s.w.mem.n0))
  {
    hide Inv, Positions;
  }

  lemma ReleasePositions(s: System, t: Spec, dir: Dir, s': System, id: nat)
    requires Positions(s, t, dir) && Allowed(t, DoRelease(id)) && Answers(t, DoRelease(id), 0)
    requires s'.objects == s.objects[id := Object(s, id).(first := 0)]
    ensures Positions(s', Next(t, DoRelease(id), 0), dir - {t.cursors[id].0})
  {
    hide At, Positions;
    CursorsLive(s, t, dir);
    CursorObjects(s, t, dir);
    PositionsFrame(s, t, dir, s', Next(t, DoRelease(id), 0), dir - {t.cursors[id].0}, id);
  }

  /** The write slot holds a page of the stash last written to, so of no other. */
  lemma NotHot(s: System, t: Spec, dir: Dir, fd: Byte)
    requires Refines(s, t, dir) && fd in dir && t.hot != fd
    ensures !OwnedBy(dir, fd, s.w.mem.n0)
  {
    InvChain(s.w, dir, fd);
  }

  // ---------------------------------------------------------------- runs

  function Run(s: System, ops: seq<Op>): (System, seq<int>)
    decreases |ops|
  {
    if ops == [] then (s, [])
    else
      var (s1, out) := Step(s, ops[0]);
      var (s2, rest) := Run(s1, ops[1..]);
      (s2, [out] + rest)
  }

  /** `outs` is what plain queues may answer to `ops`. */
  ghost predicate QueuesAnswer(t: Spec, ops: seq<Op>, outs: seq<int>)
    decreases |ops|
  {
    |ops| == |outs| && (ops != [] ==>
      && Allowed(t, ops[0]) && Answers(t, ops[0], outs[0])
      && QueuesAnswer(Next(t, ops[0], outs[0]), ops[1..], outs[1..]))
  }

  /** Where the queues stand after `ops` were answered by `outs`. */
  ghost function SpecAfter(t: Spec, ops: seq<Op>, outs: seq<int>): Spec
    requires QueuesAnswer(t, ops, outs)
    decreases |ops|
  {
    if ops == [] then t else SpecAfter(Next(t, ops[0], outs[0]), ops[1..], outs[1..])
  }

  /** Every operation met the discipline, given the answers seen so far. */
  ghost predicate Disciplined(t: Spec, ops: seq<Op>, outs: seq<int>)
    requires |ops| == |outs|
    decreases |ops|
  {
    ops != [] ==>
      && Allowed(t, ops[0])
      && (Answers(t, ops[0], outs[0]) ==> Disciplined(Next(t, ops[0], outs[0]), ops[1..], outs[1..]))
  }

  lemma {:induction false} RunLength(s: System, ops: seq<Op>)
    ensures |Run(s, ops).1| == |ops|
    decreases |ops|
  {
    if ops != [] {
      RunLength(Step(s, ops[0]).0, ops[1..]);
    }
  }

  /** Every disciplined run of any length, over any number of stashes and objects, gives the answers
      of plain queues, ends where the queues end, keeps the cache and ownership invariant, and loses no page. */
  lemma {:induction false} RunRefines(s: System, t: Spec, dir: Dir, ops: seq<Op>)
    returns (dir': Dir)
    requires Refines(s, t, dir)
    requires |Run(s, ops).1| == |ops| && Disciplined(t, ops, Run(s, ops).1)
    ensures QueuesAnswer(t, ops, Run(s, ops).1)
    ensures var t' := SpecAfter(t, ops, Run(s, ops).1);
            Refines(Run(s, ops).0, t', dir') && |Run(s, ops).0.w.free| + PagesHeld(t'.queues) == PAGES - 1
    decreases |ops|
  {
    hide Refines, Step, Allowed, Answers, Next;
    if ops == [] {
      dir' := dir;
    } else {
      var (s1, out) := Step(s, ops[0]);
      var dir1 := StepRefines(s, t, dir, ops[0]);
      var outs := Run(s, ops).1;
      RunLength(s1, ops[1..]);
      assert outs == [out] + Run(s1, ops[1..]).1;
      assert outs[1..] == Run(s1, ops[1..]).1;
      dir' := RunRefines(s1, Next(t, ops[0], out), dir1, ops[1..]);
    }
    EndCount(Run(s, ops).0, SpecAfter(t, ops, Run(s, ops).1), dir');
  }

  lemma EndCount(s: System, t: Spec, dir: Dir)
    requires Refines(s, t, dir)
    ensures |s.w.free| + PagesHeld(t.queues) == PAGES - 1
  {
    FreeIsRest(s, t, dir);
  }

  /** The state `initMap(56)` leaves: both slots on page 0, every other page free. */
  ghost predicate PoweredOn(s: System) {
    && ValidMem(s.w.mem) && s.w.mem.n0 == 0 && s.w.mem.n1 == 0 && s.objects == map[]
    && (forall p: Byte :: p in s.w.free <==> 1 <= p < PAGES)
  }

  lemma PoweredOnRefines(s: System)
    requires PoweredOn(s)
    ensures Refines(s, Spec(map[], map[], 0), map[])
  {
  }

  /** Why `size` needs its discipline: two writers interleave, the second stash's only page moves out
      of the write slot while the read slot still shows it empty, and `size` answers 0, not 1. */
  lemma StaleSize(s: System, c: Byte, d: Byte)
    requires PoweredOn(s)
    ensures var ops := [DoCreate(0), DoCreate(1), DoPut(1, c), DoPut(0, d)];
            Step(Run(s, ops).0, DoSize(1)).1 == 0
  {
    var s1 := Step(s, DoCreate(0)).0;
    var s2 := Step(s1, DoCreate(1)).0;
    var s3 := Step(s2, DoPut(1, c)).0;
    var s4 := Step(s3, DoPut(0, d)).0;
    TwoWriters(s, s1, s2);
    WriterMovesOn(s2, s3, s4, c, d);
    hide Step, PoweredOn;
    RunFour(s, DoCreate(0), DoCreate(1), DoPut(1, c), DoPut(0, d));
  }

  lemma TwoWriters(s: System, s1: System, s2: System)
    requires PoweredOn(s) && s1 == Step(s, DoCreate(0)).0 && s2 == Step(s1, DoCreate(1)).0
    ensures AfterCreates(s2)
  {
    assert Lowest(s.w.free) == 1 by { assert 1 in s.w.free; }
    assert s1.w.free == s.w.free - {1} && s1.w.mem.n0 == 1 == s1.w.mem.n1;
    assert Lowest(s1.w.free) == 2 by { assert 2 in s1.w.free; }
    assert s2.w.mem.p0[TAIL] == s2.w.mem.p1[TAIL] == HEADER;
  }

  /** Page 2 is in both slots, page 1 in RAM, both empty stashes. */
  predicate AfterCreates(s: System) {
    && |s.w.mem.ram| == PAGES && s.w.mem.n0 == 2 == s.w.mem.n1
    && s.w.mem.p0[TAIL] == s.w.mem.p1[TAIL] == HEADER && s.w.mem.ram[1][TAIL] == HEADER
    && 0 in s.objects && s.objects[0].last == 1 && 1 in s.objects && s.objects[1].last == 2 && s.objects[1].count == 0
  }

  lemma WriterMovesOn(s2: System, s3: System, s4: System, c: Byte, d: Byte)
    requires AfterCreates(s2) && s3 == Step(s2, DoPut(1, c)).0 && s4 == Step(s3, DoPut(0, d)).0
    ensures Step(s4, DoSize(1)).1 == 0
  {
    assert s3.w.mem.n0 == 2 == s3.w.mem.n1 && s3.w.mem.p1[TAIL] == HEADER && s3.objects[1] == s2.objects[1];
    assert s4.w.mem.n0 == 1 && s4.w.mem.n1 == 2 && s4.w.mem.p1[TAIL] == HEADER && s4.objects[1] == s2.objects[1];
  }

  lemma RunFour(s: System, a: Op, b: Op, c: Op, d: Op)
    ensures Run(s, [a, b, c, d]).0 == Step(Step(Step(Step(s, a).0, b).0, c).0, d).0
  {
    hide Step;
    RunCons(s, a, [b, c, d]);
    RunCons(Step(s, a).0, b, [c, d]);
    RunCons(Step(Step(s, a).0, b).0, c, [d]);
    RunCons(Step(Step(Step(s, a).0, b).0, c).0, d, []);
    assert [a, b, c, d] == [a] + [b, c, d] && [b, c, d] == [b] + [c, d] && [c, d] == [c] + [d] && [d] == [d] + [];
  }

  lemma RunCons(s: System, op: Op, ops: seq<Op>)
    ensures Run(s, [op] + ops).0 == Run(Step(s, op).0, ops).0
  {
    assert ([op] + ops)[1..] == ops;
  }
}
