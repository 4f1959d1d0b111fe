/** The strong and weak counts of one shared block (`_SharedWeakPtrContainer`), under any interleaving of
    threads.

    Every atomic increment, decrement, load and compare-exchange is a step of its own. A thread that is part
    way through an operation is in the set of the stage it has reached; a call made from inside another one,
    as when the destructor of the object lets go of a weak pointer, counts as a thread of its own. What a
    program has to keep to is in the Can predicates: a handle is not released or moved while another thread
    reads it.
  */
module SharedPtr {
  type Thread = nat
  type Handle = nat

  /** The object in the block: not yet begun to be destroyed, inside its destructor, gone, or never there. */
  datatype Object = Live | Dying | Dead | Never

  datatype State = State(
    nWeak: int,
    nObj: int,
    life: Object,
    freed: bool,
    /** How often the destructor was entered and the memory given back. */
    destroys: nat,
    frees: nat,
    /** Handles that hold a reference and are not being released or moved out of. */
    strong: set<Handle>,
    weak: set<Handle>,
    /** The handle that a thread reads. */
    source: map<Thread, Handle>,
    /** Copying a strong handle: before the first increment, and between the two. */
    copyStart: set<Thread>,
    copyMid: set<Thread>,
    /** Making a weak handle from a strong or weak one. */
    weakStart: set<Thread>,
    /** Upgrading a weak handle: before the load, with the value loaded, and with the strong count taken. */
    upStart: set<Thread>,
    upTry: map<Thread, int>,
    upMid: set<Thread>,
    /** The same from a weak handle that is given up. */
    moveStart: set<Thread>,
    moveTry: map<Thread, int>,
    moveMid: set<Thread>,
    /** Releasing a strong handle: before the strong count drops, inside the destructor, before the weak count
        drops; releasing a weak handle; about to free. */
    dropStrong: set<Thread>,
    destroying: set<Thread>,
    dropWeak: set<Thread>,
    freeing: set<Thread>
  )

  predicate Idle(s: State, t: Thread) {
    && t !in s.source && t !in s.copyStart && t !in s.copyMid && t !in s.weakStart && t !in s.upStart && t !in s.upTry && t !in s.upMid
    && t !in s.moveStart && t !in s.moveTry && t !in s.moveMid
    && t !in s.dropStrong && t !in s.destroying && t !in s.dropWeak && t !in s.freeing
  }

  predicate Read(s: State, h: Handle) {
    h in s.source.Values
  }

  predicate New(s: State, n: Handle) {
    n !in s.strong && n !in s.weak
  }

  // Copies: `_AddRefStrongNoThrow`, `_AddRefWeakNoThrow`, and moves between handles of one kind

  datatype Copy =
    | CopyStrong(t: Thread, h: Handle)
    | CopyWeakUp(t: Thread)
    | CopyObjUp(t: Thread, n: Handle)
    | MakeWeak(t: Thread, h: Handle)
    | MakeWeakUp(t: Thread, n: Handle)
    | MoveStrong(h: Handle, n: Handle)
    | MoveWeak(h: Handle, n: Handle)

  predicate CanCopy(s: State, a: Copy) {
    match a
    case CopyStrong(t, h) => Idle(s, t) && h in s.strong
    case CopyWeakUp(t) => t in s.copyStart
    case CopyObjUp(t, n) => t in s.copyMid && New(s, n)
    case MakeWeak(t, h) => Idle(s, t) && (h in s.strong || h in s.weak)
    case MakeWeakUp(t, n) => t in s.weakStart && New(s, n)
    case MoveStrong(h, n) => h in s.strong && !Read(s, h) && New(s, n)
    case MoveWeak(h, n) => h in s.weak && !Read(s, h) && New(s, n)
  }

  function DoCopy(s: State, a: Copy): State
    requires CanCopy(s, a)
  {
    match a
    case CopyStrong(t, h) => s.(copyStart := s.copyStart + {t}, source := s.source[t := h])
    case CopyWeakUp(t) => s.(nWeak := s.nWeak + 1, copyStart := s.copyStart - {t}, copyMid := s.copyMid + {t})
    case CopyObjUp(t, n) => s.(nObj := s.nObj + 1, copyMid := s.copyMid - {t}, source := s.source - {t}, strong := s.strong + {n})
    case MakeWeak(t, h) => s.(weakStart := s.weakStart + {t}, source := s.source[t := h])
    case MakeWeakUp(t, n) => s.(nWeak := s.nWeak + 1, weakStart := s.weakStart - {t}, source := s.source - {t}, weak := s.weak + {n})
    case MoveStrong(h, n) => s.(strong := s.strong - {h} + {n})
    case MoveWeak(h, n) => s.(weak := s.weak - {h} + {n})
  }

  // Upgrades: `_AddRefStrongOnly`, by the loop of FAtomicAddNotEqual, then `_AddRefWeakNoThrow`

  datatype Up =
    | UpStart(t: Thread, h: Handle)
    | UpLoad(t: Thread)
    | UpTake(t: Thread)
    | UpMiss(t: Thread)
    | UpFail(t: Thread)
    | UpWeakUp(t: Thread, n: Handle)

  predicate CanUp(s: State, a: Up) {
    match a
    case UpStart(t, h) => Idle(s, t) && h in s.weak
    case UpLoad(t) => t in s.upStart
    case UpTake(t) => t in s.upTry && s.upTry[t] != 0 && s.upTry[t] == s.nObj
    case UpMiss(t) => t in s.upTry && s.upTry[t] != 0
    case UpFail(t) => t in s.upTry && s.upTry[t] == 0
    case UpWeakUp(t, n) => t in s.upMid && New(s, n)
  }

  function DoUp(s: State, a: Up): State
    requires CanUp(s, a)
  {
    match a
    case UpStart(t, h) => s.(upStart := s.upStart + {t}, source := s.source[t := h])
    case UpLoad(t) => s.(upStart := s.upStart - {t}, upTry := s.upTry[t := s.nObj])
    case UpTake(t) => s.(nObj := s.nObj + 1, upTry := s.upTry - {t}, upMid := s.upMid + {t})
    case UpMiss(t) => s.(upTry := s.upTry[t := s.nObj])
    case UpFail(t) => s.(upTry := s.upTry - {t}, source := s.source - {t})
    case UpWeakUp(t, n) => s.(nWeak := s.nWeak + 1, upMid := s.upMid - {t}, source := s.source - {t}, strong := s.strong + {n})
  }

  // Upgrades from a weak handle that is given up: its weak count passes to the strong handle

  datatype Move =
    | MoveStart(t: Thread, h: Handle)
    | MoveLoad(t: Thread)
    | MoveTake(t: Thread)
    | MoveMiss(t: Thread)
    | MoveFail(t: Thread, h: Handle)
    | MoveDone(t: Thread, n: Handle)

  predicate CanMove(s: State, a: Move) {
    match a
    case MoveStart(t, h) => Idle(s, t) && h in s.weak && !Read(s, h)
    case MoveLoad(t) => t in s.moveStart
    case MoveTake(t) => t in s.moveTry && s.moveTry[t] != 0 && s.moveTry[t] == s.nObj
    case MoveMiss(t) => t in s.moveTry && s.moveTry[t] != 0
    case MoveFail(t, h) => t in s.moveTry && s.moveTry[t] == 0 && New(s, h)
    case MoveDone(t, n) => t in s.moveMid && New(s, n)
  }

  function DoMove(s: State, a: Move): State
    requires CanMove(s, a)
  {
    match a
    case MoveStart(t, h) => s.(weak := s.weak - {h}, moveStart := s.moveStart + {t})
    case MoveLoad(t) => s.(moveStart := s.moveStart - {t}, moveTry := s.moveTry[t := s.nObj])
    case MoveTake(t) => s.(nObj := s.nObj + 1, moveTry := s.moveTry - {t}, moveMid := s.moveMid + {t})
    case MoveMiss(t) => s.(moveTry := s.moveTry[t := s.nObj])
    case MoveFail(t, h) => s.(moveTry := s.moveTry - {t}, weak := s.weak + {h})
    case MoveDone(t, n) => s.(moveMid := s.moveMid - {t}, strong := s.strong + {n})
  }

  // Releases: `_DoReleaseStrong` and `_DoReleaseWeak`

  datatype Drop =
    | ReleaseStrong(t: Thread, h: Handle)
    | ObjDown(t: Thread)
    | ObjDownLast(t: Thread)
    | Destroyed(t: Thread)
    | ReleaseWeak(t: Thread, h: Handle)
    | WeakDown(t: Thread)
    | WeakDownLast(t: Thread)
    | Free(t: Thread)

  predicate CanDrop(s: State, a: Drop) {
    match a
    case ReleaseStrong(t, h) => Idle(s, t) && h in s.strong && !Read(s, h)
    case ObjDown(t) => t in s.dropStrong && s.nObj != 1
    case ObjDownLast(t) => t in s.dropStrong && s.nObj == 1
    case Destroyed(t) => t in s.destroying
    case ReleaseWeak(t, h) => Idle(s, t) && h in s.weak && !Read(s, h)
    case WeakDown(t) => t in s.dropWeak && s.nWeak != 1
    case WeakDownLast(t) => t in s.dropWeak && s.nWeak == 1
    case Free(t) => t in s.freeing
  }

  function DoDrop(s: State, a: Drop): State
    requires CanDrop(s, a)
  {
    match a
    case ReleaseStrong(t, h) => s.(strong := s.strong - {h}, dropStrong := s.dropStrong + {t})
    case ObjDown(t) => s.(nObj := s.nObj - 1, dropStrong := s.dropStrong - {t}, dropWeak := s.dropWeak + {t})
    case ObjDownLast(t) =>
      s.(nObj := 0, dropStrong := s.dropStrong - {t}, destroying := s.destroying + {t}, life := Dying, destroys := s.destroys + 1)
    case Destroyed(t) => s.(destroying := s.destroying - {t}, life := Dead, dropWeak := s.dropWeak + {t})
    case ReleaseWeak(t, h) => s.(weak := s.weak - {h}, dropWeak := s.dropWeak + {t})
    case WeakDown(t) => s.(nWeak := s.nWeak - 1, dropWeak := s.dropWeak - {t})
    case WeakDownLast(t) => s.(nWeak := 0, dropWeak := s.dropWeak - {t}, freeing := s.freeing + {t})
    case Free(t) => s.(freeing := s.freeing - {t}, freed := true, frees := s.frees + 1)
  }

  datatype Action = Copying(c: Copy) | Upgrading(u: Up) | Moving(m: Move) | Dropping(d: Drop)

  predicate Can(s: State, a: Action) {
    match a
    case Copying(c) => CanCopy(s, c)
    case Upgrading(u) => CanUp(s, u)
    case Moving(m) => CanMove(s, m)
    case Dropping(d) => CanDrop(s, d)
  }

  function Do(s: State, a: Action): State
    requires Can(s, a)
  {
    match a
    case Copying(c) => DoCopy(s, c)
    case Upgrading(u) => DoUp(s, u)
    case Moving(m) => DoMove(s, m)
    case Dropping(d) => DoDrop(s, d)
  }

  // What every interleaving keeps

  /** The weak count counts the strong handles, the weak handles and the operations that hold a weak count of
      their own; the strong count likewise. */
  ghost predicate Counts(s: State) {
    && s.nWeak == |s.strong| + |s.weak| + |s.copyMid| + |s.moveStart| + |s.moveTry| + |s.moveMid|
                  + |s.dropStrong| + |s.destroying| + |s.dropWeak|
    && s.nObj == |s.strong| + |s.upMid| + |s.moveMid| + |s.dropStrong|
  }

  /** A thread is part way through one thing at a time. */
  ghost predicate Single(s: State) {
    && s.copyStart !! s.copyMid !! s.weakStart !! s.upStart !! s.upTry.Keys !! s.upMid
    && s.moveStart !! s.moveTry.Keys !! s.moveMid
    && s.dropStrong !! s.destroying !! s.dropWeak !! s.freeing
  }

  /** The handles that operations read are there. */
  ghost predicate Sources(s: State) {
    && s.strong !! s.weak
    && (forall t :: t in s.copyStart || t in s.copyMid ==> t in s.source && s.source[t] in s.strong)
    && (forall t :: t in s.weakStart ==> t in s.source && (s.source[t] in s.strong || s.source[t] in s.weak))
    && (forall t :: t in s.upStart || t in s.upTry || t in s.upMid ==> t in s.source && s.source[t] in s.weak)
  }

  /** The object is there exactly while the strong count is not 0, and its destructor is entered once. A loaded
      count of 0 is still the count. */
  ghost predicate Life(s: State) {
    && (s.nObj > 0 <==> s.life == Live)
    && |s.destroying| == (if s.life == Dying then 1 else 0)
    && s.destroys == (if s.life == Dying || s.life == Dead then 1 else 0)
    && (forall t :: t in s.upTry && s.upTry[t] == 0 ==> s.nObj == 0)
    && (forall t :: t in s.moveTry && s.moveTry[t] == 0 ==> s.nObj == 0)
  }

  /** The memory is given back once, by the thread that took the weak count to 0. */
  ghost predicate Memory(s: State) {
    && |s.freeing| + s.frees == (if s.nWeak == 0 then 1 else 0)
    && (s.freed <==> s.frees > 0)
  }

  ghost predicate Inv(s: State) {
    Counts(s) && Single(s) && Sources(s) && Life(s) && Memory(s)
  }

  lemma Card<T>(s: set<T>, x: T)
    ensures |s + {x}| == |s| + if x in s then 0 else 1
    ensures |s - {x}| == |s| - if x in s then 1 else 0
  {
    if x in s {
      assert s + {x} == s;
    }
  }

  lemma MapCard<K, V>(m: map<K, V>, k: K, v: V)
    ensures |m[k := v]| == |m| + if k in m then 0 else 1
    ensures |m - {k}| == |m| - if k in m then 1 else 0
  {
    assert m[k := v].Keys == m.Keys + {k};
    assert (m - {k}).Keys == m.Keys - {k};
    Card(m.Keys, k);
  }

  lemma Nonempty<T>(s: set<T>, x: T)
    ensures x in s ==> |s| > 0
  {
  }

  lemma CopyCounts(s: State, a: Copy)
    requires Single(s) && Counts(s) && CanCopy(s, a)
    ensures Counts(DoCopy(s, a))
  {
    match a
    case CopyStrong(t, h) =>
    case CopyWeakUp(t) => Card(s.copyMid, t);
    case CopyObjUp(t, n) => Card(s.copyMid, t); Card(s.strong, n);
    case MakeWeak(t, h) =>
    case MakeWeakUp(t, n) => Card(s.weak, n);
    case MoveStrong(h, n) => Card(s.strong, h); Card(s.strong - {h}, n);
    case MoveWeak(h, n) => Card(s.weak, h); Card(s.weak - {h}, n);
  }

  lemma CopySources(s: State, a: Copy)
    requires Single(s) && Sources(s) && CanCopy(s, a)
    ensures Single(DoCopy(s, a)) && Sources(DoCopy(s, a))
  {
  }

  lemma CopyLife(s: State, a: Copy)
    requires Counts(s) && Single(s) && Sources(s) && Life(s) && CanCopy(s, a)
    ensures Life(DoCopy(s, a))
  {
    if a.CopyObjUp? {
      Nonempty(s.strong, s.source[a.t]);
    }
  }

  lemma CopyMemory(s: State, a: Copy)
    requires Counts(s) && Single(s) && Sources(s) && Memory(s) && CanCopy(s, a)
    ensures Memory(DoCopy(s, a))
  {
    if a.CopyWeakUp? || a.MakeWeakUp? {
      Nonempty(s.strong, s.source[a.t]);
      Nonempty(s.weak, s.source[a.t]);
    }
  }

  lemma UpCounts(s: State, a: Up)
    requires Single(s) && Counts(s) && CanUp(s, a)
    ensures Counts(DoUp(s, a))
  {
    match a
    case UpStart(t, h) =>
    case UpLoad(t) =>
    case UpTake(t) => Card(s.upMid, t);
    case UpMiss(t) =>
    case UpFail(t) =>
    case UpWeakUp(t, n) => Card(s.upMid, t); Card(s.strong, n);
  }

  lemma UpSources(s: State, a: Up)
    requires Single(s) && Sources(s) && CanUp(s, a)
    ensures Single(DoUp(s, a)) && Sources(DoUp(s, a))
  {
  }

  lemma UpLife(s: State, a: Up)
    requires Counts(s) && Single(s) && Sources(s) && Life(s) && CanUp(s, a)
    ensures Life(DoUp(s, a))
  {
    match a
    case UpStart(t, h) =>
    case UpLoad(t) => LoadLife(s, t);
    case UpTake(t) => TakeLife(s, t);
    case UpMiss(t) => MissLife(s, t);
    case UpFail(t) => FailLife(s, t);
    case UpWeakUp(t, n) =>
  }

  lemma LoadLife(s: State, t: Thread)
    requires Life(s) && CanUp(s, UpLoad(t))
    ensures Life(DoUp(s, UpLoad(t)))
  {
  }

  lemma MissLife(s: State, t: Thread)
    requires Life(s) && CanUp(s, UpMiss(t))
    ensures Life(DoUp(s, UpMiss(t)))
  {
  }

  lemma FailLife(s: State, t: Thread)
    requires Life(s) && CanUp(s, UpFail(t))
    ensures Life(DoUp(s, UpFail(t)))
  {
  }

  lemma TakeLife(s: State, t: Thread)
    requires Counts(s) && Life(s) && CanUp(s, UpTake(t))
    ensures Life(DoUp(s, UpTake(t)))
  {
    assert s.nObj > 0;
  }

  lemma UpMemory(s: State, a: Up)
    requires Counts(s) && Single(s) && Sources(s) && Memory(s) && CanUp(s, a)
    ensures Memory(DoUp(s, a))
  {
    if a.UpWeakUp? {
      Nonempty(s.weak, s.source[a.t]);
    }
  }

  lemma MoveCounts(s: State, a: Move)
    requires Single(s) && Counts(s) && CanMove(s, a)
    ensures Counts(DoMove(s, a))
  {
    match a
    case MoveStart(t, h) => Card(s.weak, h); Card(s.moveStart, t);
    case MoveLoad(t) => Card(s.moveStart, t); MapCard(s.moveTry, t, s.nObj);
    case MoveTake(t) => Card(s.moveMid, t); MapCard(s.moveTry, t, 0);
    case MoveMiss(t) => MapCard(s.moveTry, t, s.nObj);
    case MoveFail(t, h) => Card(s.weak, h); MapCard(s.moveTry, t, 0);
    case MoveDone(t, n) => Card(s.moveMid, t); Card(s.strong, n);
  }

  lemma MoveSources(s: State, a: Move)
    requires Single(s) && Sources(s) && CanMove(s, a)
    ensures Single(DoMove(s, a)) && Sources(DoMove(s, a))
  {
  }

  lemma MoveLife(s: State, a: Move)
    requires Counts(s) && Single(s) && Sources(s) && Life(s) && CanMove(s, a)
    ensures Life(DoMove(s, a))
  {
  }

  lemma MoveMemory(s: State, a: Move)
    requires Counts(s) && Single(s) && Sources(s) && Memory(s) && CanMove(s, a)
    ensures Memory(DoMove(s, a))
  {
  }

  lemma DropCounts(s: State, a: Drop)
    requires Single(s) && Counts(s) && CanDrop(s, a)
    ensures Counts(DoDrop(s, a))
  {
    match a
    case ReleaseStrong(t, h) => Card(s.strong, h); Card(s.dropStrong, t);
    case ObjDown(t) => Card(s.dropStrong, t); Card(s.dropWeak, t);
    case ObjDownLast(t) => Card(s.dropStrong, t); Card(s.destroying, t);
    case Destroyed(t) => Card(s.destroying, t); Card(s.dropWeak, t);
    case ReleaseWeak(t, h) => Card(s.weak, h); Card(s.dropWeak, t);
    case WeakDown(t) => Card(s.dropWeak, t);
    case WeakDownLast(t) => Card(s.dropWeak, t);
    case Free(t) =>
  }

  lemma DropSources(s: State, a: Drop)
    requires Single(s) && Sources(s) && CanDrop(s, a)
    ensures Single(DoDrop(s, a)) && Sources(DoDrop(s, a))
  {
  }

  lemma DropLife(s: State, a: Drop)
    requires Counts(s) && Single(s) && Sources(s) && Life(s) && CanDrop(s, a)
    ensures Life(DoDrop(s, a))
  {
    match a
    case ObjDownLast(t) => Card(s.destroying, t);
    case Destroyed(t) => Card(s.destroying, t);
    case _ =>
  }

  lemma DropMemory(s: State, a: Drop)
    requires Counts(s) && Single(s) && Sources(s) && Memory(s) && CanDrop(s, a)
    ensures Memory(DoDrop(s, a))
  {
    match a
    case WeakDownLast(t) => Card(s.freeing, t);
    case Free(t) => Card(s.freeing, t);
    case _ =>
  }

  /** Every step of every thread keeps all of it. */
  lemma StepKeeps(s: State, a: Action)
    requires Inv(s) && Can(s, a)
    ensures Inv(Do(s, a))
  {
    match a
    case Copying(c) =>
      CopyCounts(s, c);
      CopySources(s, c);
      CopyLife(s, c);
      CopyMemory(s, c);
    case Upgrading(u) =>
      UpCounts(s, u);
      UpSources(s, u);
      UpLife(s, u);
      UpMemory(s, u);
    case Moving(m) =>
      MoveCounts(s, m);
      MoveSources(s, m);
      MoveLife(s, m);
      MoveMemory(s, m);
    case Dropping(d) =>
      DropCounts(s, d);
      DropSources(s, d);
      DropLife(s, d);
      DropMemory(s, d);
  }

  // Runs

  /** A new block with its object, held by one strong handle, and one that never holds an object, held by one
      weak handle. */
  function Created(h: Handle): State {
    State(1, 1, Live, false, 0, 0, {h}, {}, map[], {}, {}, {}, {}, map[], {}, {}, map[], {}, {}, {}, {}, {})
  }

  function CreatedWeak(h: Handle): State {
    State(1, 0, Never, false, 0, 0, {}, {h}, map[], {}, {}, {}, {}, map[], {}, {}, map[], {}, {}, {}, {}, {})
  }

  /** The steps `as` lead from `s` to `r`. */
  ghost predicate Leads(s: State, as': seq<Action>, r: State)
    decreases |as'|
  {
    if as' == [] then r == s else Can(s, as'[0]) && Leads(Do(s, as'[0]), as'[1..], r)
  }

  lemma {:induction false} RunKeeps(s: State, as': seq<Action>, r: State)
    requires Inv(s) && Leads(s, as', r)
    ensures Inv(r)
    decreases |as'|
  {
    if as' != [] {
      StepKeeps(s, as'[0]);
      RunKeeps(Do(s, as'[0]), as'[1..], r);
    }
  }

  ghost predicate Reachable(s: State) {
    exists h, as' :: Leads(Created(h), as', s) || Leads(CreatedWeak(h), as', s)
  }

  lemma ReachableInv(s: State)
    requires Reachable(s)
    ensures Inv(s)
  {
    var h, as' :| Leads(Created(h), as', s) || Leads(CreatedWeak(h), as', s);
    if Leads(Created(h), as', s) {
      RunKeeps(Created(h), as', s);
    } else {
      RunKeeps(CreatedWeak(h), as', s);
    }
  }

  /** The steps that read or write the block. */
  predicate Touches(a: Action) {
    match a
    case Copying(c) => c.CopyWeakUp? || c.CopyObjUp? || c.MakeWeakUp?
    case Upgrading(u) => u.UpLoad? || u.UpTake? || u.UpMiss? || u.UpWeakUp?
    case Moving(m) => m.MoveLoad? || m.MoveTake? || m.MoveMiss?
    case Dropping(d) => !d.ReleaseStrong? && !d.ReleaseWeak?
  }

  lemma Members(s: State)
    requires Inv(s) && s.nWeak == 0
    ensures s.strong == {} && s.weak == {} && s.copyMid == {} && s.moveStart == {} && s.moveTry == map[] && s.moveMid == {}
    ensures s.dropStrong == {} && s.destroying == {} && s.dropWeak == {}
    ensures s.copyStart == {} && s.weakStart == {} && s.upStart == {} && s.upTry == map[] && s.upMid == {}
  {
    if s.upTry != map[] {
      var t :| t in s.upTry;
    }
  }

  /** No step touches the block after it has been freed. */
  lemma NoUseAfterFree(s: State, a: Action)
    requires Reachable(s) && Can(s, a) && Touches(a)
    ensures !s.freed
  {
    ReachableInv(s);
    if s.freed {
      Members(s);
    }
  }

  /** The memory is freed at most once, after the destructor has ended and the last handle has gone. */
  lemma FreedOnce(s: State)
    requires Reachable(s)
    ensures s.frees <= 1 && (s.freed <==> s.frees == 1)
    ensures s.freed || s.freeing != {} ==>
      s.nWeak == 0 && s.strong == {} && s.weak == {} && s.destroying == {} && (s.life == Dead || s.life == Never)
  {
    ReachableInv(s);
    if s.nWeak == 0 {
      Members(s);
    }
  }

  /** The object lives as long as there is a strong handle, and its destructor is entered exactly by the step
      that takes the strong count from 1 to 0. */
  lemma DestroyedOnce(s: State, a: Action)
    requires Reachable(s) && Can(s, a)
    ensures s.strong != {} ==> s.life == Live
    ensures s.destroys <= 1 && (s.destroys == 1 <==> s.life == Dying || s.life == Dead)
    ensures Do(s, a).destroys == s.destroys + if s.nObj > 0 && Do(s, a).nObj == 0 then 1 else 0
    ensures s.nObj > 0 && Do(s, a).nObj == 0 ==> s.nObj == 1
  {
    ReachableInv(s);
    match a
    case Copying(c) => CopiesOnlyAdd(s, c);
    case Upgrading(u) => UpgradesOnlyAdd(s, u);
    case Moving(m) => MovesOnlyAdd(s, m);
    case Dropping(d) => DropsObject(s, d);
  }

  /** Steps that drop nothing only add to the strong count. */
  lemma CopiesOnlyAdd(s: State, c: Copy)
    requires CanCopy(s, c)
    ensures DoCopy(s, c).destroys == s.destroys && DoCopy(s, c).nObj >= s.nObj
  {
  }

  lemma UpgradesOnlyAdd(s: State, u: Up)
    requires CanUp(s, u)
    ensures DoUp(s, u).destroys == s.destroys && DoUp(s, u).nObj >= s.nObj
  {
  }

  lemma MovesOnlyAdd(s: State, m: Move)
    requires CanMove(s, m)
    ensures DoMove(s, m).destroys == s.destroys && DoMove(s, m).nObj >= s.nObj
  {
  }

  lemma DropsObject(s: State, d: Drop)
    requires Inv(s) && CanDrop(s, d)
    ensures DoDrop(s, d).destroys == s.destroys + if s.nObj > 0 && DoDrop(s, d).nObj == 0 then 1 else 0
    ensures s.nObj > 0 && DoDrop(s, d).nObj == 0 ==> s.nObj == 1
  {
  }

  /** Once the strong count is 0 it stays 0. */
  lemma ZeroStays(s: State, a: Action)
    requires Reachable(s) && Can(s, a) && s.nObj == 0
    ensures Do(s, a).nObj == 0
  {
    ReachableInv(s);
    StepKeeps(s, a);
  }

  /** An upgrade gives up only when there is no object to hold, and yields a handle only while there is one. */
  lemma UpgradesTell(s: State, a: Up)
    requires Reachable(s) && CanUp(s, a)
    ensures a.UpFail? ==> s.life != Live
    ensures a.UpWeakUp? ==> s.life == Live
  {
    ReachableInv(s);
    if a.UpWeakUp? {
      Nonempty(s.upMid, a.t);
    }
  }

  lemma MovesTell(s: State, a: Move)
    requires Reachable(s) && CanMove(s, a)
    ensures a.MoveFail? ==> s.life != Live
    ensures a.MoveDone? ==> s.life == Live
  {
    ReachableInv(s);
    if a.MoveDone? {
      Nonempty(s.moveMid, a.t);
    }
  }

  /** When nothing is under way and no handle is left, the object is gone and the memory has been freed. */
  lemma NothingLeaks(s: State)
    requires Reachable(s) && s.strong == {} && s.weak == {} && forall t :: Idle(s, t)
    ensures s.freed && s.life != Live && s.life != Dying
  {
    ReachableInv(s);
    Quiet(s);
  }

  lemma Quiet(s: State)
    requires forall t :: Idle(s, t)
    ensures s.copyMid == s.moveStart == s.moveTry.Keys == s.moveMid == s.dropStrong == s.destroying == s.dropWeak == s.freeing
    ensures s.freeing == s.upMid == {}
  {
    forall t
      ensures t !in s.copyMid && t !in s.moveStart && t !in s.moveTry && t !in s.moveMid && t !in s.dropStrong
      ensures t !in s.destroying && t !in s.dropWeak && t !in s.freeing && t !in s.upMid
    {
      assert Idle(s, t);
    }
  }

  // The weak count against the strong count, which `AssertValid` compares

  /** How many operations hold a strong count without a weak one, and the other way round. */
  ghost function Ahead(s: State): int {
    |s.upMid|
  }

  ghost function Behind(s: State): int {
    |s.weak| + |s.copyMid| + |s.moveStart| + |s.moveTry| + |s.destroying| + |s.dropWeak|
  }

  /** The exact difference, and so exactly when the weak count is at least the strong one. */
  lemma WeakMinusStrong(s: State)
    requires Reachable(s)
    ensures s.nWeak - s.nObj == Behind(s) - Ahead(s)
    ensures s.nWeak >= s.nObj <==> Ahead(s) <= Behind(s)
  {
    ReachableInv(s);
  }

  /** While no two threads upgrade copies of the same weak handle, the weak count is at least the strong one. */
  lemma WeakCoversStrong(s: State)
    requires Reachable(s)
    requires forall t, u :: t in s.upMid && u in s.upMid && t in s.source && u in s.source && s.source[t] == s.source[u] ==> t == u
    ensures s.nWeak >= s.nObj
  {
    ReachableInv(s);
    Injective(s.upMid, s.source, s.weak);
  }

  lemma {:induction false} Injective(ts: set<Thread>, f: map<Thread, Handle>, hs: set<Handle>)
    requires forall t :: t in ts ==> t in f && f[t] in hs
    requires forall t, u :: t in ts && u in ts && f[t] == f[u] ==> t == u
    ensures |ts| <= |hs|
    decreases ts
  {
    if t :| t in ts {
      Injective(ts - {t}, f, hs - {f[t]});
    }
  }

  /** One more step. */
  lemma {:induction false} LeadsNext(s: State, as': seq<Action>, r: State, a: Action)
    requires Leads(s, as', r) && Can(r, a)
    ensures Leads(s, as' + [a], Do(r, a))
    decreases |as'|
  {
    var more := as' + [a];
    if as' == [] {
      assert more[1..] == [];
    } else {
      assert more[0] == as'[0] && more[1..] == as'[1..] + [a];
      LeadsNext(Do(s, as'[0]), as'[1..], r, a);
    }
  }

  lemma Onward(s: State, a: Action)
    requires Reachable(s) && Can(s, a)
    ensures Reachable(Do(s, a))
  {
    var h, as' :| Leads(Created(h), as', s) || Leads(CreatedWeak(h), as', s);
    if Leads(Created(h), as', s) {
      LeadsNext(Created(h), as', s, a);
      assert Leads(Created(h), as' + [a], Do(s, a));
    } else {
      LeadsNext(CreatedWeak(h), as', s, a);
      assert Leads(CreatedWeak(h), as' + [a], Do(s, a));
    }
  }

  /** Two threads that do can bring the strong count above the weak count: it is then 3 against 2. */
  lemma StrongAboveWeak()
    ensures exists s :: Reachable(s) && s.nObj == 3 && s.nWeak == 2
  {
    var s0 := Created(0);
    assert Leads(s0, [], s0);
    Onward(s0, Copying(MakeWeak(0, 0)));
    var s1 := Do(s0, Copying(MakeWeak(0, 0)));
    Onward(s1, Copying(MakeWeakUp(0, 1)));
    var s2 := Do(s1, Copying(MakeWeakUp(0, 1)));
    Taken(s2, 1, 1);
    var s3 := DoUp(DoUp(DoUp(s2, UpStart(1, 1)), UpLoad(1)), UpTake(1));
    Taken(s3, 2, 1);
    var s4 := DoUp(DoUp(DoUp(s3, UpStart(2, 1)), UpLoad(2)), UpTake(2));
    assert Reachable(s4);
  }

  /** A thread that is not disturbed takes the strong count. */
  lemma Taken(s: State, t: Thread, h: Handle)
    requires Reachable(s) && Idle(s, t) && h in s.weak && s.nObj > 0
    ensures CanUp(s, UpStart(t, h))
    ensures var s1 := DoUp(s, UpStart(t, h));
      CanUp(s1, UpLoad(t))
      && var s2 := DoUp(s1, UpLoad(t));
      CanUp(s2, UpTake(t))
      && var s3 := DoUp(s2, UpTake(t));
      Reachable(s3) && s3.nObj == s.nObj + 1 && s3.nWeak == s.nWeak && s3.weak == s.weak
      && forall u :: u != t && Idle(s, u) ==> Idle(s3, u)
  {
    Onward(s, Upgrading(UpStart(t, h)));
    var s1 := DoUp(s, UpStart(t, h));
    Onward(s1, Upgrading(UpLoad(t)));
    var s2 := DoUp(s1, UpLoad(t));
    Onward(s2, Upgrading(UpTake(t)));
  }
}
