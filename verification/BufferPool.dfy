/** The buffer pool: a write-back page cache over the disk, with pins, page latches and LRU-K eviction. */
module BufferPool {
  import opened Wrappers
  import opened Bytes
  import opened LruK
  import opened PoolTheory

  function Zero(): Image {
    Image(seq(PAGE_SIZE, i => 0))
  }

  function FrameSet(n: nat): (fs: set<nat>)
    ensures forall f {:trigger f in fs} :: f in fs <==> 0 <= f < n
  {
    if n == 0 then {} else FrameSet(n - 1) + {n - 1}
  }

  datatype PoolError = EvictorFailed(cause: EvictorError) | StorageFailed

  class BufferPool {
    const policy: Evictor
    var frames: seq<Image>
    var pins: seq<nat>
    var meta: seq<FrameMeta>
    var vacant: set<nat>
    var lmap: map<LPageId, nat>
    var pmap: map<PPageId, nat>
    var disk: map<PPageId, Image>
    var dir: map<LPageId, PPageId>

    ghost var view: map<PPageId, Image>
    ghost var touched: set<nat>
    ghost var guards: multiset<Guard>
    ghost var permanent: seq<nat>

    /** The pool as a value. */
    ghost function State(): Pool
      reads this
    {
      Pool(frames, meta, vacant, lmap, pmap, disk)
    }

    ghost predicate Valid()
      reads this, policy
    {
      && policy.Valid()
      && Mapped(State()) && Synced(State(), view, touched)
      && Pinned(meta, pins, guards, permanent) && Tracked(meta, pins, policy.state)
      && Placed(dir, view.Keys, meta)
    }

    /** Pages whose last change was never marked dirty. */
    ghost function Unmarked(): set<PPageId>
      requires Valid()
      reads this, policy
    {
      set p | p in pmap && pmap[p] in touched
    }

    /** No page changes, except that an unmarked one may revert; held frames stay as they are. */
    twostate predicate Keeps()
      reads this
    {
      && dir == old(dir) && permanent == old(permanent)
      && SamePages(old(view), view, old(pmap), old(touched)) && SameHeld(old(State()), State(), old(pins))
    }

    constructor (n: nat, k: nat, disk: map<PPageId, Image>, dir: map<LPageId, PPageId>)
      requires forall l :: l in dir ==> dir[l] in disk
      requires forall l, m {:trigger dir[l], dir[m]} :: l in dir && m in dir && dir[l] == dir[m] ==> l == m
      ensures Valid() && fresh(policy) && view == disk && this.dir == dir && guards == multiset{} && policy.k == k
      ensures lmap == map[] && pmap == map[]
    {
      policy := new Evictor(k);
      frames := seq(n, i => Zero());
      pins, meta := seq(n, i => 0), seq(n, i => Vacant);
      vacant := FrameSet(n);
      lmap, pmap, this.disk, this.dir := map[], map[], disk, dir;
      view, touched, guards, permanent := disk, {}, multiset{}, seq(n, i => 0);
    }

    /** Pins are counted in one byte, which wraps. */
    method IncrPin(f: nat)
      requires policy.Valid() && f < |pins| && pins[f] < 256
      modifies this`pins, policy
      ensures pins == old(pins)[f := (old(pins)[f] + 1) % 256]
      ensures policy.Valid() && policy.clock == old(policy.clock)
      ensures old(pins)[f] > 0 ==> policy.state == old(policy.state)
      ensures old(pins)[f] == 0 ==> policy.state.Keys == old(policy.state.Keys) + {f} && !policy.state[f].evictable
      ensures forall g :: g in old(policy.state) && g != f ==> policy.state[g] == old(policy.state)[g]
      ensures SamePast(old(policy.trace), policy.trace)
    {
      var was := pins[f];
      pins := pins[f := (was + 1) % 256];
      if was == 0 { policy.SetEvictable(f, false); }
    }

    method DecrPin(f: nat)
      requires policy.Valid() && f < |pins| && pins[f] < 256
      modifies this`pins, policy
      ensures pins == old(pins)[f := (old(pins)[f] + 255) % 256]
      ensures policy.Valid() && policy.clock == old(policy.clock)
      ensures old(pins)[f] != 1 ==> policy.state == old(policy.state)
      ensures old(pins)[f] == 1 ==> policy.state.Keys == old(policy.state.Keys) + {f} && policy.state[f].evictable
      ensures forall g :: g in old(policy.state) && g != f ==> policy.state[g] == old(policy.state)[g]
      ensures SamePast(old(policy.trace), policy.trace)
    {
      var was := pins[f];
      pins := pins[f := (was + 255) % 256];
      if was == 1 { policy.SetEvictable(f, true); }
    }

    lemma Sizes()
      requires Valid()
      ensures |meta| == |frames| == |pins| == |permanent|
    {
    }

    lemma CandidateLoaded(f: nat)
      requires Valid() && f in policy.Candidates()
      ensures f < |meta| == |frames| == |pins| && meta[f].Loaded? && pins[f] == 0
      ensures Mapped(State())
    {
    }

    lemma VacantUntracked(f: nat)
      requires Valid() && f in vacant
      ensures Past(policy.trace, f) == []
    {
      assert FrameOk(State(), f);
    }

    /** A frame can be evicted exactly if it holds an unpinned page that was read while loaded, for k > 0. */
    lemma EvictableIff(f: nat)
      requires Valid() && f < |meta|
      ensures |meta| == |pins|
      ensures f in policy.Candidates() <==>
        meta[f].Loaded? && pins[f] == 0 && policy.k > 0 && Past(policy.trace, f) != []
    {
      policy.CandidateIff(f);
    }

    /** Write a frame back if dirty and forget its page. */
    method ForgetPage(f: nat)
      requires f < |meta| && f < |frames| && meta[f].Loaded?
      modifies this`meta, this`vacant, this`lmap, this`pmap, this`disk, this`view, this`touched
      ensures State() == Unload(old(State()), f)
      ensures view == ViewAfterUnload(old(State()), old(view), old(touched), f) && touched == old(touched) - {f}
    {
      ghost var s := State();
      view, touched := ViewAfterUnload(s, view, touched, f), touched - {f};
      var m := meta[f];
      if m.dirty { disk := disk[m.ppage := frames[f]]; }
      lmap, pmap := lmap - {m.lpage}, pmap - {m.ppage};
      meta, vacant := meta[f := Vacant], vacant + {f};
    }

    method UnloadFrame(f: nat)
      requires Valid() && f < |meta| == |frames| == |pins| && meta[f].Loaded? && pins[f] == 0
      modifies this`meta, this`vacant, this`lmap, this`pmap, this`disk, this`view, this`touched, policy
      ensures Valid() && Keeps() && policy.clock == old(policy.clock)
      ensures State() == Unload(old(State()), f)
      ensures PastBut(old(policy.trace), policy.trace, f) && Past(policy.trace, f) == []
    {
      hide Mapped, Synced, Clocked, Pinned, Tracked, Placed, SamePages, SameHeld;
      ghost var s := State();
      UnloadSynced(s, view, touched, f);
      UnloadKeeps(s, view, touched, pins, f);
      UnloadPinned(meta, pins, guards, permanent, f);
      UnloadTracked(meta, pins, policy.state, f);
      UnloadPlaced(dir, view.Keys, meta, f);
      ForgetPage(f);
      policy.RemoveFrame(f);
    }

    /** Write back and unload the frame the policy picks, if it picks one. */
    method Evict() returns (r: Result<(), EvictorError>, ghost v: nat)
      requires Valid()
      modifies this, policy
      ensures Valid() && Keeps() && pins == old(pins) && guards == old(guards) && policy.clock == old(policy.clock)
      ensures r.Err? <==> old(policy.Candidates()) == {}
      ensures r.Err? ==>
        State() == old(State()) && view == old(view) && touched == old(touched) && policy.state == old(policy.state)
      ensures r.Ok? ==>
        && policy.k > 0 && Accessed(old(policy.trace), old(policy.Candidates()))
        && Victim(old(policy.trace), policy.k, old(policy.Candidates()), v)
        && v < |old(meta)| == |old(frames)| && old(meta)[v].Loaded? && old(pins)[v] == 0
        && State() == Unload(old(State()), v)
      ensures r.Err? ==> SamePast(old(policy.trace), policy.trace)
      ensures r.Ok? ==> PastBut(old(policy.trace), policy.trace, v) && Past(policy.trace, v) == []
    {
      hide Mapped, Synced, Victim, Clocked, Pinned, Accessed, Tracked, Placed;
      v := 0;
      Sizes();
      var pick := policy.FindVictim();
      if pick.Err? { return Err(pick.error), 0; }
      var victim := pick.value;
      v := victim;
      VictimIn(policy.trace, policy.k, policy.Candidates(), victim);
      CandidateLoaded(victim);
      UnloadFrame(victim);
      return Ok(()), v;
    }

    /** A vacant frame, evicting if there is none. */
    method FindFrame() returns (r: Result<nat, EvictorError>)
      requires Valid()
      modifies this, policy
      ensures Valid() && Keeps() && pins == old(pins) && guards == old(guards) && policy.clock == old(policy.clock)
      ensures r.Err? <==> old(vacant) == {} && old(policy.Candidates()) == {}
      ensures r.Err? ==> State() == old(State()) && view == old(view) && touched == old(touched)
      ensures r.Ok? ==> r.value in vacant
      ensures lmap.Keys <= old(lmap.Keys) && pmap.Keys <= old(pmap.Keys)
      ensures r.Err? ==> SamePast(old(policy.trace), policy.trace)
      ensures r.Ok? ==> PastBut(old(policy.trace), policy.trace, r.value) && Past(policy.trace, r.value) == []
    {
      hide Mapped, Synced, LruK.Evictor.Valid, Pinned, Tracked, Placed, SamePages, Victim, Accessed;
      Sizes();
      KeepsNow();
      if vacant == {} {
        var e;
        ghost var v;
        e, v := Evict();
        if e.Err? { return Err(e.error); }
      }
      var f :| f in vacant;
      VacantUntracked(f);
      return Ok(f);
    }

    twostate lemma KeepsNow()
      requires Valid() && old(Valid())
      requires State() == old(State()) && view == old(view) && dir == old(dir) && permanent == old(permanent) &&
        pins == old(pins)
      ensures Keeps()
    {
      Sizes();
    }

    method Place(f: nat, l: LPageId, p: PPageId, b: Image)
      requires f < |meta| && f < |frames|
      modifies this`frames, this`meta, this`vacant, this`lmap, this`pmap
      ensures State() == Load(old(State()), f, l, p, b)
    {
      lmap := lmap[l := f];
      frames := frames[f := b];
      meta := meta[f := Loaded(l, p, false)];
      pmap := pmap[p := f];
      vacant := vacant - {f};
    }

    /** Pin a frame that holds, or is about to hold, a page. */
    method Claim(f: nat, ghost now: FrameMeta, write: bool) returns (g: Guard)
      requires policy.Valid() && Pinned(meta, pins, guards, permanent) && Tracked(meta, pins, policy.state)
      requires f < |meta| == |pins| && pins[f] < 255 && now.Loaded?
      requires guards[Guard(f, true)] == 0 && (write ==> guards[Guard(f, false)] == 0)
      modifies this`pins, this`guards, policy
      ensures policy.Valid() && policy.clock == old(policy.clock)
      ensures Pinned(meta[f := now], pins, guards, permanent) && Tracked(meta[f := now], pins, policy.state)
      ensures g == Guard(f, write) && guards == old(guards) + multiset{g} && pins == old(pins)[f := old(pins)[f] + 1]
      ensures SamePast(old(policy.trace), policy.trace)
    {
      hide Pinned, Tracked, LruK.Evictor.Valid;
      ghost var st := policy.state;
      PinGuard(meta, meta[f := now], pins, guards, permanent, f, write);
      IncrPin(f);
      PinTracked(meta, meta[f := now], old(pins), st, policy.state, f);
      g := Guard(f, write);
      guards := guards + multiset{g};
    }

    /** Read the page at a place from disk into a vacant frame, under an id, and pin it. The pool stays in order exactly
        if that id is not loaded and the directory agrees. */
    method Fill(f: nat, l: LPageId, p: PPageId, write: bool) returns (g: Guard)
      requires Valid() && f in vacant && p in view && p !in pmap
      modifies this, policy
      ensures policy.Valid() && policy.clock == old(policy.clock) && dir == old(dir) && permanent == old(permanent)
      ensures view == old(view) && touched == old(touched) && guards == old(guards) + multiset{g} &&
        g == Guard(f, write)
      ensures f < |old(meta)| == |old(frames)| == |old(pins)| && old(pins)[f] == 0
      ensures State() == Load(old(State()), f, l, p, view[p]) && pins == old(pins)[f := 1]
      ensures Valid() <==> l !in old(lmap) && Agrees(dir, l, p)
      ensures SamePast(old(policy.trace), policy.trace)
    {
      hide Mapped, Synced, LruK.Evictor.Valid, Pinned, Tracked, Placed, Agrees;
      Sizes();
      ghost var s := State();
      UnloadedOnDisk(p);
      VacantUnpinned(s, pins, guards, permanent, f);
      LoadMappedIff(s, f, l, p, view[p]);
      LoadPlacedIff(dir, view.Keys, meta, f, l, p);
      if l !in lmap { LoadSynced(s, view, touched, f, l, p); }
      g := Claim(f, Loaded(l, p, false), write);
      Place(f, l, p, disk[p]);
    }

    lemma UnloadedOnDisk(p: PPageId)
      requires Valid() && p in view && p !in pmap
      ensures p in disk && disk[p] == view[p]
    {
      assert PageSynced(State(), view, touched, p);
    }

    lemma PlacedAt(l: LPageId)
      requires Valid() && l in dir
      ensures dir[l] in view && dir[l] in disk
    {
    }

    // ---------------------------------------------------------------- fetching

    /** No live guard stands in the way of a new one on this frame, and its pin counter has room. */
    ghost predicate Open(f: nat, write: bool)
      reads this
    {
      && f < |pins| && pins[f] < 255
      && guards[Guard(f, true)] == 0 && (write ==> guards[Guard(f, false)] == 0)
    }

    /** The guard holds page `l` at place `p`, and the frame behind it shows what was last written there. */
    ghost predicate ShowsAt(g: Guard, l: LPageId, p: PPageId)
      reads this
    {
      && g.frame < |meta| && g.frame < |frames| && meta[g.frame].Loaded? && meta[g.frame].lpage == l
      && meta[g.frame].ppage == p && p in view && frames[g.frame] == view[p]
    }

    /** The guard holds page `l`, where the directory has it; an id not in the directory is a file header's. */
    ghost predicate Shows(g: Guard, l: LPageId)
      reads this
    {
      g.frame < |meta| && meta[g.frame].Loaded? && ShowsAt(g, l, meta[g.frame].ppage) &&
        (l in dir ==> meta[g.frame].ppage == dir[l])
    }

    lemma LoadedShows(l: LPageId)
      requires Valid() && l in lmap
      ensures Shows(Guard(lmap[l], false), l) && Shows(Guard(lmap[l], true), l)
    {
      var f := lmap[l];
      assert LOk(State(), l) && FrameOk(State(), f) && NamedAt(dir, view.Keys, meta[f]);
      assert PageSynced(State(), view, touched, meta[f].ppage);
    }

    lemma LoadedShowsAt(p: PPageId)
      requires Valid() && p in pmap
      ensures pmap[p] < |meta| && meta[pmap[p]].Loaded?
      ensures ShowsAt(Guard(pmap[p], false), meta[pmap[p]].lpage, p) &&
        ShowsAt(Guard(pmap[p], true), meta[pmap[p]].lpage, p)
    {
      assert POk(State(), p) && FrameOk(State(), pmap[p]);
      assert PageSynced(State(), view, touched, p);
    }

    /** Pin a loaded frame for a new guard. */
    method Hit(f: nat, write: bool) returns (g: Guard)
      requires Valid() && Open(f, write) && f < |meta| && meta[f].Loaded?
      modifies this`pins, this`guards, policy
      ensures Valid() && g == Guard(f, write) && guards == old(guards) + multiset{g}
      ensures pins == old(pins)[f := old(pins)[f] + 1]
      ensures policy.clock == old(policy.clock)
      ensures SamePast(old(policy.trace), policy.trace)
    {
      hide Mapped, Synced, LruK.Evictor.Valid, Pinned, Tracked, Placed;
      Sizes();
      assert meta[f := meta[f]] == meta;
      g := Claim(f, meta[f], write);
    }

    /** Take a frame for a page the directory does not know: by the time the read fails the frame is out of the
        vacant set, pinned and published, and nothing takes that back. */
    method Leak(f: nat, l: LPageId)
      requires Valid() && f in vacant && l !in dir && l !in lmap
      modifies this`vacant, this`pins, this`lmap, policy
      ensures f < |old(meta)| && f < |old(frames)| && State() == Attempt(old(State()), f, l, None, old(frames)[f])
      ensures f < |old(pins)| && pins == old(pins)[f := 1]
      ensures Leaked(State(), pins, l) && !Valid() && policy.Valid()
      ensures SamePast(old(policy.trace), policy.trace)
    {
      hide Synced, LruK.Evictor.Valid, Pinned, Tracked, Placed;
      Sizes();
      VacantUnpinned(State(), pins, guards, permanent, f);
      AttemptMappedIff(State(), f, l, None, frames[f]);
      vacant := vacant - {f};
      IncrPin(f);
      lmap := lmap[l := f];
    }

    /** A fetch that finds the id published looks no further: for a leaked id it succeeds, with whatever bytes the
        frame last held, and leaves the id leaked. */
    method FetchPublished(l: LPageId, write: bool) returns (g: Guard)
      requires policy.Valid() && l in lmap && lmap[l] < |pins| && pins[lmap[l]] < 255
      modifies this`pins, policy
      ensures policy.Valid() && g == Guard(lmap[l], write) && pins == old(pins)[lmap[l] := old(pins)[lmap[l]] + 1]
      ensures Leaked(State(), old(pins), l) ==> Leaked(State(), pins, l)
      ensures SamePast(old(policy.trace), policy.trace)
    {
      IncrPin(lmap[l]);
      g := Guard(lmap[l], write);
    }

    /** Load a page that is not in the pool. */
    method Miss(l: LPageId, write: bool) returns (r: Result<Guard, PoolError>)
      requires Valid() && l !in lmap
      modifies this, policy
      ensures dir == old(dir) &&
        (old(vacant) == {} && old(policy.Candidates()) == {} <==> r.Err? && r.error.EvictorFailed?)
      ensures r.Err? && r.error.EvictorFailed? ==> State() == old(State()) && pins == old(pins) && view == old(view)
      ensures l in dir || (r.Err? && r.error.EvictorFailed?) ==> Valid() && Keeps() && policy.clock == old(policy.clock)
      ensures r.Err? ==> guards == old(guards)
      ensures r.Err? && r.error.StorageFailed? <==> l !in dir && !(old(vacant) == {} && old(policy.Candidates()) == {})
      ensures r.Err? && r.error.StorageFailed? ==> Leaked(State(), pins, l) && !Valid()
      ensures r.Ok? ==> r.value.write == write && guards == old(guards) + multiset{r.value} && Shows(r.value, l)
      ensures r.Ok? ==> r.value.frame < |pins| && pins[r.value.frame] == 1
      ensures r.Err? && r.error.EvictorFailed? ==> SamePast(old(policy.trace), policy.trace)
      ensures r.Ok? ==>
        PastBut(old(policy.trace), policy.trace, r.value.frame) && Past(policy.trace, r.value.frame) == []
    {
      hide Mapped, Synced, LruK.Evictor.Valid, Pinned, Tracked, Placed, SamePages, SameHeld;
      var found := FindFrame();
      if found.Err? { return Err(EvictorFailed(found.error)); }
      ghost var s := State();
      if l !in dir {
        Leak(found.value, l);
        return Err(StorageFailed);
      }
      PlacedAt(l);
      MappedTwice(s, dir, view.Keys, l);
      DirAgrees(l);
      var g := Fill(found.value, l, dir[l], write);
      LoadKeeps(old(State()), s, old(pins), found.value, l, dir[l], view[dir[l]]);
      return Ok(g);
    }

    lemma DirAgrees(l: LPageId)
      requires Valid() && l in dir
      ensures Agrees(dir, l, dir[l])
    {
    }

    /** Load a page by its place, under the id in its header. The pool as it was when a frame had been found, `mid`,
        decides whether it stays in order: the id must not be loaded, and the directory must agree. */
    method MissAt(p: PPageId, write: bool) returns (r: Result<Guard, PoolError>, ghost mid: Pool)
      requires Valid() && p in view && p !in pmap
      modifies this, policy
      ensures dir == old(dir) && mid.lmap.Keys <= old(lmap.Keys) && p in old(disk)
      ensures r.Err? <==> old(vacant) == {} && old(policy.Candidates()) == {}
      ensures r.Err? ==> r.error.EvictorFailed? && Valid() && Keeps() && State() == old(State()) && view == old(view)
      ensures r.Err? ==> guards == old(guards) && policy.clock == old(policy.clock)
      ensures r.Ok? ==> policy.Valid() && policy.clock == old(policy.clock) && Keeps()
      ensures r.Ok? ==> r.value.write == write && guards == old(guards) + multiset{r.value}
      ensures r.Ok? ==>
        ShowsAt(r.value, HeaderId(old(disk)[p]), p) && r.value.frame < |pins| && pins[r.value.frame] == 1
      ensures r.Ok? ==> lmap.Keys == mid.lmap.Keys + {HeaderId(old(disk)[p])}
      ensures r.Ok? ==> (Valid() <==> HeaderId(old(disk)[p]) !in mid.lmap && Agrees(dir, HeaderId(old(disk)[p]), p))
      ensures r.Err? ==> SamePast(old(policy.trace), policy.trace)
      ensures r.Ok? ==>
        PastBut(old(policy.trace), policy.trace, r.value.frame) && Past(policy.trace, r.value.frame) == []
    {
      hide Mapped, Synced, LruK.Evictor.Valid, Pinned, Tracked, Placed, SameHeld, Agrees, HeaderId;
      UnloadedOnDisk(p);
      var found := FindFrame();
      mid := State();
      if found.Err? { return Err(EvictorFailed(found.error)), mid; }
      UnloadedOnDisk(p);
      assert p !in old(pmap) && view[p] == old(view)[p];
      var l := HeaderId(disk[p]);
      var g := Fill(found.value, l, p, write);
      LoadKeeps(old(State()), mid, old(pins), found.value, l, p, view[p]);
      return Ok(g), mid;
    }

    /** A page the directory knows is fetched unless every frame is pinned. One it does not know is refused, but not
        before a frame has leaked to it. */
    method FetchPageWrite(l: LPageId) returns (r: Result<Guard, PoolError>)
      requires Valid() && (l in lmap ==> Open(lmap[l], true))
      modifies this, policy
      ensures dir == old(dir)
      ensures r.Err? && r.error.EvictorFailed? <==>
        l !in old(lmap) && old(vacant) == {} && old(policy.Candidates()) == {}
      ensures r.Err? && r.error.EvictorFailed? ==> State() == old(State()) && view == old(view)
      ensures r.Err? && r.error.StorageFailed? <==>
        l !in dir && l !in old(lmap) && !(old(vacant) == {} && old(policy.Candidates()) == {})
      ensures r.Err? && r.error.StorageFailed? ==> Leaked(State(), pins, l) && !Valid()
      ensures !(r.Err? && r.error.StorageFailed?) ==> Valid() && Keeps()
      ensures r.Err? ==> guards == old(guards)
      ensures r.Ok? ==> r.value.write && guards == old(guards) + multiset{r.value} && Shows(r.value, l)
      ensures r.Err? && r.error.EvictorFailed? ==> SamePast(old(policy.trace), policy.trace)
      ensures r.Ok? ==> PastBut(old(policy.trace), policy.trace, r.value.frame)
      ensures r.Ok? ==>
        Past(policy.trace, r.value.frame) == if l in old(lmap) then Past(old(policy.trace), r.value.frame) else []
      ensures r.Ok? && l in old(lmap) ==> r.value.frame == old(lmap)[l]
    {
      hide Mapped, Synced, LruK.Evictor.Valid, Pinned, Tracked, Placed, SamePages;
      if l in lmap {
        Sizes();
        LoadedShows(l);
        var g := Hit(lmap[l], true);
        KeepsAfterHit();
        return Ok(g);
      }
      r := Miss(l, true);
    }

    twostate lemma KeepsAfterHit()
      requires old(Valid()) && State() == old(State()) && view == old(view) && dir == old(dir) &&
        permanent == old(permanent)
      ensures Keeps()
    {
    }

    /** Only a read that finds its page loaded is recorded as an access. */
    method FetchPageRead(l: LPageId) returns (r: Result<Guard, PoolError>)
      requires Valid() && (l in lmap ==> Open(lmap[l], false)) && policy.clock + 1 < USIZE_MAX
      modifies this, policy
      ensures dir == old(dir)
      ensures r.Err? && r.error.EvictorFailed? <==>
        l !in old(lmap) && old(vacant) == {} && old(policy.Candidates()) == {}
      ensures r.Err? && r.error.EvictorFailed? ==> State() == old(State()) && view == old(view)
      ensures r.Err? && r.error.StorageFailed? <==>
        l !in dir && l !in old(lmap) && !(old(vacant) == {} && old(policy.Candidates()) == {})
      ensures r.Err? && r.error.StorageFailed? ==> Leaked(State(), pins, l) && !Valid()
      ensures !(r.Err? && r.error.StorageFailed?) ==>
        Valid() && Keeps() && policy.clock == old(policy.clock) + if l in old(lmap) then 1 else 0
      ensures r.Err? ==> guards == old(guards)
      ensures r.Ok? ==> !r.value.write && guards == old(guards) + multiset{r.value} && Shows(r.value, l)
      ensures r.Ok? ==> r.value.frame < |pins|
      ensures r.Ok? ==> pins[r.value.frame] == if l in old(lmap) then old(pins)[old(lmap)[l]] + 1 else 1
      ensures r.Err? && r.error.EvictorFailed? ==> SamePast(old(policy.trace), policy.trace)
      ensures r.Ok? ==> PastBut(old(policy.trace), policy.trace, r.value.frame)
      ensures r.Ok? ==>
        Past(policy.trace, r.value.frame) ==
        if l in old(lmap) then Past(old(policy.trace), r.value.frame) + [old(policy.clock)] else []
      ensures r.Ok? && l in old(lmap) ==> r.value.frame == old(lmap)[l]
    {
      hide Mapped, Synced, LruK.Evictor.Valid, Pinned, Tracked, Placed, SamePages;
      if l in lmap {
        Sizes();
        LoadedShows(l);
        var g := Hit(lmap[l], false);
        Sizes();
        Access(g.frame);
        KeepsAfterHit();
        return Ok(g);
      }
      r := Miss(l, false);
    }

    method Access(f: nat)
      requires Valid() && f < |meta| && f < |pins| && meta[f].Loaded? && pins[f] > 0 && policy.clock + 1 < USIZE_MAX
      modifies policy
      ensures Valid() && policy.clock == old(policy.clock) + 1
      ensures PastBut(old(policy.trace), policy.trace, f)
      ensures Past(policy.trace, f) == Past(old(policy.trace), f) + [old(policy.clock)]
    {
      hide Mapped, Synced, Pinned, Tracked, Placed, Clocked, Histories;
      ghost var st := policy.state;
      policy.RecordAccess(f);
      AccessTracked(meta, pins, st, policy.state, f);
    }

    /** The page at a place, which is how file headers are fetched. It fails exactly for want of a frame. A page already
        loaded is shown as it is; otherwise it is loaded under the id in its header, and the pool stays in order exactly
        if that id is not loaded by then and the directory agrees. */
    method FetchPageAtLocWrite(p: PPageId) returns (r: Result<Guard, PoolError>, ghost l: LPageId, ghost mid: Pool)
      requires Valid() && p in view && (p in pmap ==> Open(pmap[p], true))
      modifies this, policy
      ensures Keeps() && mid.lmap.Keys <= old(lmap.Keys) && lmap.Keys <= old(lmap.Keys) + {l}
      ensures r.Err? <==> p !in old(pmap) && old(vacant) == {} && old(policy.Candidates()) == {}
      ensures r.Err? ==> Valid() && State() == old(State()) && view == old(view) && guards == old(guards)
      ensures r.Ok? ==> r.value.write && guards == old(guards) + multiset{r.value} && ShowsAt(r.value, l, p)
      ensures r.Ok? && p !in old(pmap) ==> p in old(disk) && l == HeaderId(old(disk)[p])
      ensures r.Ok? ==> (Valid() <==> p in old(pmap) || (l !in mid.lmap && Agrees(dir, l, p)))
      ensures r.Err? ==> SamePast(old(policy.trace), policy.trace)
      ensures r.Ok? ==> PastBut(old(policy.trace), policy.trace, r.value.frame)
      ensures r.Ok? ==>
        Past(policy.trace, r.value.frame) == if p in old(pmap) then Past(old(policy.trace), r.value.frame) else []
      ensures r.Ok? && p in old(pmap) ==> r.value.frame == old(pmap)[p]
    {
      hide Mapped, Synced, LruK.Evictor.Valid, Pinned, Tracked, Placed, SamePages, Agrees;
      l, mid := 0, State();
      if p in pmap {
        Sizes();
        LoadedShowsAt(p);
        l := meta[pmap[p]].lpage;
        var g := Hit(pmap[p], true);
        KeepsAfterHit();
        return Ok(g), l, mid;
      }
      UnloadedOnDisk(p);
      l := HeaderId(disk[p]);
      r, mid := MissAt(p, true);
    }

    method FetchPageAtLocRead(p: PPageId) returns (r: Result<Guard, PoolError>, ghost l: LPageId, ghost mid: Pool)
      requires Valid() && p in view && (p in pmap ==> Open(pmap[p], false)) && policy.clock + 1 < USIZE_MAX
      modifies this, policy
      ensures Keeps() && mid.lmap.Keys <= old(lmap.Keys) && lmap.Keys <= old(lmap.Keys) + {l}
      ensures r.Err? <==> p !in old(pmap) && old(vacant) == {} && old(policy.Candidates()) == {}
      ensures r.Err? ==> Valid() && State() == old(State()) && view == old(view) && guards == old(guards)
      ensures r.Ok? ==> !r.value.write && guards == old(guards) + multiset{r.value} && ShowsAt(r.value, l, p)
      ensures r.Ok? && p !in old(pmap) ==> p in old(disk) && l == HeaderId(old(disk)[p])
      ensures r.Ok? ==> (Valid() <==> p in old(pmap) || (l !in mid.lmap && Agrees(dir, l, p)))
      ensures r.Err? ==> SamePast(old(policy.trace), policy.trace)
      ensures r.Ok? ==> PastBut(old(policy.trace), policy.trace, r.value.frame)
      ensures r.Ok? ==>
        Past(policy.trace, r.value.frame) ==
        if p in old(pmap) then Past(old(policy.trace), r.value.frame) + [old(policy.clock)] else []
      ensures policy.clock == old(policy.clock) + if p in old(pmap) then 1 else 0
      ensures r.Ok? && p in old(pmap) ==> r.value.frame == old(pmap)[p]
    {
      hide Mapped, Synced, LruK.Evictor.Valid, Pinned, Tracked, Placed, SamePages, Agrees;
      l, mid := 0, State();
      if p in pmap {
        Sizes();
        LoadedShowsAt(p);
        l := meta[pmap[p]].lpage;
        var g := Hit(pmap[p], false);
        Sizes();
        Access(g.frame);
        KeepsAfterHit();
        return Ok(g), l, mid;
      }
      UnloadedOnDisk(p);
      l := HeaderId(disk[p]);
      r, mid := MissAt(p, false);
    }

    // ---------------------------------------------------------------- using guards

    /** Replace the page behind a write guard: that page now reads `b`, and no other page changes. */
    method WritePage(g: Guard, b: Image)
      requires Valid() && g in guards && g.write
      modifies this`frames, this`view, this`touched
      ensures Valid() && g.frame < |meta| && meta[g.frame].Loaded? && frames == old(frames)[g.frame := b]
      ensures view == old(view)[meta[g.frame].ppage := b]
      ensures touched == if meta[g.frame].dirty then old(touched) else old(touched) + {g.frame}
    {
      hide LruK.Evictor.Valid, Mapped, Synced, Pinned, Tracked, Placed;
      Sizes();
      ghost var s := State();
      UnpinGuard(meta, pins, guards, permanent, g);
      WriteSynced(s, view, touched, g.frame, b);
      WritePlaced(g.frame);
      assert view[meta[g.frame].ppage := b].Keys == view.Keys;
      view, touched := view[meta[g.frame].ppage := b], if meta[g.frame].dirty then touched else touched + {g.frame};
      frames := frames[g.frame := b];
    }

    lemma WritePlaced(f: nat)
      requires Placed(dir, view.Keys, meta) && f < |meta| && meta[f].Loaded?
      ensures meta[f].ppage in view
    {
      assert NamedAt(dir, view.Keys, meta[f]);
    }

    /** The page behind a write guard will be written back. */
    method MarkDirty(g: Guard)
      requires Valid() && g in guards && g.write
      modifies this`meta, this`touched
      ensures Valid() && g.frame < |old(meta)| && old(meta)[g.frame].Loaded?
      ensures State() == SetDirty(old(State()), g.frame, true) && touched == old(touched) - {g.frame}
    {
      hide LruK.Evictor.Valid, Mapped, Synced, Pinned, Tracked, Placed;
      Sizes();
      ghost var s := State();
      UnpinGuard(meta, pins, guards, permanent, g);
      var f := g.frame;
      MarkSynced(s, view, touched, f);
      var now := Loaded(meta[f].lpage, meta[f].ppage, true);
      DirtyPinned(meta, pins, guards, permanent, f, now);
      DirtyTracked(meta, pins, policy.state, f, now);
      DirtyPlaced(dir, view.Keys, meta, f, now);
      meta, touched := meta[f := now], touched - {f};
    }

    method Downgrade(g: Guard) returns (r: Guard)
      requires Valid() && g in guards && g.write
      modifies this`guards
      ensures Valid() && r == Guard(g.frame, false) && guards == old(guards) - multiset{g} + multiset{r}
    {
      hide LruK.Evictor.Valid, Mapped, Synced, Pinned, Tracked, Placed;
      DowngradePinned(meta, pins, guards, permanent, g.frame);
      r := Guard(g.frame, false);
      guards := guards - multiset{g} + multiset{r};
    }

    /** Dropping a guard takes its pin back and changes nothing else. With the last pin gone, a page that was read while
        loaded may be evicted. */
    method Drop(g: Guard)
      requires Valid() && g in guards
      modifies this`pins, this`guards, policy
      ensures Valid() && guards == old(guards) - multiset{g} && policy.clock == old(policy.clock)
      ensures g.frame < |old(pins)| && old(pins)[g.frame] > 0 && pins == old(pins)[g.frame := old(pins)[g.frame] - 1]
      ensures SamePast(old(policy.trace), policy.trace)
      ensures pins[g.frame] == 0 && policy.k > 0 && Past(policy.trace, g.frame) != [] ==>
        g.frame in policy.Candidates()
    {
      hide Mapped, Synced, LruK.Evictor.Valid, Pinned, Tracked, Placed;
      Sizes();
      ghost var st := policy.state;
      UnpinGuard(meta, pins, guards, permanent, g);
      DecrPin(g.frame);
      UnpinTracked(meta, old(pins), st, policy.state, g.frame);
      guards := guards - multiset{g};
      Sizes();
      EvictableIff(g.frame);
    }

    /** One more pin on a held frame, never taken back. */
    method PinForGood(g: Guard)
      requires Valid() && g in guards && g.frame < |pins| && pins[g.frame] < 255
      modifies this`pins, this`permanent, policy
      ensures Valid() && policy.clock == old(policy.clock)
      ensures g.frame < |old(permanent)| && permanent == old(permanent)[g.frame := old(permanent)[g.frame] + 1]
      ensures SamePast(old(policy.trace), policy.trace)
    {
      hide Mapped, Synced, LruK.Evictor.Valid, Pinned, Tracked, Placed;
      Sizes();
      var f := g.frame;
      ghost var st := policy.state;
      UnpinGuard(meta, pins, guards, permanent, g);
      PermanentPinned(meta, pins, guards, permanent, f);
      IncrPin(f);
      PinTracked(meta, meta, old(pins), st, policy.state, f);
      permanent := permanent[f := permanent[f] + 1];
    }

    lemma PermanentHeld(l: LPageId, f: nat)
      requires Valid() && f < |meta| && meta[f].Loaded? && meta[f].lpage == l
      ensures l in lmap && lmap[l] == f
    {
      assert FrameOk(State(), f);
    }

    /** A frame with a permanent pin holds a page, and is neither vacant nor up for eviction; its count covers the
        pin. */
    lemma PermanentStays(f: nat)
      requires Valid() && f < |permanent| && permanent[f] > 0
      ensures f < |meta| == |pins| && meta[f].Loaded? && permanent[f] <= pins[f] && f !in vacant &&
        f !in policy.Candidates()
    {
      assert FrameOk(State(), f) && PinOk(meta, pins, guards, permanent, f);
    }

    /** Pin a page for good. With the pins of other frames as they were, and held frames keeping their page under every
        call, the page stays loaded from here on. */
    method LoadPageAsUnevictable(l: LPageId) returns (r: Result<(), PoolError>)
      requires Valid() && l in dir && (l in lmap ==> Open(lmap[l], false) && pins[lmap[l]] < 254) &&
        policy.clock + 1 < USIZE_MAX
      modifies this, policy
      ensures Valid() && guards == old(guards) && dir == old(dir)
      ensures SamePages(old(view), view, old(pmap), old(touched)) && SameHeld(old(State()), State(), old(pins))
      ensures r.Err? <==> l !in old(lmap) && old(vacant) == {} && old(policy.Candidates()) == {}
      ensures r.Err? ==> State() == old(State()) && view == old(view) && permanent == old(permanent)
      ensures r.Ok? ==>
        l in lmap && lmap[l] < |old(permanent)| && permanent == old(permanent)[lmap[l] := old(permanent)[lmap[l]] + 1]
      ensures r.Ok? ==> lmap[l] < |meta| && meta[lmap[l]].Loaded? && meta[lmap[l]].lpage == l
      ensures r.Ok? ==> PastBut(old(policy.trace), policy.trace, lmap[l])
      ensures r.Ok? ==>
        Past(policy.trace, lmap[l]) ==
        if l in old(lmap) then Past(old(policy.trace), lmap[l]) + [old(policy.clock)] else []
    {
      hide Mapped, Synced, LruK.Evictor.Valid, Pinned, Tracked, Placed, SamePages, SameHeld;
      var g := FetchPageRead(l);
      if g.Err? { return Err(g.error); }
      PermanentHeld(l, g.value.frame);
      PinForGood(g.value);
      Drop(g.value);
      return Ok(());
    }

    // ---------------------------------------------------------------- new pages

    /** Register a page at a place on disk; what lies there is arbitrary. */
    method Register(l: LPageId, p: PPageId, blank: Image)
      requires Valid() && l !in dir && p !in view
      modifies this`dir, this`disk, this`view
      ensures Valid() <==> l !in lmap
      ensures dir == old(dir)[l := p] && disk == old(disk)[p := blank] && view == old(view)[p := blank]
      ensures p !in pmap
    {
      hide LruK.Evictor.Valid, Mapped, Synced, Pinned, Tracked, Placed;
      RegisterSynced(State(), view, touched, p, blank);
      RegisterPlacedIff(State(), dir, view.Keys, l, p);
      dir := dir[l := p];
      disk := disk[p := blank];
      view := view[p := blank];
      assert view.Keys == old(view.Keys) + {p};
    }

    /** Zero a vacant frame for a new page. */
    method FillNew(f: nat, l: LPageId, p: PPageId) returns (g: Guard)
      requires Valid() && f in vacant && l in dir && dir[l] == p && l !in lmap
      modifies this, policy
      ensures Valid() && policy.clock == old(policy.clock) && dir == old(dir) && permanent == old(permanent)
      ensures view == old(view)[p := Zero()] && touched == old(touched) + {f}
      ensures guards == old(guards) + multiset{g} && g == Guard(f, true)
      ensures f < |old(meta)| == |old(frames)| == |old(pins)| && old(pins)[f] == 0
      ensures State() == Load(old(State()), f, l, p, Zero()) && pins == old(pins)[f := 1]
      ensures SamePast(old(policy.trace), policy.trace)
    {
      hide Mapped, Synced, LruK.Evictor.Valid, Pinned, Tracked, Placed, Zero;
      Sizes();
      ghost var s := State();
      PlacedAt(l);
      VacantUnpinned(s, pins, guards, permanent, f);
      MappedTwice(s, dir, view.Keys, l);
      CreateSynced(s, view, touched, f, l, p, Zero());
      DirAgrees(l);
      LoadPlacedIff(dir, view.Keys, meta, f, l, p);
      assert view[p := Zero()].Keys == view.Keys;
      g := Claim(f, Loaded(l, p, false), true);
      touched, view := touched + {f}, view[p := Zero()];
      Place(f, l, p, Zero());
    }

    /** `l` and `p` are what the disk manager allocates: an unused logical id and an unused place. The page is
        registered before a frame is looked for, and stays registered when none is found. */
    method NewPage(l: LPageId, p: PPageId, blank: Image) returns (r: Result<Guard, PoolError>)
      requires Valid() && l !in dir && l !in lmap && p !in view
      modifies this, policy
      ensures Valid() && dir == old(dir)[l := p]
      ensures permanent == old(permanent) && SameHeld(old(State()), State(), old(pins))
      ensures view.Keys == old(view.Keys) + {p} && lmap.Keys <= old(lmap.Keys) + {l}
      ensures r.Err? <==> old(vacant) == {} && old(policy.Candidates()) == {}
      ensures r.Err? ==> view == old(view)[p := blank] && guards == old(guards)
      ensures r.Ok? ==> r.value.write && guards == old(guards) + multiset{r.value} && Shows(r.value, l)
      ensures r.Ok? ==>
        p in view && view[p] == Zero() && SamePages(old(view)[p := Zero()], view, old(pmap), old(touched))
      ensures r.Err? ==> SamePast(old(policy.trace), policy.trace)
      ensures r.Ok? ==>
        PastBut(old(policy.trace), policy.trace, r.value.frame) && Past(policy.trace, r.value.frame) == []
    {
      hide Mapped, Synced, LruK.Evictor.Valid, Pinned, Tracked, Placed, Zero, SameHeld, SamePages, Victim, Accessed;
      Register(l, p, blank);
      var found := FindFrame();
      SameHeldElsewhere(old(State()), old(State()).(disk := old(disk)[p := blank]), State(), old(pins));
      if found.Err? { return Err(EvictorFailed(found.error)); }
      ghost var s, v := State(), view;
      var g := FillNew(found.value, l, p);
      SamePagesBut(old(view), v, old(pmap), old(touched), p, blank, Zero());
      SamePagesKeys(old(view)[p := Zero()], view, old(pmap), old(touched));
      LoadKeeps(old(State()), s, old(pins), found.value, l, p, Zero());
      return Ok(g);
    }

    // ---------------------------------------------------------------- flushing

    method FlushFrame(f: nat)
      requires Valid() && DirtyAt(meta, f) && f < |frames|
      modifies this`disk, this`meta
      ensures Valid() && f < |old(meta)| && f < |old(frames)| && old(meta)[f].Loaded?
      ensures State() == Flush(old(State()), f)
    {
      hide LruK.Evictor.Valid, Mapped, Synced, Pinned, Tracked, Placed;
      FlushSynced(State(), view, touched, f);
      var now := Loaded(meta[f].lpage, meta[f].ppage, false);
      DirtyPinned(meta, pins, guards, permanent, f, now);
      DirtyTracked(meta, pins, policy.state, f, now);
      DirtyPlaced(dir, view.Keys, meta, f, now);
      disk := disk[meta[f].ppage := frames[f]];
      meta := meta[f := now];
    }

    /** The frames to flush, in frame order. */
    method CollectDirty() returns (todo: seq<(nat, PPageId)>)
      ensures forall f: nat {:trigger DirtyAt(meta, f)} :: DirtyAt(meta, f) ==> (f, meta[f].ppage) in todo
      ensures forall j :: 0 <= j < |todo| ==> todo[j].0 < |meta|
    {
      todo := [];
      for i := 0 to |meta|
        invariant forall f: nat {:trigger DirtyAt(meta, f)} :: DirtyAt(meta, f) && f < i ==> (f, meta[f].ppage) in todo
        invariant forall j :: 0 <= j < |todo| ==> todo[j].0 < |meta|
      {
        if meta[i].Loaded? && meta[i].dirty { todo := todo + [(i, meta[i].ppage)]; }
      }
    }

    /** Afterwards no frame is dirty and the disk alone holds every page as last written, unmarked ones apart.
        A live write guard on a dirty frame would hold the latch the flush waits for. */
    method FlushAllDirty()
      requires Valid() && forall f: nat {:trigger DirtyAt(meta, f)} :: DirtyAt(meta, f) ==> guards[Guard(f, true)] == 0
      modifies this`disk, this`meta
      ensures Valid() && frames == old(frames)
      ensures forall f: nat {:trigger DirtyAt(meta, f)} :: !DirtyAt(meta, f)
      ensures forall p :: p in view && p !in Unmarked() ==> p in disk && disk[p] == view[p]
    {
      hide LruK.Evictor.Valid, Mapped, Synced, Pinned, Tracked, Placed;
      Sizes();
      var todo := CollectDirty();
      for j := 0 to |todo|
        invariant Valid() && |meta| == |frames| == |old(meta)|
        invariant forall f: nat {:trigger DirtyAt(meta, f)} :: DirtyAt(meta, f) ==> (f, meta[f].ppage) in todo[j..]
      {
        var (f, p) := todo[j];
        assert todo[j..] == [todo[j]] + todo[j + 1..];
        if meta[f].Loaded? && meta[f].dirty && meta[f].ppage == p {
          ghost var was := meta;
          FlushFrame(f);
          assert forall g: nat {:trigger DirtyAt(meta, g)} :: DirtyAt(meta, g) ==> g != f && DirtyAt(was, g);
        }
      }
      forall p | p in view && p !in Unmarked()
        ensures p in disk && disk[p] == view[p]
      {
        CleanOnDisk(State(), view, touched, p);
      }
    }
  }
}
