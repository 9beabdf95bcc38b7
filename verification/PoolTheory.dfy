/** The buffer pool as a value: frames, page maps, pins and disk; what each step does and keeps. */
module PoolTheory {
  import opened Wrappers
  import opened Bytes
  import opened LruK

  type LPageId = nat

  datatype PPageId = PPageId(file: nat, offset: nat)

  datatype FrameMeta = Vacant | Loaded(lpage: LPageId, ppage: PPageId, dirty: bool)

  /** The contents of one page. */
  datatype Image = Image(bytes: PageBuf)

  /** A page latch a client holds. */
  datatype Guard = Guard(frame: nat, write: bool)

  datatype Pool = Pool(
    frames: seq<Image>, meta: seq<FrameMeta>, vacant: set<nat>, lmap: map<LPageId, nat>, pmap: map<PPageId, nat>,
    disk: map<PPageId, Image>)

  /** The logical id a page carries in its header. */
  function HeaderId(b: Image): LPageId {
    Num32(b.bytes, PAGE_ID_AT)
  }

  /** It is the number in bytes 8 to 11. */
  lemma HeaderInBytes(b: Image)
    ensures HeaderId(b) == FromLE(b.bytes[8..12])
  {
    NumsAreLE(b.bytes, 8);
  }

  // ---------------------------------------------------------------- invariant: the page maps

  ghost predicate FrameOk(s: Pool, f: nat)
    requires f < |s.meta|
  {
    && (f in s.vacant <==> s.meta[f].Vacant?)
    && (s.meta[f].Loaded? ==>
          && s.meta[f].lpage in s.lmap && s.lmap[s.meta[f].lpage] == f
          && s.meta[f].ppage in s.pmap && s.pmap[s.meta[f].ppage] == f)
  }

  ghost predicate LOk(s: Pool, l: LPageId)
    requires l in s.lmap
  {
    s.lmap[l] < |s.meta| && s.meta[s.lmap[l]].Loaded? && s.meta[s.lmap[l]].lpage == l
  }

  ghost predicate POk(s: Pool, p: PPageId)
    requires p in s.pmap
  {
    s.pmap[p] < |s.meta| && s.meta[s.pmap[p]].Loaded? && s.meta[s.pmap[p]].ppage == p
  }

  /** Vacant set, frame metadata and both page maps describe one bijection. */
  ghost predicate Mapped(s: Pool) {
    && |s.frames| == |s.meta|
    && (forall f {:trigger f in s.vacant} :: f in s.vacant ==> f < |s.meta|)
    && (forall f {:trigger FrameOk(s, f)} :: 0 <= f < |s.meta| ==> FrameOk(s, f))
    && (forall l {:trigger LOk(s, l)} :: l in s.lmap ==> LOk(s, l))
    && (forall p {:trigger POk(s, p)} :: p in s.pmap ==> POk(s, p))
  }

  // ---------------------------------------------------------------- invariant: contents

  /** `view` is what was last written to each page; `touched` frames were changed through a guard while clean and
      have not been marked dirty since. A loaded page sits in its frame, also on disk unless dirty or touched; any
      other page is on disk. */
  ghost predicate PageSynced(s: Pool, view: map<PPageId, Image>, touched: set<nat>, p: PPageId)
    requires Mapped(s) && p in view
  {
    && p in s.disk
    && if p in s.pmap then
         assert POk(s, p);
         var f := s.pmap[p];
         s.frames[f] == view[p] && (!s.meta[f].dirty && f !in touched ==> s.disk[p] == view[p])
       else s.disk[p] == view[p]
  }

  ghost predicate Synced(s: Pool, view: map<PPageId, Image>, touched: set<nat>)
    requires Mapped(s)
  {
    && s.disk.Keys == view.Keys
    && (forall p {:trigger PageSynced(s, view, touched, p)} :: p in view ==> PageSynced(s, view, touched, p))
    && (forall p {:trigger p in s.pmap} :: p in s.pmap ==> p in view)
    && (forall f {:trigger f in touched} :: f in touched ==> f < |s.meta| && s.meta[f].Loaded? && !s.meta[f].dirty)
  }

  // ---------------------------------------------------------------- invariant: pins and the evictor

  /** A frame's pin count is its live guards plus its permanent pins; a write guard is alone. */
  ghost predicate PinOk(meta: seq<FrameMeta>, pins: seq<nat>, guards: multiset<Guard>, permanent: seq<nat>, f: nat)
    requires f < |meta| == |pins| == |permanent|
  {
    && pins[f] == guards[Guard(f, false)] + guards[Guard(f, true)] + permanent[f]
    && pins[f] < 256 && (pins[f] > 0 ==> meta[f].Loaded?)
    && (guards[Guard(f, true)] > 0 ==> guards[Guard(f, true)] == 1 && guards[Guard(f, false)] == 0)
  }

  ghost predicate Pinned(meta: seq<FrameMeta>, pins: seq<nat>, guards: multiset<Guard>, permanent: seq<nat>) {
    && |meta| == |pins| == |permanent|
    && (forall g {:trigger guards[g]} :: guards[g] > 0 ==> g.frame < |meta|)
    && (forall f {:trigger PinOk(meta, pins, guards, permanent, f)} :: 0 <= f < |meta| ==>
      PinOk(meta, pins, guards, permanent, f))
  }

  /** The evictor knows loaded frames only, and marks evictable exactly the unpinned ones. */
  ghost predicate Tracked(meta: seq<FrameMeta>, pins: seq<nat>, state: map<Frame, FrameInfo>) {
    && |meta| == |pins|
    && (forall f {:trigger f in state} :: f in state ==>
      f < |meta| && meta[f].Loaded? && (state[f].evictable ==> pins[f] == 0))
    && (forall f {:trigger meta[f]} :: 0 <= f < |meta| && meta[f].Loaded? && pins[f] == 0 ==>
      f in state && state[f].evictable)
  }

  // ---------------------------------------------------------------- steps

  /** Write the frame back if dirty and forget the page. */
  function Unload(s: Pool, f: nat): Pool
    requires f < |s.meta| && f < |s.frames| && s.meta[f].Loaded?
  {
    var m := s.meta[f];
    s.(meta := s.meta[f := Vacant], vacant := s.vacant + {f}, lmap := s.lmap - {m.lpage}, pmap := s.pmap - {m.ppage},
       disk := if m.dirty then s.disk[m.ppage := s.frames[f]] else s.disk)
  }

  /** Unloading an untouched page loses nothing; a touched one reverts to what is on disk. */
  ghost function ViewAfterUnload(s: Pool, view: map<PPageId, Image>, touched: set<nat>, f: nat): map<PPageId, Image>
    requires f < |s.meta| && s.meta[f].Loaded?
  {
    var p := s.meta[f].ppage;
    if f in touched && p in s.disk then view[p := s.disk[p]] else view
  }

  lemma UnloadMapped(s: Pool, f: nat)
    requires Mapped(s) && f < |s.meta| && s.meta[f].Loaded?
    ensures Mapped(Unload(s, f)) && f in Unload(s, f).vacant
  {
    var r, m := Unload(s, f), s.meta[f];
    assert FrameOk(s, f);
    forall g {:trigger FrameOk(r, g)} | 0 <= g < |r.meta|
      ensures FrameOk(r, g)
    {
      assert FrameOk(s, g);
    }
    forall l {:trigger LOk(r, l)} | l in r.lmap
      ensures LOk(r, l)
    {
      assert LOk(s, l);
    }
    forall p {:trigger POk(r, p)} | p in r.pmap
      ensures POk(r, p)
    {
      assert POk(s, p);
    }
  }

  lemma UnloadSynced(s: Pool, view: map<PPageId, Image>, touched: set<nat>, f: nat)
    requires Mapped(s) && Synced(s, view, touched) && f < |s.meta| && s.meta[f].Loaded?
    ensures Mapped(Unload(s, f)) && Synced(Unload(s, f), ViewAfterUnload(s, view, touched, f), touched - {f})
  {
    var r, v, t, p := Unload(s, f), ViewAfterUnload(s, view, touched, f), touched - {f}, s.meta[f].ppage;
    UnloadMapped(s, f);
    assert FrameOk(s, f) && POk(s, p) && PageSynced(s, view, touched, p);
    forall q {:trigger PageSynced(r, v, t, q)} | q in v
      ensures PageSynced(r, v, t, q)
    {
      assert PageSynced(s, view, touched, q);
      if q in r.pmap { assert POk(s, q) && POk(r, q); }
    }
    forall q {:trigger q in r.pmap} | q in r.pmap
      ensures q in v
    {
      assert POk(s, q);
    }
  }

  /** What was last written to a page survives eviction exactly when the change was marked dirty or the disk
      happened to hold the same bytes already. */
  lemma SurvivesIff(s: Pool, view: map<PPageId, Image>, touched: set<nat>, f: nat)
    requires Mapped(s) && Synced(s, view, touched) && f < |s.meta| && s.meta[f].Loaded?
    ensures var p := s.meta[f].ppage;
      && p in view && p in s.disk && p in Unload(s, f).disk
      && (Unload(s, f).disk[p] == view[p] <==> f !in touched || s.disk[p] == view[p])
  {
    assert FrameOk(s, f) && POk(s, s.meta[f].ppage) && PageSynced(s, view, touched, s.meta[f].ppage);
  }

  /** Put page `l` at `p` with contents `b` into a vacant frame. */
  function Load(s: Pool, f: nat, l: LPageId, p: PPageId, b: Image): Pool
    requires f < |s.meta| && f < |s.frames|
  {
    s.(frames := s.frames[f := b], meta := s.meta[f := Loaded(l, p, false)], vacant := s.vacant - {f},
       lmap := s.lmap[l := f], pmap := s.pmap[p := f])
  }

  lemma LoadMapped(s: Pool, f: nat, l: LPageId, p: PPageId, b: Image)
    requires Mapped(s) && f in s.vacant && l !in s.lmap && p !in s.pmap
    ensures Mapped(Load(s, f, l, p, b))
  {
    var r := Load(s, f, l, p, b);
    assert FrameOk(s, f);
    forall g {:trigger FrameOk(r, g)} | 0 <= g < |r.meta|
      ensures FrameOk(r, g)
    {
      assert FrameOk(s, g);
    }
    forall x {:trigger LOk(r, x)} | x in r.lmap
      ensures LOk(r, x)
    {
      if x != l { assert LOk(s, x); }
    }
    forall x {:trigger POk(r, x)} | x in r.pmap
      ensures POk(r, x)
    {
      if x != p { assert POk(s, x); }
    }
  }

  /** What a fetch makes of the maps when the directory may not know the page: the frame is taken and the logical
      map published before the read, and an error returns without undoing either. */
  function Attempt(s: Pool, f: nat, l: LPageId, p: Option<PPageId>, b: Image): Pool
    requires f < |s.meta| && f < |s.frames|
  {
    if p.Some? then Load(s, f, l, p.value, b) else s.(vacant := s.vacant - {f}, lmap := s.lmap[l := f])
  }

  /** The maps stay one bijection if and only if the directory knows the page. */
  lemma AttemptMappedIff(s: Pool, f: nat, l: LPageId, p: Option<PPageId>, b: Image)
    requires Mapped(s) && f in s.vacant && l !in s.lmap && (p.Some? ==> p.value !in s.pmap)
    ensures Mapped(Attempt(s, f, l, p, b)) <==> p.Some?
  {
    var r := Attempt(s, f, l, p, b);
    assert FrameOk(s, f);
    if p.Some? {
      LoadMapped(s, f, l, p.value, b);
    } else {
      assert !FrameOk(r, f);
    }
  }

  /** A logical id published for a frame that never got its page: pinned, so never evicted, and outside every other
      map. */
  ghost predicate Leaked(s: Pool, pins: seq<nat>, l: LPageId) {
    && l in s.lmap && s.lmap[l] < |s.meta| == |s.frames| == |pins|
    && s.meta[s.lmap[l]].Vacant? && s.lmap[l] !in s.vacant && pins[s.lmap[l]] > 0
  }

  lemma LoadSynced(s: Pool, view: map<PPageId, Image>, touched: set<nat>, f: nat, l: LPageId, p: PPageId)
    requires Mapped(s) && Synced(s, view, touched) && f in s.vacant && l !in s.lmap && p !in s.pmap && p in view
    ensures s.disk[p] == view[p]
    ensures Mapped(Load(s, f, l, p, view[p])) && Synced(Load(s, f, l, p, view[p]), view, touched)
  {
    var r := Load(s, f, l, p, view[p]);
    LoadMapped(s, f, l, p, view[p]);
    assert FrameOk(s, f) && PageSynced(s, view, touched, p);
    forall q {:trigger PageSynced(r, view, touched, q)} | q in view
      ensures PageSynced(r, view, touched, q)
    {
      assert PageSynced(s, view, touched, q);
      if q in s.pmap { assert POk(s, q) && POk(r, q); }
    }
    forall q {:trigger q in r.pmap} | q in r.pmap
      ensures q in view
    {
      if q != p { assert POk(s, q); }
    }
  }

  /** A page given a place on disk, with whatever bytes lie there. */
  lemma RegisterSynced(s: Pool, view: map<PPageId, Image>, touched: set<nat>, p: PPageId, blank: Image)
    requires Mapped(s) && Synced(s, view, touched) && p !in view
    ensures var r := s.(disk := s.disk[p := blank]); Mapped(r) && Synced(r, view[p := blank], touched) && p !in s.pmap
  {
    var r, v := s.(disk := s.disk[p := blank]), view[p := blank];
    DiskMapped(s, r);
    forall q {:trigger PageSynced(r, v, touched, q)} | q in v
      ensures PageSynced(r, v, touched, q)
    {
      if q != p {
        assert PageSynced(s, view, touched, q);
        if q in s.pmap { assert POk(s, q) && POk(r, q); }
      }
    }
  }

  /** A new page's zeroed frame counts as touched. */
  lemma CreateSynced(s: Pool, view: map<PPageId, Image>, touched: set<nat>, f: nat, l: LPageId, p: PPageId, zero: Image)
    requires Mapped(s) && Synced(s, view, touched) && f in s.vacant && l !in s.lmap && p in view && p !in s.pmap
    ensures var r := Load(s, f, l, p, zero); Mapped(r) && Synced(r, view[p := zero], touched + {f})
  {
    LoadMapped(s, f, l, p, zero);
    var r, v, t := Load(s, f, l, p, zero), view[p := zero], touched + {f};
    assert FrameOk(s, f);
    forall q {:trigger PageSynced(r, v, t, q)} | q in v
      ensures PageSynced(r, v, t, q)
    {
      assert PageSynced(s, view, touched, q);
      if q in s.pmap { assert POk(s, q) && POk(r, q); }
    }
    forall q {:trigger q in r.pmap} | q in r.pmap
      ensures q in v
    {
      if q != p { assert q in s.pmap; }
    }
  }

  lemma DiskMapped(s: Pool, r: Pool)
    requires Mapped(s) && r == s.(disk := r.disk, frames := r.frames) && |r.frames| == |s.frames|
    ensures Mapped(r)
  {
    forall g {:trigger FrameOk(r, g)} | 0 <= g < |r.meta|
      ensures FrameOk(r, g)
    {
      assert FrameOk(s, g);
    }
    forall l {:trigger LOk(r, l)} | l in r.lmap
      ensures LOk(r, l)
    {
      assert LOk(s, l);
    }
    forall p {:trigger POk(r, p)} | p in r.pmap
      ensures POk(r, p)
    {
      assert POk(s, p);
    }
  }

  /** Changing a page through its frame: clean frames become touched. */
  lemma WriteSynced(s: Pool, view: map<PPageId, Image>, touched: set<nat>, f: nat, b: Image)
    requires Mapped(s) && Synced(s, view, touched) && f < |s.meta| && s.meta[f].Loaded?
    ensures var r := s.(frames := s.frames[f := b]);
      Mapped(r) && Synced(r, view[s.meta[f].ppage := b], if s.meta[f].dirty then touched else touched + {f})
  {
    var r, p := s.(frames := s.frames[f := b]), s.meta[f].ppage;
    var v, t := view[p := b], if s.meta[f].dirty then touched else touched + {f};
    DiskMapped(s, r);
    assert FrameOk(s, f) && POk(s, p) && p in view;
    forall q {:trigger PageSynced(r, v, t, q)} | q in v
      ensures PageSynced(r, v, t, q)
    {
      assert PageSynced(s, view, touched, q);
      if q in s.pmap { assert POk(s, q) && POk(r, q); }
    }
  }

  function SetDirty(s: Pool, f: nat, dirty: bool): Pool
    requires f < |s.meta| && s.meta[f].Loaded?
  {
    s.(meta := s.meta[f := Loaded(s.meta[f].lpage, s.meta[f].ppage, dirty)])
  }

  lemma DirtyMapped(s: Pool, f: nat, dirty: bool)
    requires Mapped(s) && f < |s.meta| && s.meta[f].Loaded?
    ensures Mapped(SetDirty(s, f, dirty))
  {
    var r := SetDirty(s, f, dirty);
    assert FrameOk(s, f);
    forall g {:trigger FrameOk(r, g)} | 0 <= g < |r.meta|
      ensures FrameOk(r, g)
    {
      assert FrameOk(s, g);
    }
    forall l {:trigger LOk(r, l)} | l in r.lmap
      ensures LOk(r, l)
    {
      assert LOk(s, l);
    }
    forall p {:trigger POk(r, p)} | p in r.pmap
      ensures POk(r, p)
    {
      assert POk(s, p);
    }
  }

  lemma MarkSynced(s: Pool, view: map<PPageId, Image>, touched: set<nat>, f: nat)
    requires Mapped(s) && Synced(s, view, touched) && f < |s.meta| && s.meta[f].Loaded?
    ensures Mapped(SetDirty(s, f, true)) && Synced(SetDirty(s, f, true), view, touched - {f})
  {
    var r, t := SetDirty(s, f, true), touched - {f};
    DirtyMapped(s, f, true);
    forall q {:trigger PageSynced(r, view, t, q)} | q in view
      ensures PageSynced(r, view, t, q)
    {
      assert PageSynced(s, view, touched, q);
      if q in s.pmap { assert POk(s, q) && POk(r, q); }
    }
  }

  /** Write a dirty frame back. */
  function Flush(s: Pool, f: nat): Pool
    requires f < |s.meta| && f < |s.frames| && s.meta[f].Loaded?
  {
    SetDirty(s.(disk := s.disk[s.meta[f].ppage := s.frames[f]]), f, false)
  }

  lemma FlushSynced(s: Pool, view: map<PPageId, Image>, touched: set<nat>, f: nat)
    requires Mapped(s) && Synced(s, view, touched) && f < |s.meta| && s.meta[f].Loaded? && s.meta[f].dirty
    ensures Mapped(Flush(s, f)) && Synced(Flush(s, f), view, touched)
  {
    var r, p := Flush(s, f), s.meta[f].ppage;
    var d := s.(disk := s.disk[p := s.frames[f]]);
    DiskMapped(s, d);
    DirtyMapped(d, f, false);
    assert FrameOk(s, f) && POk(s, p) && PageSynced(s, view, touched, p);
    forall q {:trigger PageSynced(r, view, touched, q)} | q in view
      ensures PageSynced(r, view, touched, q)
    {
      assert PageSynced(s, view, touched, q);
      if q in s.pmap { assert POk(s, q) && POk(r, q); }
    }
  }

  // ---------------------------------------------------------------- pins along the steps

  lemma UnloadPinned(meta: seq<FrameMeta>, pins: seq<nat>, guards: multiset<Guard>, permanent: seq<nat>, f: nat)
    requires Pinned(meta, pins, guards, permanent) && f < |meta| && pins[f] == 0
    ensures Pinned(meta[f := Vacant], pins, guards, permanent)
  {
    forall g {:trigger PinOk(meta[f := Vacant], pins, guards, permanent, g)} | 0 <= g < |meta|
      ensures PinOk(meta[f := Vacant], pins, guards, permanent, g)
    {
      assert PinOk(meta, pins, guards, permanent, g);
    }
  }

  lemma UnloadTracked(meta: seq<FrameMeta>, pins: seq<nat>, state: map<Frame, FrameInfo>, f: nat)
    requires Tracked(meta, pins, state) && f < |meta|
    ensures Tracked(meta[f := Vacant], pins, state - {f})
  {
  }

  /** An id and a place belong together as far as the directory knows: it has neither of them with another partner. */
  ghost predicate Agrees(dir: map<LPageId, PPageId>, l: LPageId, p: PPageId) {
    (l in dir ==> dir[l] == p) && forall k {:trigger dir[k]} :: k in dir && dir[k] == p ==> k == l
  }

  ghost predicate NamedAt(dir: map<LPageId, PPageId>, pages: set<PPageId>, m: FrameMeta) {
    m.Loaded? ==> m.ppage in pages && Agrees(dir, m.lpage, m.ppage)
  }

  /** One place per page: the directory is injective, and the ids of loaded pages extend it to an injective naming. File
      headers are loaded by place, under the id in their header, and are in no directory. */
  ghost predicate Placed(dir: map<LPageId, PPageId>, pages: set<PPageId>, meta: seq<FrameMeta>) {
    && (forall l {:trigger dir[l]} :: l in dir ==> dir[l] in pages)
    && (forall l, m {:trigger dir[l], dir[m]} :: l in dir && m in dir && dir[l] == dir[m] ==> l == m)
    && (forall f {:trigger NamedAt(dir, pages, meta[f])} :: 0 <= f < |meta| ==> NamedAt(dir, pages, meta[f]))
  }

  lemma UnloadPlaced(dir: map<LPageId, PPageId>, pages: set<PPageId>, meta: seq<FrameMeta>, f: nat)
    requires Placed(dir, pages, meta) && f < |meta|
    ensures Placed(dir, pages, meta[f := Vacant])
  {
    var now := meta[f := Vacant];
    forall g | 0 <= g < |meta|
      ensures NamedAt(dir, pages, now[g])
    {
      assert NamedAt(dir, pages, meta[g]);
    }
  }

  /** No page changes, except that an unmarked one may revert. */
  ghost predicate SamePages(view: map<PPageId, Image>, now: map<PPageId, Image>, pmap: map<PPageId, nat>,
                            touched: set<nat>) {
    && now.Keys == view.Keys
    && forall p {:trigger now[p]} :: p in now ==> now[p] == view[p] || (p in pmap && pmap[p] in touched)
  }

  /** Pinned frames keep their page and its bytes. */
  ghost predicate SameHeld(s: Pool, r: Pool, pins: seq<nat>) {
    && |s.meta| == |s.frames| == |r.meta| == |r.frames| == |pins|
    && forall f {:trigger r.meta[f]} {:trigger r.frames[f]} :: 0 <= f < |pins| && pins[f] > 0 ==>
      r.meta[f] == s.meta[f] && r.frames[f] == s.frames[f]
  }

  lemma SamePagesKeys(view: map<PPageId, Image>, now: map<PPageId, Image>, pmap: map<PPageId, nat>, touched: set<nat>)
    requires SamePages(view, now, pmap, touched)
    ensures now.Keys == view.Keys
  {
  }

  lemma SamePagesBut(view: map<PPageId, Image>, now: map<PPageId, Image>, pmap: map<PPageId, nat>, touched: set<nat>,
                     p: PPageId, a: Image, b: Image)
    requires SamePages(view[p := a], now, pmap, touched)
    ensures SamePages(view[p := b], now[p := b], pmap, touched)
  {
  }

  lemma SameHeldElsewhere(s: Pool, s': Pool, r: Pool, pins: seq<nat>)
    requires s' == s.(disk := s'.disk) && SameHeld(s', r, pins)
    ensures SameHeld(s, r, pins)
  {
  }

  lemma UnloadKeeps(s: Pool, view: map<PPageId, Image>, touched: set<nat>, pins: seq<nat>, f: nat)
    requires Mapped(s) && Synced(s, view, touched) && f < |s.meta| == |pins| && s.meta[f].Loaded? && pins[f] == 0
    ensures SamePages(view, ViewAfterUnload(s, view, touched, f), s.pmap, touched)
    ensures SameHeld(s, Unload(s, f), pins) && ViewAfterUnload(s, view, touched, f).Keys == view.Keys
  {
    assert FrameOk(s, f);
  }

  lemma LoadKeeps(s: Pool, r: Pool, pins: seq<nat>, f: nat, l: LPageId, p: PPageId, b: Image)
    requires Mapped(r) && SameHeld(s, r, pins) && f < |r.meta| && pins[f] == 0
    ensures SameHeld(s, Load(r, f, l, p, b), pins)
  {
  }

  /** A load keeps the page maps one bijection if and only if the id is not loaded already. */
  lemma LoadMappedIff(s: Pool, f: nat, l: LPageId, p: PPageId, b: Image)
    requires Mapped(s) && f in s.vacant && p !in s.pmap
    ensures Mapped(Load(s, f, l, p, b)) <==> l !in s.lmap
  {
    var r := Load(s, f, l, p, b);
    assert FrameOk(s, f);
    if l in s.lmap {
      var g := s.lmap[l];
      assert LOk(s, l) && FrameOk(s, g);
      assert g != f && r.meta[g] == s.meta[g] && r.lmap[l] == f;
      assert !FrameOk(r, g);
    } else {
      LoadMapped(s, f, l, p, b);
    }
  }

  /** And it keeps the naming if and only if the directory has neither the id nor the place with another partner. */
  lemma LoadPlacedIff(dir: map<LPageId, PPageId>, pages: set<PPageId>, meta: seq<FrameMeta>, f: nat, l: LPageId,
                      p: PPageId)
    requires Placed(dir, pages, meta) && f < |meta| && p in pages
    ensures Placed(dir, pages, meta[f := Loaded(l, p, false)]) <==> Agrees(dir, l, p)
  {
    var now := meta[f := Loaded(l, p, false)];
    assert now[f] == Loaded(l, p, false);
    if Agrees(dir, l, p) {
      forall g | 0 <= g < |now|
        ensures NamedAt(dir, pages, now[g])
      {
        assert NamedAt(dir, pages, meta[g]);
      }
    } else {
      assert !NamedAt(dir, pages, now[f]);
    }
  }

  /** Two loaded pages or directory entries share an id exactly when they share a place. */
  lemma OneNaming(s: Pool, dir: map<LPageId, PPageId>, pages: set<PPageId>, f: nat, g: nat, l: LPageId)
    requires Mapped(s) && Placed(dir, pages, s.meta) && f < |s.meta| && g < |s.meta| && s.meta[f].Loaded? &&
      s.meta[g].Loaded?
    ensures s.meta[f].lpage == s.meta[g].lpage <==> s.meta[f].ppage == s.meta[g].ppage
    ensures l in dir ==> (s.meta[f].lpage == l <==> s.meta[f].ppage == dir[l])
  {
    assert FrameOk(s, f) && FrameOk(s, g) && NamedAt(dir, pages, s.meta[f]);
  }

  /** The page at the start of a file is its header; no directory has a page there. */
  ghost predicate HeadersApart(dir: map<LPageId, PPageId>) {
    forall l {:trigger dir[l]} :: l in dir ==> dir[l].offset != 0
  }

  /** A file header may be loaded exactly under an id the directory does not know. */
  lemma HeaderAgreesIff(dir: map<LPageId, PPageId>, l: LPageId, p: PPageId)
    requires HeadersApart(dir) && p.offset == 0
    ensures Agrees(dir, l, p) <==> l !in dir
  {
  }

  /** Two files whose headers carry the same page id, as freshly initialised ones do: with one header loaded, loading
      the other takes its id over, and the maps are no bijection any more. */
  lemma TwoHeadersClash(b: Image)
    ensures var h, one, two := HeaderId(b), PPageId(1, 0), PPageId(2, 0);
      var s := Pool([b, b], [Loaded(h, one, false), Vacant], {1}, map[h := 0], map[one := 0], map[one := b, two := b]);
      && Mapped(s) && Placed(map[], {one, two}, s.meta) && Agrees(map[], h, two)
      && !Mapped(Load(s, 1, h, two, b))
  {
    var h, one, two := HeaderId(b), PPageId(1, 0), PPageId(2, 0);
    var s := Pool([b, b], [Loaded(h, one, false), Vacant], {1}, map[h := 0], map[one := 0], map[one := b, two := b]);
    assert FrameOk(s, 0) && FrameOk(s, 1) && LOk(s, h) && POk(s, one);
    LoadMappedIff(s, 1, h, two, b);
  }

  /** A page is mapped by its logical id exactly when it is mapped by its place. */
  lemma MappedTwice(s: Pool, dir: map<LPageId, PPageId>, pages: set<PPageId>, l: LPageId)
    requires Mapped(s) && Placed(dir, pages, s.meta) && l in dir
    ensures l in s.lmap <==> dir[l] in s.pmap
    ensures l in s.lmap ==>
      s.lmap[l] == s.pmap[dir[l]] && s.lmap[l] < |s.meta| && s.meta[s.lmap[l]].Loaded? &&
      s.meta[s.lmap[l]].lpage == l && s.meta[s.lmap[l]].ppage == dir[l]
  {
    if l in s.lmap {
      assert LOk(s, l) && FrameOk(s, s.lmap[l]) && NamedAt(dir, pages, s.meta[s.lmap[l]]);
    }
    if dir[l] in s.pmap {
      var f := s.pmap[dir[l]];
      assert POk(s, dir[l]) && FrameOk(s, f) && NamedAt(dir, pages, s.meta[f]);
    }
  }

  lemma VacantUnpinned(s: Pool, pins: seq<nat>, guards: multiset<Guard>, permanent: seq<nat>, f: nat)
    requires Mapped(s) && Pinned(s.meta, pins, guards, permanent) && f in s.vacant
    ensures f < |s.meta| && s.meta[f].Vacant? && pins[f] == 0 && guards[Guard(f, false)] == 0 &&
      guards[Guard(f, true)] == 0
  {
    assert FrameOk(s, f) && PinOk(s.meta, pins, guards, permanent, f);
  }

  /** One more guard on a loaded frame: a read guard beside readers, a write guard only alone. */
  lemma PinGuard(meta: seq<FrameMeta>, now: seq<FrameMeta>, pins: seq<nat>, guards: multiset<Guard>,
                 permanent: seq<nat>, f: nat, write: bool)
    requires Pinned(meta, pins, guards, permanent) && f < |meta| && pins[f] < 255
    requires guards[Guard(f, true)] == 0 && (write ==> guards[Guard(f, false)] == 0)
    requires |now| == |meta| && now[f].Loaded? && forall g :: 0 <= g < |meta| && g != f ==> now[g] == meta[g]
    ensures Pinned(now, pins[f := pins[f] + 1], guards + multiset{Guard(f, write)}, permanent)
  {
    var ps, gs := pins[f := pins[f] + 1], guards + multiset{Guard(f, write)};
    forall g {:trigger PinOk(now, ps, gs, permanent, g)} | 0 <= g < |now|
      ensures PinOk(now, ps, gs, permanent, g)
    {
      assert PinOk(meta, pins, guards, permanent, g);
    }
    forall x {:trigger gs[x]} | gs[x] > 0
      ensures x.frame < |now|
    {
      assert guards[x] > 0 || x == Guard(f, write);
    }
  }

  /** The pin counter is one byte: counting a new guard keeps it exact if and only if it was below 255. */
  lemma PinWrapIff(meta: seq<FrameMeta>, pins: seq<nat>, guards: multiset<Guard>, permanent: seq<nat>, f: nat,
                   write: bool)
    requires Pinned(meta, pins, guards, permanent) && f < |meta| && meta[f].Loaded?
    requires guards[Guard(f, true)] == 0 && (write ==> guards[Guard(f, false)] == 0)
    ensures Pinned(meta, pins[f := (pins[f] + 1) % 256], guards + multiset{Guard(f, write)}, permanent) <==>
      pins[f] < 255
  {
    var gs := guards + multiset{Guard(f, write)};
    assert PinOk(meta, pins, guards, permanent, f);
    if pins[f] < 255 {
      PinGuard(meta, meta, pins, guards, permanent, f, write);
    } else {
      assert gs[Guard(f, false)] + gs[Guard(f, true)] == guards[Guard(f, false)] + guards[Guard(f, true)] + 1;
      assert !PinOk(meta, pins[f := 0], gs, permanent, f);
    }
  }

  lemma PinTracked(meta: seq<FrameMeta>, now: seq<FrameMeta>, pins: seq<nat>, state: map<Frame, FrameInfo>,
                   st: map<Frame, FrameInfo>, f: nat)
    requires Tracked(meta, pins, state) && f < |meta|
    requires |now| == |meta| && now[f].Loaded? && forall g :: 0 <= g < |meta| && g != f ==> now[g] == meta[g]
    requires pins[f] > 0 ==> st == state
    requires pins[f] == 0 ==>
      st.Keys == state.Keys + {f} && !st[f].evictable && forall g :: g in state && g != f ==> st[g] == state[g]
    ensures Tracked(now, pins[f := pins[f] + 1], st)
  {
  }

  lemma AccessTracked(meta: seq<FrameMeta>, pins: seq<nat>, state: map<Frame, FrameInfo>, st: map<Frame, FrameInfo>,
                      f: nat)
    requires Tracked(meta, pins, state) && f < |meta| && meta[f].Loaded? && pins[f] > 0
    requires st.Keys == state.Keys + {f} && forall g :: g in state ==> st[g].evictable == state[g].evictable
    requires f !in state ==> !st[f].evictable
    ensures Tracked(meta, pins, st)
  {
  }

  lemma UnpinGuard(meta: seq<FrameMeta>, pins: seq<nat>, guards: multiset<Guard>, permanent: seq<nat>, g: Guard)
    requires Pinned(meta, pins, guards, permanent) && guards[g] > 0
    ensures g.frame < |meta| && meta[g.frame].Loaded? && 0 < pins[g.frame] < 256
    ensures Pinned(meta, pins[g.frame := pins[g.frame] - 1], guards - multiset{g}, permanent)
  {
    var f := g.frame;
    assert PinOk(meta, pins, guards, permanent, f);
    assert guards[Guard(f, g.write)] > 0;
    var ps, gs := pins[f := pins[f] - 1], guards - multiset{g};
    forall x {:trigger PinOk(meta, ps, gs, permanent, x)} | 0 <= x < |meta|
      ensures PinOk(meta, ps, gs, permanent, x)
    {
      assert PinOk(meta, pins, guards, permanent, x);
    }
    forall x {:trigger gs[x]} | gs[x] > 0
      ensures x.frame < |meta|
    {
      assert guards[x] > 0;
    }
  }

  lemma UnpinTracked(meta: seq<FrameMeta>, pins: seq<nat>, state: map<Frame, FrameInfo>, st: map<Frame, FrameInfo>,
                     f: nat)
    requires Tracked(meta, pins, state) && f < |meta| && meta[f].Loaded? && pins[f] > 0
    requires pins[f] > 1 ==> st == state
    requires pins[f] == 1 ==>
      st.Keys == state.Keys + {f} && st[f].evictable && forall g :: g in state && g != f ==> st[g] == state[g]
    ensures Tracked(meta, pins[f := pins[f] - 1], st)
  {
  }

  /** A write guard handed down to a read guard keeps the pin. */
  lemma DowngradePinned(meta: seq<FrameMeta>, pins: seq<nat>, guards: multiset<Guard>, permanent: seq<nat>, f: nat)
    requires Pinned(meta, pins, guards, permanent) && guards[Guard(f, true)] > 0
    ensures Pinned(meta, pins, guards - multiset{Guard(f, true)} + multiset{Guard(f, false)}, permanent)
  {
    var gs := guards - multiset{Guard(f, true)} + multiset{Guard(f, false)};
    forall x {:trigger PinOk(meta, pins, gs, permanent, x)} | 0 <= x < |meta|
      ensures PinOk(meta, pins, gs, permanent, x)
    {
      assert PinOk(meta, pins, guards, permanent, x);
    }
    forall x {:trigger gs[x]} | gs[x] > 0
      ensures x.frame < |meta|
    {
      assert guards[x] > 0 || x == Guard(f, false);
    }
  }

  /** A guard turned into a permanent pin. */
  lemma PermanentPinned(meta: seq<FrameMeta>, pins: seq<nat>, guards: multiset<Guard>, permanent: seq<nat>, f: nat)
    requires Pinned(meta, pins, guards, permanent) && f < |meta| && 0 < pins[f] < 255
    ensures Pinned(meta, pins[f := pins[f] + 1], guards, permanent[f := permanent[f] + 1])
  {
    var ps, pm := pins[f := pins[f] + 1], permanent[f := permanent[f] + 1];
    forall x {:trigger PinOk(meta, ps, guards, pm, x)} | 0 <= x < |meta|
      ensures PinOk(meta, ps, guards, pm, x)
    {
      assert PinOk(meta, pins, guards, permanent, x);
    }
  }

  /** Pins and the evictor do not look at the dirty bit. */
  lemma DirtyPinned(meta: seq<FrameMeta>, pins: seq<nat>, guards: multiset<Guard>, permanent: seq<nat>, f: nat,
                    now: FrameMeta)
    requires Pinned(meta, pins, guards, permanent) && f < |meta| && now.Loaded?
    ensures Pinned(meta[f := now], pins, guards, permanent)
  {
    forall x {:trigger PinOk(meta[f := now], pins, guards, permanent, x)} | 0 <= x < |meta|
      ensures PinOk(meta[f := now], pins, guards, permanent, x)
    {
      assert PinOk(meta, pins, guards, permanent, x);
    }
  }

  lemma DirtyTracked(meta: seq<FrameMeta>, pins: seq<nat>, state: map<Frame, FrameInfo>, f: nat, now: FrameMeta)
    requires Tracked(meta, pins, state) && f < |meta| && meta[f].Loaded? && now.Loaded?
    ensures Tracked(meta[f := now], pins, state)
  {
  }

  lemma DirtyPlaced(dir: map<LPageId, PPageId>, pages: set<PPageId>, meta: seq<FrameMeta>, f: nat, now: FrameMeta)
    requires Placed(dir, pages, meta) && f < |meta| && meta[f].Loaded? && now.Loaded? &&
      now == Loaded(meta[f].lpage, meta[f].ppage, now.dirty)
    ensures Placed(dir, pages, meta[f := now])
  {
    var meta' := meta[f := now];
    forall g | 0 <= g < |meta|
      ensures NamedAt(dir, pages, meta'[g])
    {
      assert NamedAt(dir, pages, meta[g]);
    }
  }

  /** A fresh place for a fresh id keeps the naming if and only if no loaded page goes by that id. */
  lemma RegisterPlacedIff(s: Pool, dir: map<LPageId, PPageId>, pages: set<PPageId>, l: LPageId, p: PPageId)
    requires Mapped(s) && Placed(dir, pages, s.meta) && l !in dir && p !in pages
    ensures Placed(dir[l := p], pages + {p}, s.meta) <==> l !in s.lmap
  {
    if l in s.lmap {
      var f := s.lmap[l];
      assert LOk(s, l) && NamedAt(dir, pages, s.meta[f]);
      assert !NamedAt(dir[l := p], pages + {p}, s.meta[f]);
    } else {
      forall f | 0 <= f < |s.meta|
        ensures NamedAt(dir[l := p], pages + {p}, s.meta[f])
      {
        assert FrameOk(s, f) && NamedAt(dir, pages, s.meta[f]);
      }
    }
  }

  ghost predicate DirtyAt(meta: seq<FrameMeta>, f: nat) {
    f < |meta| && meta[f].Loaded? && meta[f].dirty
  }

  /** With every frame clean, each page not left unmarked is on disk as last written. */
  lemma CleanOnDisk(s: Pool, view: map<PPageId, Image>, touched: set<nat>, p: PPageId)
    requires Mapped(s) && Synced(s, view, touched) && p in view && (p in s.pmap ==> s.pmap[p] !in touched)
    requires forall f: nat {:trigger DirtyAt(s.meta, f)} :: !DirtyAt(s.meta, f)
    ensures p in s.disk && s.disk[p] == view[p]
  {
    assert PageSynced(s, view, touched, p);
    if p in s.pmap {
      assert POk(s, p);
      assert !DirtyAt(s.meta, s.pmap[p]);
    }
  }
}
