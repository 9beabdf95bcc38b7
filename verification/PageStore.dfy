/** The buffer pool over the disk manager: new pages get their id and place there, and file headers are fetched by
    place. */
module PageStore {
  import opened Wrappers
  import opened Bytes
  import opened LruK
  import opened PoolTheory
  import Pool = BufferPool
  import Disk = Directory

  ghost predicate WasIssued(issued: map<int, PPageId>, p: PPageId) {
    exists l {:trigger issued[l]} :: l in issued && issued[l] == p
  }

  /** The pool works with the directory's places, every other page on disk is a file header, and every loaded id is
      below the next one to be issued. */
  ghost predicate Joined(dir: map<LPageId, PPageId>, pages: set<PPageId>, loaded: set<LPageId>,
                         places: map<int, PPageId>, issued: map<int, PPageId>, next: nat) {
    && (forall l {:trigger places[l]} :: l in places ==> l >= 0 && l in dir && dir[l] == places[l])
    && (forall l {:trigger dir[l]} :: l in dir ==> l in places && places[l] == dir[l])
    && (forall p {:trigger p in pages} :: p in pages ==> p.offset == 0 || WasIssued(issued, p))
    && (forall l {:trigger l in loaded} :: l in loaded ==> l < next)
  }

  lemma JoinNew(dir: map<LPageId, PPageId>, pages: set<PPageId>, loaded: set<LPageId>, places: map<int, PPageId>,
                issued: map<int, PPageId>, l: LPageId, p: PPageId, loaded': set<LPageId>)
    requires Joined(dir, pages, loaded, places, issued, l) && l !in places && l !in issued && p !in issued.Values &&
      p.offset != 0
    requires loaded' <= loaded + {l}
    ensures l !in dir && l !in loaded && p !in pages
    ensures Joined(dir[l := p], pages + {p}, loaded', places[l := p], issued[l := p], l + 1)
  {
    assert issued[l := p][l] == p;
    forall q | q in pages && q.offset != 0
      ensures WasIssued(issued[l := p], q) && q != p
    {
      var k :| k in issued && issued[k] == q;
      assert issued[l := p][k] == q && q in issued.Values;
    }
  }

  class PageStore {
    const pool: Pool.BufferPool
    const disk: Disk.DiskManager

    ghost predicate Fits()
      reads pool, disk, disk.directory, disk.directory.tree
    {
      Joined(pool.dir, pool.view.Keys, pool.lmap.Keys, disk.directory.Places(), disk.issued, disk.nextLpage)
    }

    ghost predicate Valid()
      reads pool, pool.policy, disk, disk.directory, disk.directory.tree
    {
      pool.Valid() && disk.Valid() && Fits()
    }

    /** A store whose only pages are file headers. */
    constructor (frames: nat, k: nat, headers: map<PPageId, Image>, firstId: nat)
      requires forall p :: p in headers ==> p.offset == 0
      ensures Valid() && fresh(pool) && fresh(pool.policy) && fresh(disk) && fresh(disk.directory) &&
        fresh(disk.directory.tree)
      ensures pool.view == headers && pool.dir == map[] && disk.nextLpage == firstId
    {
      hide Pool.BufferPool.Valid, Disk.DiskManager.Valid;
      pool := new Pool.BufferPool(frames, k, headers, map[]);
      disk := new Disk.DiskManager(firstId);
    }

    /** A fresh page: the disk manager's id and place are new to the pool, whatever file headers are loaded. */
    method NewPage(file: nat, blank: Image) returns (r: Result<Guard, Pool.PoolError>, l: LPageId, p: PPageId)
      requires Valid() && disk.nextLpage < Disk.U32_END &&
        (file in disk.nextPage ==> disk.nextPage[file] < Disk.U32_END)
      modifies pool, pool.policy, disk, disk.directory.tree
      ensures Valid() && p.offset != 0 && l == old(disk.nextLpage)
      ensures l !in old(pool.dir) && l !in old(pool.lmap) && p !in old(pool.view) && pool.dir == old(pool.dir)[l := p]
      ensures r.Err? <==> old(pool.vacant) == {} && old(pool.policy.Candidates()) == {}
      ensures r.Ok? ==> r.value.write && pool.guards == old(pool.guards) + multiset{r.value} && pool.Shows(r.value, l)
      ensures r.Ok? ==> p in pool.view && pool.view[p] == Pool.Zero()
      ensures SameHeld(old(pool.State()), pool.State(), old(pool.pins)) && pool.permanent == old(pool.permanent)
    {
      hide Pool.BufferPool.Valid, Disk.DiskManager.Valid, Joined, SameHeld, Pool.BufferPool.Shows, Evictor.Candidates,
        Pool.Zero;
      ghost var places, issued, loaded := disk.directory.Places(), disk.issued, pool.lmap.Keys;
      ghost var dir, pages := pool.dir, pool.view.Keys;
      var made := disk.NewPage(file);
      var (id, place) := made.value;
      l, p := id, place;
      JoinNew(dir, pages, loaded, places, issued, l, p, loaded);
      r := pool.NewPage(l, p, blank);
      JoinNew(dir, pages, loaded, places, issued, l, p, pool.lmap.Keys);
    }

    /** A file's header. The store stays in order exactly if the id in that header has not been issued and is not loaded
        for another file. */
    method FetchHeader(file: nat)
      returns (r: Result<Guard, Pool.PoolError>, ghost l: LPageId, ghost mid: PoolTheory.Pool)
      requires Valid() && PPageId(file, 0) in pool.view
      requires PPageId(file, 0) in pool.pmap ==> pool.Open(pool.pmap[PPageId(file, 0)], true)
      modifies pool, pool.policy
      ensures r.Err? <==>
        PPageId(file, 0) !in old(pool.pmap) && old(pool.vacant) == {} && old(pool.policy.Candidates()) == {}
      ensures r.Ok? ==> pool.ShowsAt(r.value, l, PPageId(file, 0)) && r.value.write
      ensures mid.lmap.Keys <= old(pool.lmap.Keys)
      ensures r.Ok? ==> (pool.Valid() <==> PPageId(file, 0) in old(pool.pmap) || (l !in mid.lmap && l !in pool.dir))
      ensures r.Err? || (pool.Valid() && l < disk.nextLpage) ==> Valid()
    {
      hide Pool.BufferPool.Valid, Disk.DiskManager.Valid, Pool.BufferPool.ShowsAt, Agrees;
      r, l, mid := pool.FetchPageAtLocWrite(PPageId(file, 0));
      forall k {:trigger pool.dir[k]} | k in pool.dir
        ensures pool.dir[k].offset != 0
      {
        disk.HeadersApart(k);
      }
      HeaderAgreesIff(pool.dir, l, PPageId(file, 0));
    }
  }
}
