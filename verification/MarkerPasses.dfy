/**
 The passes over the packages of a solution by which `calculate_markers` in `src/poetry/puzzle/solver.py` finds their
 markers, and what the markers are in the end.
 */
module MarkerPasses {
  import opened Conditions
  import opened Graphs
  import opened DepthFirst
  import opened SolvedPackages
  import opened PathMarkers
  import opened FeatureMarkers
  import opened MarkerDescents

  // ----- a pass

  /** The root, and the packages of the depths that a pass has come through. */
  ghost function Covered(g: Graph, packages: Infos, depth: int): set<Package> {
    set p | p in packages && (p == g.root || 0 <= packages[p].depth < depth)
  }

  ghost function AllReached(g: Graph, packages: Infos): set<Package> {
    set p | p in packages && Reached(g, packages, p)
  }

  ghost predicate UnchangedBut(before: Infos, now: Infos, done: set<Package>) {
    before.Keys == now.Keys && forall p <- now :: p in done || now[p] == before[p]
  }

  /** One more pass will find all parents known. */
  ghost predicate Completes(g: Graph, packages: Infos) {
    !Blocked(g, packages) && (Layered(g, packages) || AllKnown(packages, AllReached(g, packages)))
  }

  ghost predicate NoneWaits(g: Graph, packages: Infos, some: set<Package>) {
    forall q <- some :: !Waits(g, packages, q)
  }

  /** The packages in `done` have been computed since `before`; `complete` is the pass's verdict so far. */
  ghost predicate Advanced(g: Graph, before: Infos, now: Infos, done: set<Package>, complete: bool) {
    Advancement(g, before, now, done, complete) == Sound
  }

  ghost function Advancement(g: Graph, before: Infos, now: Infos, done: set<Package>, complete: bool): Condition {
    if && SameButMarkers(before, now) && UnchangedBut(before, now, done)
       && AllKnown(now, done) && (complete ==> NoneWaits(g, now, done))
       && (Completes(g, before) ==> complete)
    then Sound else Unsound
  }

  /** A pass that begins like this, and is complete so far, has computed everything exactly so far. */
  ghost predicate Suffices(g: Graph, before: Infos, complete: bool) {
    || (Layered(g, before) && !Blocked(g, before))
    || (Shaped(g, before) && (PlainExact(g, before) || (Fresh(before) && complete)))
  }

  ghost predicate Accurate(g: Graph, before: Infos, now: Infos, done: set<Package>, complete: bool) {
    Accuracy(g, before, now, done, complete) == Sound
  }

  ghost function Accuracy(g: Graph, before: Infos, now: Infos, done: set<Package>, complete: bool): Condition {
    if && (Shaped(g, before) ==> AllNearly(g, now, done))
       && (Suffices(g, before, complete) ==> AllExact(g, now, done))
    then Sound else Unsound
  }

  lemma {:induction false} SameDepths(g: Graph, before: Infos, now: Infos)
    requires SameButMarkers(before, now)
    ensures forall p <- now :: now[p].depth == before[p].depth && now[p].groups == before[p].groups
    ensures forall p :: Reached(g, before, p) <==> Reached(g, now, p)
    ensures forall q :: Waits(g, before, q) <==> Waits(g, now, q)
    ensures Blocked(g, before) <==> Blocked(g, now)
    ensures Layered(g, before) <==> Layered(g, now)
    ensures Shaped(g, before) <==> Shaped(g, now)
  {
    forall p <- now ensures now[p].depth == before[p].depth && now[p].groups == before[p].groups {
      assert before[p].(markers := map[]) == now[p].(markers := map[]);
    }
    forall q ensures Waits(g, before, q) <==> Waits(g, now, q) {
      if Waits(g, before, q) {
        var p :| p in before && !Reached(g, before, p) && g.HasEdge(p, q);
        assert p in now && !Reached(g, now, p);
      }
      if Waits(g, now, q) {
        var p :| p in now && !Reached(g, now, p) && g.HasEdge(p, q);
        assert p in before && !Reached(g, before, p);
      }
    }
    if Blocked(g, before) {
      var q :| q in before && before[q].depth >= 0 && Waits(g, before, q);
      assert q in now && now[q].depth >= 0;
    }
    if Blocked(g, now) {
      var q :| q in now && now[q].depth >= 0 && Waits(g, now, q);
      assert q in before && before[q].depth >= 0;
    }
  }

  lemma {:induction false} RankedKept(g: Graph, before: Infos, now: Infos)
    requires SameButMarkers(before, now) && Ranked(g, before)
    ensures Ranked(g, now)
  {
    SameDepths(g, before, now);
    forall q | q in now && q != g.root ensures Due(g, now, q) {
      assert Due(g, before, q);
    }
  }

  /** Without edges between equal depths: what the first pass finds, and what the next one finds after it. */
  ghost predicate Tracked(g: Graph, before: Infos, now: Infos, done: set<Package>, complete: bool) {
    Tracking(g, before, now, done, complete) == Sound
  }

  ghost function Tracking(g: Graph, before: Infos, now: Infos, done: set<Package>, complete: bool): Condition {
    if LevelFree(g, before) && !Blocked(g, before) ==>
       && (Fresh(before) ==> AllWithin(g, before, now, done, 0) && (complete ==> NoDescent(g, before, done)))
       && (AllWithin(g, before, before, AllReached(g, before), 0) ==> AllWithin(g, before, now, done, 1))
    then Sound else Unsound
  }

  lemma {:induction false} FirstAdvance(g: Graph, packages: Infos, markers: Markers)
    requires Input(g, packages, markers)
    ensures Advanced(g, packages, packages, Covered(g, packages, 0), true)
    ensures Accurate(g, packages, packages, Covered(g, packages, 0), true)
    ensures Tracked(g, packages, packages, Covered(g, packages, 0), true)
  {
    NoGroupsAtRoot(g, packages, markers, g.root);
    assert forall p <- g.edges, e <- g.edges[p] :: e.target != g.root;
  }

  lemma {:induction false} EntriesAreParents(g: Graph, packages: Infos, markers: Markers, q: Package)
    requires Input(g, packages, markers)
    ensures forall p <- Entries(markers, q) :: p in packages && g.HasEdge(p, q)
  {
    forall p <- Entries(markers, q) ensures p in packages && g.HasEdge(p, q) {
      EntriesInOrder(g, packages, markers, p, q);
      var groups :| groups in markers[q][p];
      assert HasKey(markers, q, p, groups);
    }
  }

  lemma {:induction false} ParentsAreEntries(g: Graph, packages: Infos, markers: Markers, p: Package, q: Package)
    requires Input(g, packages, markers) && p in packages && p != g.root && g.HasEdge(p, q)
    ensures p in Entries(markers, q)
  {
    var k :| 0 <= k < |g.Edges(p)| && g.Edges(p)[k].target == q;
    var e :| e in g.Edges(g.root) && g.Leads(e.target, p);
    var n := Node(p, e.origin);
    assert g.Legitimate(n) && g.Child(n, k).package == q;
    assert EdgeOf(g, p, q, n.origin.groups);
    assert HasKey(markers, q, p, n.origin.groups);
  }

  /** A parent that no pass comes to stays unknown. */
  lemma {:induction false} UnknownWhileWaiting(g: Graph, packages: Infos, markers: Markers, q: Package)
    requires Input(g, packages, markers) && Untouched(g, packages) && Waits(g, packages, q)
    ensures !AllKnown(packages, Entries(markers, q).Keys)
  {
    var p :| p in packages && !Reached(g, packages, p) && g.HasEdge(p, q);
    ParentsAreEntries(g, packages, markers, p, q);
    NoGroupsAtRoot(g, packages, markers, p);
    assert p in Entries(markers, q).Keys && !Known(packages, p);
  }

  /** The state before the next package is computed. */
  ghost predicate Coming(g: Graph, before: Infos, now: Infos, markers: Markers, done: set<Package>, complete: bool,
      q: Package)
  {
    && Input(g, now, markers) && Untouched(g, now) && SoundInfos(g, now)
    && Advanced(g, before, now, done, complete)
    && q in now && now[q].depth >= 0
    && (forall p <- now :: p == g.root || 0 <= now[p].depth < now[q].depth ==> p in done)
    && (forall p <- now :: p in done && p != g.root ==> now[p].depth <= now[q].depth)
  }

  lemma {:induction false} ComesNext(g: Graph, before: Infos, now: Infos, markers: Markers, depth: nat,
      todo: set<Package>, complete: bool, q: Package)
    requires Input(g, now, markers) && Untouched(g, now) && SoundInfos(g, now)
    requires q in todo && todo <= AtDepth(now, depth)
    requires Advanced(g, before, now, Covered(g, now, depth + 1) - todo, complete)
    ensures Coming(g, before, now, markers, Covered(g, now, depth + 1) - todo, complete, q)
  {
    assert q in AtDepth(now, depth);
    assert g.root !in todo;
    forall p <- todo ensures now[p].depth == depth {
      assert p in AtDepth(now, depth);
    }
  }

  lemma {:induction false} ParentsKnown(g: Graph, before: Infos, now: Infos, markers: Markers, done: set<Package>,
      complete: bool, q: Package)
    requires Coming(g, before, now, markers, done, complete, q) && Completes(g, before)
    ensures AllKnown(now, Entries(markers, q).Keys)
  {
    SameDepths(g, before, now);
    EntriesAreParents(g, now, markers, q);
    forall p <- Entries(markers, q).Keys ensures Known(now, p) {
      assert !Waits(g, now, q) && Reached(g, now, p);
      if p !in done {
        assert p in AllReached(g, before) && Known(before, p);
      }
    }
  }

  lemma {:induction false} ParentsDone(g: Graph, before: Infos, now: Infos, markers: Markers, done: set<Package>,
      complete: bool, q: Package)
    requires Coming(g, before, now, markers, done, complete, q) && AllExact(g, now, done)
    requires Layered(g, before) && !Blocked(g, before)
    ensures ParentsExact(g, now, q)
  {
    SameDepths(g, before, now);
    forall p <- now | p != g.root && g.HasEdge(p, q) ensures ExactInfo(g, p, now[p]) {
      assert !Waits(g, now, q) && Reached(g, now, p);
    }
  }

  lemma {:induction false} BelowDone(g: Graph, before: Infos, now: Infos, markers: Markers, done: set<Package>,
      complete: bool, q: Package)
    requires Coming(g, before, now, markers, done, complete, q) && AllNearly(g, now, done)
    requires Shaped(g, before)
    ensures NearlyBelow(g, now, q)
  {
    SameDepths(g, before, now);
    assert !Waits(g, now, q);
    forall p <- now | p != g.root && 0 <= now[p].depth < now[q].depth ensures NearlyExact(g, p, now[p]) {
      assert p in done;
    }
  }

  /** The packages with features whose base this is are exact, if they should be by now. */
  lemma {:induction false} BasesDone(g: Graph, before: Infos, now: Infos, markers: Markers, done: set<Package>,
      complete: bool, q: Package)
    requires Coming(g, before, now, markers, done, complete, q) && AllExact(g, now, done) && Shaped(g, before)
    requires PlainExact(g, before) || (Fresh(before) && AllKnown(now, Entries(markers, q).Keys))
    ensures BaseExact(g, now, q)
  {
    SameDepths(g, before, now);
    forall p <- now | BaseEdge(g, p, q) ensures ExactInfo(g, p, now[p]) {
      assert !Waits(g, now, q) && Reached(g, now, p);
      if p !in done {
        assert Plain(g, p) && now[p] == before[p];
        if !PlainExact(g, before) {
          ParentsAreEntries(g, now, markers, p, q);
          NoGroupsAtRoot(g, now, markers, p);
          assert Known(now, p);
        }
      }
    }
  }

  lemma {:induction false} KnownAfter(now: Infos, after: Infos, q: Package, some: set<Package>)
    requires q in now && q in after && after == now[q := after[q]] && Ready(after[q]) && AllKnown(now, some)
    ensures AllKnown(after, some + {q})
  {
    forall p <- some + {q} ensures Known(after, p) {
      assert p != q ==> p in some && Known(now, p);
    }
  }

  lemma {:induction false} ExactAfter(g: Graph, now: Infos, after: Infos, q: Package, some: set<Package>)
    requires q in now && q in after && after == now[q := after[q]]
    requires ExactInfo(g, q, after[q]) && AllExact(g, now, some)
    ensures AllExact(g, after, some + {q})
  {
    forall p <- some + {q} ensures p in after && (p == g.root || ExactInfo(g, p, after[p])) {
      assert p != q ==> p in some && after[p] == now[p];
    }
  }

  lemma {:induction false} NearlyAfter(g: Graph, now: Infos, after: Infos, q: Package, some: set<Package>)
    requires q in now && q in after && after == now[q := after[q]]
    requires NearlyExact(g, q, after[q]) && AllNearly(g, now, some)
    ensures AllNearly(g, after, some + {q})
  {
    forall p <- some + {q} ensures p in after && (p == g.root || NearlyExact(g, p, after[p])) {
      assert p != q ==> p in some && after[p] == now[p];
    }
  }

  /** What the computation makes of a package. */
  ghost predicate Improved(g: Graph, first: Infos, now: Infos, q: Package, info: Info)
    requires q in now
  {
    && (ParentsExact(g, now, q) ==> ExactInfo(g, q, info))
    && (NearlyBelow(g, now, q) ==> NearlyExact(g, q, info))
    && (NearlyBelow(g, now, q) && BaseExact(g, now, q) ==> ExactInfo(g, q, info))
    && (forall k: nat :: ParentsDue(g, first, now, q, k) ==> WithinExact(g, first, q, info, k))
  }

  ghost predicate Updated(g: Graph, first: Infos, now: Infos, after: Infos, q: Package)
    requires q in now
  {
    && q in after && after == now[q := after[q]] && SameButMarkers(now, after)
    && Ready(after[q]) && Improved(g, first, now, q, after[q])
  }

  lemma {:induction false} Improves(g: Graph, first: Infos, now: Infos, markers: Markers, q: Package, tm: Transitive)
    requires Input(g, now, markers) && SoundInfos(g, now)
    requires q in now && IsTransitive(now, markers, q, tm)
    ensures Improved(g, first, now, q, now[q].(markers := tm))
  {
    if ParentsExact(g, now, q) {
      TransitiveExact(g, now, markers, q, tm);
    }
    if NearlyBelow(g, now, q) {
      TransitiveNearly(g, now, markers, q, tm);
      if BaseExact(g, now, q) {
        TransitiveFull(g, now, markers, q, tm);
      }
    }
    forall k: nat | ParentsDue(g, first, now, q, k)
      ensures WithinExact(g, first, q, now[q].(markers := tm), k)
    {
      TransitiveWithin(g, first, now, markers, q, tm, k);
    }
  }

  lemma {:induction false} OthersKept(g: Graph, now: Infos, q: Package, tm: Transitive, after: Infos)
    requires SoundInfos(g, now) && Untouched(g, now)
    requires q in now && now[q].depth >= 0 && after == now[q := now[q].(markers := tm)]
    requires SoundInfo(g, q, after[q])
    ensures SameButMarkers(now, after) && SoundInfos(g, after) && Untouched(g, after)
  {
  }

  lemma {:induction false} UpdateRight(g: Graph, first: Infos, now: Infos, markers: Markers, q: Package, tm: Transitive,
      after: Infos)
    requires Input(g, now, markers) && SoundInfos(g, now) && Untouched(g, now)
    requires q in now && now[q].depth >= 0 && IsTransitive(now, markers, q, tm)
    requires after == now[q := now[q].(markers := tm)]
    ensures Updated(g, first, now, after, q)
    ensures Input(g, after, markers) && SoundInfos(g, after) && Untouched(g, after)
  {
    TransitiveSound(g, now, markers, q, tm);
    assert after[q] == now[q].(markers := tm);
    OthersKept(g, now, q, tm, after);
    assert Improved(g, first, now, q, after[q]) by {
      Improves(g, first, now, markers, q, tm);
    }
    InputKept(g, now, after, markers);
  }

  lemma {:induction false} NoneWaitsAfter(g: Graph, now: Infos, after: Infos, markers: Markers, q: Package,
      some: set<Package>)
    requires Input(g, now, markers) && Untouched(g, now) && SameButMarkers(now, after)
    requires NoneWaits(g, now, some) && AllKnown(now, Entries(markers, q).Keys)
    ensures NoneWaits(g, after, some + {q})
  {
    SameDepths(g, now, after);
    if Waits(g, now, q) {
      UnknownWhileWaiting(g, now, markers, q);
    }
  }

  lemma {:induction false} Advance(g: Graph, before: Infos, now: Infos, after: Infos, markers: Markers,
      done: set<Package>, complete: bool, q: Package, known: bool)
    requires Coming(g, before, now, markers, done, complete, q) && Updated(g, before, now, after, q)
    requires known <==> AllKnown(now, Entries(markers, q).Keys)
    ensures Advanced(g, before, after, done + {q}, complete && known)
  {
    SameKept(before, now, after);
    KnownAfter(now, after, q, done);
    if complete && known {
      NoneWaitsAfter(g, now, after, markers, q, done);
    }
    if Completes(g, before) {
      ParentsKnown(g, before, now, markers, done, complete, q);
    }
  }

  lemma {:induction false} ExactNext(g: Graph, before: Infos, now: Infos, after: Infos, markers: Markers,
      done: set<Package>, complete: bool, q: Package, known: bool)
    requires Coming(g, before, now, markers, done, complete, q) && Updated(g, before, now, after, q)
    requires known <==> AllKnown(now, Entries(markers, q).Keys)
    requires Accurate(g, before, now, done, complete) && Suffices(g, before, complete && known)
    ensures ExactInfo(g, q, after[q])
  {
    if Layered(g, before) && !Blocked(g, before) {
      ParentsDone(g, before, now, markers, done, complete, q);
    } else {
      BelowDone(g, before, now, markers, done, complete, q);
      BasesDone(g, before, now, markers, done, complete, q);
    }
  }

  lemma {:induction false} AdvanceExact(g: Graph, before: Infos, now: Infos, after: Infos, markers: Markers,
      done: set<Package>, complete: bool, q: Package, known: bool)
    requires Coming(g, before, now, markers, done, complete, q) && Updated(g, before, now, after, q)
    requires known <==> AllKnown(now, Entries(markers, q).Keys)
    requires Accurate(g, before, now, done, complete)
    ensures Accurate(g, before, after, done + {q}, complete && known)
  {
    if Shaped(g, before) {
      BelowDone(g, before, now, markers, done, complete, q);
      NearlyAfter(g, now, after, q, done);
    }
    if Suffices(g, before, complete && known) {
      ExactNext(g, before, now, after, markers, done, complete, q, known);
      ExactAfter(g, now, after, q, done);
    }
  }

  lemma {:induction false} WithinAfter(g: Graph, first: Infos, now: Infos, after: Infos, q: Package,
      some: set<Package>, k: nat)
    requires q in now && q in after && after == now[q := after[q]]
    requires WithinExact(g, first, q, after[q], k) && AllWithin(g, first, now, some, k)
    ensures AllWithin(g, first, after, some + {q}, k)
  {
    forall p <- some + {q} ensures p in after && (p == g.root || WithinExact(g, first, p, after[p], k)) {
      assert p != q ==> p in some && after[p] == now[p];
    }
  }

  /** In the first pass only parents of smaller depth are known. */
  lemma {:induction false} FirstDue(g: Graph, before: Infos, now: Infos, markers: Markers, done: set<Package>,
      complete: bool, q: Package)
    requires Coming(g, before, now, markers, done, complete, q) && LevelFree(g, before) && !Blocked(g, before)
    requires Fresh(before) && AllWithin(g, before, now, done, 0)
    ensures ParentsDue(g, before, now, q, 0)
    ensures AllKnown(now, Entries(markers, q).Keys) ==> NoDescent(g, before, {q})
  {
    SameDepths(g, before, now);
    assert !Waits(g, now, q);
    forall p <- now | p != g.root && g.HasEdge(p, q)
      ensures ParentDue(g, before, now, p, q, 0)
      ensures AllKnown(now, Entries(markers, q).Keys) ==> Rises(before, p, q)
    {
      assert Reached(g, now, p);
      ParentsAreEntries(g, now, markers, p, q);
      NoGroupsAtRoot(g, now, markers, p);
      if !Rises(before, p, q) {
        assert p !in done && now[p] == before[p] && !Known(now, p);
      }
    }
  }

  /** In the next pass the others are as the first pass has left them. */
  lemma {:induction false} NextDue(g: Graph, before: Infos, now: Infos, markers: Markers, done: set<Package>,
      complete: bool, q: Package)
    requires Coming(g, before, now, markers, done, complete, q) && LevelFree(g, before) && !Blocked(g, before)
    requires AllWithin(g, before, before, AllReached(g, before), 0) && AllWithin(g, before, now, done, 1)
    ensures ParentsDue(g, before, now, q, 1)
  {
    SameDepths(g, before, now);
    assert !Waits(g, now, q);
    forall p <- now | p != g.root && g.HasEdge(p, q) ensures ParentDue(g, before, now, p, q, 1) {
      assert Reached(g, now, p);
      if !Rises(before, p, q) {
        assert p !in done && now[p] == before[p] && p in AllReached(g, before);
      }
    }
  }

  lemma {:induction false} AdvanceTracked(g: Graph, before: Infos, now: Infos, after: Infos, markers: Markers,
      done: set<Package>, complete: bool, q: Package, known: bool)
    requires Coming(g, before, now, markers, done, complete, q) && Updated(g, before, now, after, q)
    requires known <==> AllKnown(now, Entries(markers, q).Keys)
    requires Tracked(g, before, now, done, complete)
    ensures Tracked(g, before, after, done + {q}, complete && known)
  {
    if LevelFree(g, before) && !Blocked(g, before) {
      if Fresh(before) {
        FirstDue(g, before, now, markers, done, complete, q);
        WithinAfter(g, before, now, after, q, done, 0);
      }
      if AllWithin(g, before, before, AllReached(g, before), 0) {
        NextDue(g, before, now, markers, done, complete, q);
        WithinAfter(g, before, now, after, q, done, 1);
      }
    }
  }

  function AtDepth(packages: Infos, depth: int): set<Package> {
    set p | p in packages && packages[p].depth == depth
  }

  lemma {:induction false} LayerStarts(g: Graph, packages: Infos, depth: nat)
    requires Grounded(g, packages)
    ensures Covered(g, packages, depth + 1) - AtDepth(packages, depth) == Covered(g, packages, depth)
  {
  }

  lemma {:induction false} LayerEnds(g: Graph, packages: Infos, depth: int)
    ensures Covered(g, packages, depth) - {} == Covered(g, packages, depth)
  {
  }

  lemma {:induction false} LayerGoesOn(g: Graph, packages: Infos, depth: nat, todo: set<Package>, q: Package)
    requires q in AtDepth(packages, depth)
    ensures Covered(g, packages, depth + 1) - (todo - {q}) == Covered(g, packages, depth + 1) - todo + {q}
  {
  }

  lemma {:induction false} SameLayers(g: Graph, before: Infos, now: Infos, depth: int)
    requires SameButMarkers(before, now)
    ensures Covered(g, before, depth + 1) == Covered(g, now, depth + 1)
    ensures AtDepth(before, depth) == AtDepth(now, depth)
  {
    SameDepths(g, before, now);
  }

  lemma {:induction false} SameKept(before: Infos, now: Infos, after: Infos)
    requires SameButMarkers(before, now) && SameButMarkers(now, after)
    ensures SameButMarkers(before, after)
  {
    forall p <- before ensures after[p].(markers := map[]) == before[p].(markers := map[]) {
      assert after[p].(markers := map[]) == now[p].(markers := map[]);
    }
  }

  lemma {:induction false} EverythingCovered(g: Graph, before: Infos, packages: Infos, depth: int)
    requires SameButMarkers(before, packages) && forall p <- before :: before[p].depth < depth
    ensures Covered(g, packages, depth) == AllReached(g, packages)
  {
    SameDepths(g, before, packages);
  }

  /** A pass is complete only if no parent is left out, and one is enough where each parent comes first. */
  ghost predicate Passed(g: Graph, before: Infos, now: Infos, complete: bool) {
    && SameButMarkers(before, now) && AllKnown(now, AllReached(g, now))
    && (Blocked(g, before) ==> !complete)
    && (Completes(g, before) ==> complete)
    && (Shaped(g, before) ==> PlainExact(g, now))
    && (Suffices(g, before, complete) ==> AllExact(g, now, AllReached(g, now)))
    && Tracked(g, before, now, AllReached(g, now), complete)
  }

  lemma {:induction false} PassDone(g: Graph, before: Infos, now: Infos, complete: bool)
    requires Advanced(g, before, now, AllReached(g, now), complete)
    requires Accurate(g, before, now, AllReached(g, now), complete)
    requires Tracked(g, before, now, AllReached(g, now), complete)
    ensures Passed(g, before, now, complete)
  {
    SameDepths(g, before, now);
    if Blocked(g, now) {
      var q :| q in now && now[q].depth >= 0 && Waits(g, now, q);
      assert q in AllReached(g, now);
    }
    if Shaped(g, before) {
      forall p <- now | p != g.root && now[p].depth >= 0 && Plain(g, p) ensures ExactInfo(g, p, now[p]) {
        assert p in AllReached(g, now);
        ExactWhenPlain(g, p, now[p]);
      }
    }
  }

  /** The state of the outer loop after this many passes, the last of which was complete or not. */
  ghost predicate Passes(g: Graph, first: Infos, now: Infos, passes: nat, ended: bool) {
    PassesCondition(g, first, now, passes, ended) == Sound
  }

  ghost function PassesCondition(g: Graph, first: Infos, now: Infos, passes: nat, ended: bool): Condition {
    if && SameButMarkers(first, now)
       && (passes == 0 ==> now == first && !ended)
       && (passes > 0 ==> AllKnown(now, AllReached(g, now)))
       && (Blocked(g, first) ==> !ended)
       && (!Blocked(g, first) ==> passes <= 2 && (passes == 2 ==> ended))
       && (Layered(g, first) && !Blocked(g, first) && passes > 0 ==>
             ended && passes == 1 && AllExact(g, now, AllReached(g, now)))
       && (Shaped(g, first) && Fresh(first) && passes > 0 ==> PlainExact(g, now))
       && (Shaped(g, first) && Fresh(first) && ended ==> AllExact(g, now, AllReached(g, now)))
    then Sound else Unsound
  }

  /** Without edges between equal depths, each pass takes one more edge to a smaller depth into account. */
  ghost predicate PassesWithin(g: Graph, first: Infos, now: Infos, passes: nat, ended: bool) {
    WithinCondition(g, first, now, passes, ended) == Sound
  }

  ghost function WithinCondition(g: Graph, first: Infos, now: Infos, passes: nat, ended: bool): Condition {
    if LevelFree(g, first) && !Blocked(g, first) && Fresh(first) && passes > 0 ==>
       && AllWithin(g, first, now, AllReached(g, now), passes - 1)
       && (passes == 1 && ended ==> NoDescent(g, first, AllReached(g, now)))
    then Sound else Unsound
  }

  lemma {:induction false} ReferTo(g: Graph, first: Infos, second: Infos, now: Infos, some: set<Package>, k: nat)
    requires SameButMarkers(first, second) && AllWithin(g, first, now, some, k)
    ensures AllWithin(g, second, now, some, k)
  {
    forall group, q, env
      ensures NeededWithin(g, first, group, q, env, k) <==> NeededWithin(g, second, group, q, env, k)
    {
      SameWithin(g, first, second, group, q, env, k);
    }
  }

  lemma {:induction false} SameLevels(g: Graph, first: Infos, now: Infos)
    requires SameButMarkers(first, now)
    ensures LevelFree(g, first) <==> LevelFree(g, now)
  {
    SameDepths(g, first, now);
  }

  lemma {:induction false} SameTurned(first: Infos, now: Infos)
    requires SameButMarkers(first, now)
    ensures SameButMarkers(now, first)
  {
  }

  lemma {:induction false} AnotherPassWithin(g: Graph, first: Infos, before: Infos, now: Infos, passes: nat,
      complete: bool)
    requires Passes(g, first, before, passes, false) && PassesWithin(g, first, before, passes, false)
    requires Passed(g, before, now, complete)
    ensures PassesWithin(g, first, now, passes + 1, complete)
  {
    if LevelFree(g, first) && !Blocked(g, first) && Fresh(first) {
      SameDepths(g, first, before);
      SameDepths(g, before, now);
      if passes == 1 {
        SameLevels(g, first, before);
        SameTurned(first, before);
        ReferTo(g, first, before, before, AllReached(g, before), 0);
        ReferTo(g, before, first, now, AllReached(g, now), 1);
      }
    }
  }

  lemma {:induction false} AnotherPass(g: Graph, first: Infos, before: Infos, now: Infos, passes: nat, complete: bool)
    requires Passes(g, first, before, passes, false) && Passed(g, before, now, complete)
    ensures Passes(g, first, now, passes + 1, complete)
  {
    SameKept(first, before, now);
    SameDepths(g, first, before);
    SameDepths(g, before, now);
    if !Blocked(g, first) && passes > 0 {
      assert Completes(g, before);
    }
  }

  class Calculation {
    ghost const graph: Graph
    const markers: Markers
    var packages: Infos

    ghost predicate Valid()
      reads this
    {
      Condition() == Sound
    }

    ghost function Condition(): Condition
      reads this
    {
      if Input(graph, packages, markers) && SoundInfos(graph, packages) && Untouched(graph, packages)
      then Sound else Unsound
    }

    constructor (ghost graph: Graph, packages: Infos, markers: Markers)
      ensures this.graph == graph && this.packages == packages && this.markers == markers
    {
      this.graph, this.packages, this.markers := graph, packages, markers;
    }

    /** Unite what one parent contributes, unless its markers are not known yet. */
    method UnitePackage(p: Package, q: Package, tm: Transitive) returns (r: Transitive, known: bool)
      requires Input(graph, packages, markers) && q in packages && p in Entries(markers, q)
      requires tm.Keys == packages[q].groups
      ensures p in packages && r.Keys == tm.Keys && (known <==> Known(packages, p))
      ensures forall group <- tm, env :: env in r[group] <==>
        env in tm[group] || Brings(packages, markers, p, q, group, env)
    {
      EntriesInOrder(graph, packages, markers, p, q);
      r, known := tm, true;
      if packages[p].groups != {} {
        if Ready(packages[p]) {
          r := UniteParent(tm, packages[p], markers[q][p]);
        } else {
          known := false;
        }
      } else {
        NoGroupsAtRoot(graph, packages, markers, p);
        forall groups <- markers[q][p] ensures groups != {} {
          RootKeysGiven(graph, packages, markers, q, groups);
        }
        r := UniteRoot(tm, markers[q][p]);
      }
    }

    /** What the markers of a package are, as far as those of its parents are known. */
    method TransitiveMarker(q: Package) returns (tm: Transitive, complete: bool)
      requires Input(graph, packages, markers) && q in packages
      ensures tm.Keys == packages[q].groups
      ensures complete <==> forall p <- Entries(markers, q) :: Known(packages, p)
      ensures forall group <- tm, env :: env in tm[group] <==>
        BroughtBySome(packages, markers, Entries(markers, q).Keys, q, group, env)
    {
      tm := map group | group in packages[q].groups :: {};
      complete := true;
      var entries := Entries(markers, q);
      var todo := entries.Keys;
      while todo != {}
        invariant todo <= entries.Keys && tm.Keys == packages[q].groups
        invariant complete <==> forall p <- entries.Keys - todo :: Known(packages, p)
        invariant forall group <- tm, env :: env in tm[group] <==>
          BroughtBySome(packages, markers, entries.Keys - todo, q, group, env)
        decreases |todo|
      {
        var p :| p in todo;
        ghost var before := tm;
        var known;
        tm, known := UnitePackage(p, q, tm);
        complete := complete && known;
        OneMoreParent(packages, markers, entries.Keys - todo, p, q, before, tm);
        todo := todo - {p};
      }
    }

    /** One package's markers are computed anew. */
    method Update(q: Package, ghost first: Infos) returns (complete: bool)
      requires Valid() && q in packages && packages[q].depth >= 0
      modifies this`packages
      ensures Valid() && Updated(graph, first, old(packages), packages, q)
      ensures complete <==> AllKnown(old(packages), Entries(markers, q).Keys)
    {
      var tm;
      tm, complete := TransitiveMarker(q);
      UpdateRight(graph, first, packages, markers, q, tm, packages[q := packages[q].(markers := tm)]);
      packages := packages[q := packages[q].(markers := tm)];
    }

    /** The next package of the layer. */
    method Step(depth: nat, todo: set<Package>, q: Package, ghost before: Infos, complete: bool) returns (c: bool)
      requires Valid() && q in todo && todo <= AtDepth(packages, depth)
      requires Advanced(graph, before, packages, Covered(graph, packages, depth + 1) - todo, complete)
      requires Accurate(graph, before, packages, Covered(graph, packages, depth + 1) - todo, complete)
      requires Tracked(graph, before, packages, Covered(graph, packages, depth + 1) - todo, complete)
      modifies this`packages
      ensures Valid() && todo <= AtDepth(packages, depth)
      ensures Advanced(graph, before, packages, Covered(graph, packages, depth + 1) - (todo - {q}), c)
      ensures Accurate(graph, before, packages, Covered(graph, packages, depth + 1) - (todo - {q}), c)
      ensures Tracked(graph, before, packages, Covered(graph, packages, depth + 1) - (todo - {q}), c)
    {
      ghost var now, done := packages, Covered(graph, packages, depth + 1) - todo;
      ComesNext(graph, before, now, markers, depth, todo, complete, q);
      var known := Update(q, before);
      Advance(graph, before, now, packages, markers, done, complete, q, known);
      AdvanceExact(graph, before, now, packages, markers, done, complete, q, known);
      AdvanceTracked(graph, before, now, packages, markers, done, complete, q, known);
      c := complete && known;
      SameLayers(graph, now, packages, depth);
      LayerGoesOn(graph, packages, depth, todo, q);
    }

    /** The packages of one depth, in any order. */
    method Layer(depth: nat, ghost before: Infos, complete: bool) returns (c: bool)
      requires Valid() && Advanced(graph, before, packages, Covered(graph, packages, depth), complete)
      requires Accurate(graph, before, packages, Covered(graph, packages, depth), complete)
      requires Tracked(graph, before, packages, Covered(graph, packages, depth), complete)
      modifies this`packages
      ensures Valid() && Advanced(graph, before, packages, Covered(graph, packages, depth + 1), c)
      ensures Accurate(graph, before, packages, Covered(graph, packages, depth + 1), c)
      ensures Tracked(graph, before, packages, Covered(graph, packages, depth + 1), c)
    {
      c := complete;
      var todo := AtDepth(packages, depth);
      LayerStarts(graph, packages, depth);
      while todo != {}
        invariant Valid() && todo <= AtDepth(packages, depth)
        invariant Advanced(graph, before, packages, Covered(graph, packages, depth + 1) - todo, c)
        invariant Accurate(graph, before, packages, Covered(graph, packages, depth + 1) - todo, c)
        invariant Tracked(graph, before, packages, Covered(graph, packages, depth + 1) - todo, c)
        decreases todo
      {
        var q :| q in todo;
        c := Step(depth, todo, q, before, c);
        todo := todo - {q};
      }
      LayerEnds(graph, packages, depth + 1);
    }

    /** One pass over the packages from depth 0 to the greatest one. */
    method Pass(maxDepth: int) returns (complete: bool)
      requires Valid() && maxDepth >= -1 && forall p <- packages :: packages[p].depth <= maxDepth
      modifies this`packages
      ensures Valid() && Passed(graph, old(packages), packages, complete)
    {
      complete := true;
      FirstAdvance(graph, packages, markers);
      for depth := 0 to maxDepth + 1
        invariant Valid() && Advanced(graph, old(packages), packages, Covered(graph, packages, depth), complete)
        invariant Accurate(graph, old(packages), packages, Covered(graph, packages, depth), complete)
        invariant Tracked(graph, old(packages), packages, Covered(graph, packages, depth), complete)
      {
        complete := Layer(depth, old(packages), complete);
      }
      EverythingCovered(graph, old(packages), packages, maxDepth + 1);
      PassDone(graph, old(packages), packages, complete);
    }

    method MaxDepth() returns (m: int)
      ensures m >= -1 && forall p <- packages :: packages[p].depth <= m
    {
      m := -1;
      var todo := packages.Keys;
      while todo != {}
        invariant m >= -1 && todo <= packages.Keys
        invariant forall p <- packages :: p in todo || packages[p].depth <= m
        decreases todo
      {
        var p :| p in todo;
        m := if packages[p].depth > m then packages[p].depth else m;
        todo := todo - {p};
      }
    }

    /**
     `calculate_markers`, broken off after `limit` passes: a second pass is needed only when packages depend on
     each other in a circle or a package on its own base; the loop never ends when a parent is left out.
     */
    method Calculate(limit: nat) returns (passes: nat, ended: bool)
      requires Valid()
      modifies this`packages
      ensures Valid() && Passes(graph, old(packages), packages, passes, ended)
      ensures PassesWithin(graph, old(packages), packages, passes, ended)
      ensures passes <= limit && (passes == limit || ended)
    {
      var maxDepth := MaxDepth();
      passes, ended := 0, false;
      while !ended && passes < limit
        invariant Valid() && Passes(graph, old(packages), packages, passes, ended)
        invariant PassesWithin(graph, old(packages), packages, passes, ended)
        invariant passes <= limit && forall p <- packages :: packages[p].depth <= maxDepth
      {
        ghost var before := packages;
        ended := Pass(maxDepth);
        AnotherPassWithin(graph, old(packages), before, packages, passes, ended);
        AnotherPass(graph, old(packages), before, packages, passes, ended);
        SameDepths(graph, before, packages);
        passes := passes + 1;
      }
    }
  }

  // ----- the whole computation

  ghost predicate NoSameBase(g: Graph) {
    forall p, q :: g.HasEdge(p, q) ==> p.baseName != q.baseName
  }

  lemma {:induction false} LayeredWhenAcyclic(g: Graph, packages: Infos)
    requires Ranked(g, packages) && NoSameBase(g)
    ensures Layered(g, packages) && Featured(g)
  {
  }

  /** The calculation can be blocked only when the root depends on a package of its own base name. */
  lemma {:induction false} BlockedByOwnBase(g: Graph, packages: Infos)
    requires Grounded(g, packages) && NoOwnBase(g)
    ensures !Blocked(g, packages) && forall p <- packages :: Reached(g, packages, p)
  {
    assert forall p <- packages :: Reached(g, packages, p);
  }

  ghost predicate MarkersSound(g: Graph, results: Infos) {
    forall q <- results, group <- results[q].markers, env <- results[q].markers[group] :: NeededIn(g, group, q, env)
  }

  ghost predicate MarkersComplete(g: Graph, results: Infos) {
    forall q <- results, group, env :: results[q].depth >= 0 && NeededIn(g, group, q, env) ==>
      group in results[q].markers && env in results[q].markers[group]
  }

  ghost predicate Holds(info: Info, group: string, env: Environment) {
    group in info.markers && env in info.markers[group]
  }

  /** The markers hold exactly where some path does that has at most `k` edges not leading to a greater depth. */
  ghost predicate MarkersWithin(g: Graph, results: Infos, k: nat) {
    forall q <- results, group, env :: results[q].depth >= 0 ==>
      (Holds(results[q], group, env) <==> NeededWithin(g, results, group, q, env, k))
  }

  lemma {:induction false} CompleteWhenExact(g: Graph, results: Infos)
    requires g.Valid() && Exact(g, results) && Grounded(g, results) && AllExact(g, results, AllReached(g, results))
    ensures MarkersComplete(g, results)
  {
    forall q <- results, group, env | results[q].depth >= 0 && NeededIn(g, group, q, env)
      ensures group in results[q].markers && env in results[q].markers[group]
    {
      NeededIsPackage(g, results, group, q, env);
      assert q in AllReached(g, results);
    }
  }

  /** If no edge leads to a smaller depth, no path needs one. */
  lemma {:induction false} FlatWithin(g: Graph, results: Infos, group: string, q: Package, env: Environment, k: nat)
    requires g.Valid() && Exact(g, results) && !Blocked(g, results) && NoDescent(g, results, AllReached(g, results))
    requires Reached(g, results, q) && NeededWithin(g, results, group, q, env, k)
    ensures NeededWithin(g, results, group, q, env, 0)
  {
    var path :| PathIn(g, group, env, path) && path[|path| - 1] == q && Descents(results, path) <= k;
    FlatPath(g, results, AllReached(g, results), group, env, path);
  }

  lemma {:induction false} WithinOne(g: Graph, results: Infos, q: Package, group: string, env: Environment, k: nat)
    requires g.Valid() && Exact(g, results) && Grounded(g, results) && !Blocked(g, results)
    requires q in results && results[q].depth >= 0 && WithinExact(g, results, q, results[q], k)
    requires k == 1 || (k == 0 && NoDescent(g, results, AllReached(g, results)))
    ensures Holds(results[q], group, env) <==> NeededWithin(g, results, group, q, env, 1)
  {
    if NeededWithin(g, results, group, q, env, 1) {
      if k == 0 {
        FlatWithin(g, results, group, q, env, 1);
      }
      WithinIsNeeded(g, results, group, q, env, 1);
      NeededIsPackage(g, results, group, q, env);
    }
    if NeededWithin(g, results, group, q, env, k) && k == 0 {
      WithinIsNeeded(g, results, group, q, env, 0);
    }
  }

  /** What the loop leaves behind when it has ended. */
  lemma {:induction false} WithinAtEnd(g: Graph, first: Infos, results: Infos, passes: nat)
    requires g.Valid() && Exact(g, results) && Grounded(g, results) && Fresh(first)
    requires Passes(g, first, results, passes, true) && PassesWithin(g, first, results, passes, true)
    requires LevelFree(g, results)
    ensures MarkersWithin(g, results, 1)
  {
    SameDepths(g, first, results);
    SameLevels(g, first, results);
    ReferTo(g, first, results, results, AllReached(g, results), passes - 1);
    forall q <- results, group, env | results[q].depth >= 0
      ensures Holds(results[q], group, env) <==> NeededWithin(g, results, group, q, env, 1)
    {
      assert q in AllReached(g, results);
      WithinOne(g, results, q, group, env, passes - 1);
    }
  }

  /** So the markers are complete exactly if no package is needed by paths only that have more such edges. */
  lemma {:induction false} CompleteExactly(g: Graph, results: Infos)
    requires MarkersWithin(g, results, 1)
    ensures MarkersComplete(g, results) <==>
      forall q <- results, group, env :: results[q].depth >= 0 && NeededIn(g, group, q, env) ==>
        NeededWithin(g, results, group, q, env, 1)
  {
    forall q <- results, group, env
      ensures results[q].depth >= 0 ==>
        (Holds(results[q], group, env) <==> NeededWithin(g, results, group, q, env, 1))
    {}
  }

  /** What the whole computation has found, when the loop was broken off or has ended. */
  ghost predicate MarkersFound(g: Graph, results: Infos, ended: bool) {
    && Exact(g, results) && Grounded(g, results) && MarkersSound(g, results)
    && (g.Acyclic() ==> Ranked(g, results)) && (OneOrigin(g) ==> MutualApart(g, results))
    && (ended && g.Acyclic() && Featured(g) ==> MarkersComplete(g, results))
    && (ended && LevelFree(g, results) ==> MarkersWithin(g, results, 1))
  }

  lemma {:induction false} EndsFound(g: Graph, infos: Infos, results: Infos, markers: Markers, passes: nat, ended: bool)
    requires Input(g, results, markers) && SoundInfos(g, results) && Fresh(infos)
    requires g.Acyclic() ==> Ranked(g, infos)
    requires OneOrigin(g) ==> MutualApart(g, infos)
    requires Passes(g, infos, results, passes, ended) && PassesWithin(g, infos, results, passes, ended)
    ensures MarkersFound(g, results, ended)
  {
    SameDepths(g, infos, results);
    if g.Acyclic() {
      RankedKept(g, infos, results);
    }
    if ended && g.Acyclic() && Featured(g) {
      assert Shaped(g, infos);
      CompleteWhenExact(g, results);
    }
    if ended && LevelFree(g, results) {
      WithinAtEnd(g, infos, results, passes);
    }
  }

  /** Whether the loop ends, and that after a pass all groups have markers. */
  ghost predicate Ending(g: Graph, results: Infos, limit: nat, ended: bool) {
    && (NoOwnBase(g) ==> !Blocked(g, results))
    && (Blocked(g, results) ==> !ended)
    && (!Blocked(g, results) && limit >= 2 ==> ended)
    && (!Blocked(g, results) && g.Acyclic() && NoSameBase(g) && limit >= 1 ==> ended)
    && (limit >= 1 ==> GroupsMarked(g, results))
  }

  ghost predicate GroupsMarked(g: Graph, results: Infos) {
    forall q <- results, group :: results[q].depth >= 0 && NeededByGroup(g, group, q) ==> group in results[q].markers
  }

  lemma {:induction false} AllMarked(g: Graph, results: Infos)
    requires Exact(g, results) && AllKnown(results, AllReached(g, results))
    ensures GroupsMarked(g, results)
  {
    forall q <- results, group | results[q].depth >= 0 && NeededByGroup(g, group, q)
      ensures group in results[q].markers
    {
      assert q in AllReached(g, results) && Known(results, q) && group in results[q].groups;
    }
  }

  lemma {:induction false} EndsRight(g: Graph, infos: Infos, results: Infos, passes: nat, limit: nat, ended: bool)
    requires Exact(g, results) && Grounded(g, results) && (g.Acyclic() ==> Ranked(g, infos))
    requires Passes(g, infos, results, passes, ended) && passes <= limit && (passes == limit || ended)
    ensures Ending(g, results, limit, ended)
  {
    SameDepths(g, infos, results);
    if NoOwnBase(g) {
      BlockedByOwnBase(g, results);
    }
    if g.Acyclic() && NoSameBase(g) {
      LayeredWhenAcyclic(g, infos);
    }
    if limit >= 1 {
      AllMarked(g, results);
    }
  }

  /**
   `_aggregate_solved_packages`, with the loop of `calculate_markers` broken off after `limit` passes: for every
   package that is needed, the groups that need it, and for each of these a marker that holds only where a path
   of edges does. It holds wherever one does on acyclic graphs; on others, a path with more than one edge that
   does not lead to a greater depth is missed.
   */
  method TransitiveInfos(g: Graph, limit: nat) returns (results: Infos, ended: bool)
    requires g.Valid() && GroupsGiven(g)
    ensures MarkersFound(g, results, ended) && Ending(g, results, limit, ended)
  {
    var infos, markers := Aggregate(g);
    var calculation := new Calculation(g, infos, markers);
    var passes;
    passes, ended := calculation.Calculate(limit);
    results := calculation.packages;
    EndsFound(g, infos, results, markers, passes, ended);
    EndsRight(g, infos, results, passes, limit, ended);
  }
}
