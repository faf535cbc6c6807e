/**
 The solver's cache of search results (`DependencyCache` in
 `src/poetry/mixology/version_solver.py`): a stack of result lists per package, of which the ones
 added at a decision level are popped when the solver goes back below that level.
 */
module SearchCaches {
  import opened Conditions
  import opened Options
  import opened Repositories

  type Name = string

  /** A list object; the cache tells two lists apart by identity, not by contents. */
  datatype Listing = Listing(id: nat, packages: seq<Package>)

  /** One push: at which level, for which package and search, and what was pushed. */
  datatype Push = Push(level: nat, name: Name, query: Query, listing: Listing)

  // ----- what the history of pushes says about the fields

  function StackOf(log: seq<Push>, n: Name): seq<Listing> {
    if log == [] then []
    else
      var last := log[|log| - 1];
      StackOf(log[..|log| - 1], n) + if last.name == n then [last.listing] else []
  }

  function NamesAt(log: seq<Push>, level: nat): seq<Name> {
    if log == [] then []
    else
      var last := log[|log| - 1];
      NamesAt(log[..|log| - 1], level) + if last.level == level then [last.name] else []
  }

  ghost predicate LevelsRise(log: seq<Push>) {
    forall i, j :: 0 <= i < j < |log| ==> log[i].level <= log[j].level
  }

  ghost predicate AllBelow(log: seq<Push>, level: nat) {
    forall i :: 0 <= i < |log| ==> log[i].level < level
  }

  ghost predicate AllAt(log: seq<Push>, level: nat) {
    forall i :: 0 <= i < |log| ==> log[i].level == level
  }

  function Get<K, V>(m: map<K, seq<V>>, k: K): seq<V> {
    if k in m then m[k] else []
  }

  /** The search whose result is on top of the stack of a package. */
  function Newest(log: seq<Push>, n: Name): Option<Push> {
    if log == [] then None
    else if log[|log| - 1].name == n then Some(log[|log| - 1])
    else Newest(log[..|log| - 1], n)
  }

  lemma {:induction false} NewestIsTop(log: seq<Push>, n: Name)
    ensures match Newest(log, n)
            case None => StackOf(log, n) == []
            case Some(p) => p in log && p.name == n && StackOf(log, n) != []
                            && StackOf(log, n)[|StackOf(log, n)| - 1] == p.listing
    decreases |log|
  {
    if log != [] && log[|log| - 1].name != n {
      NewestIsTop(log[..|log| - 1], n);
    }
  }

  lemma {:induction false} NoNamesAbove(log: seq<Push>, level: nat)
    requires AllBelow(log, level)
    ensures NamesAt(log, level) == []
    decreases |log|
  {
    if log != [] {
      NoNamesAbove(log[..|log| - 1], level);
    }
  }

  lemma {:induction false} SplitStack(base: seq<Push>, more: seq<Push>, n: Name)
    ensures StackOf(base + more, n) == StackOf(base, n) + StackOf(more, n)
    decreases |more|
  {
    if more == [] {
      assert base + more == base;
    } else {
      assert (base + more)[..|base + more| - 1] == base + more[..|more| - 1];
      SplitStack(base, more[..|more| - 1], n);
    }
  }

  lemma {:induction false} SplitNames(base: seq<Push>, more: seq<Push>, level: nat)
    ensures NamesAt(base + more, level) == NamesAt(base, level) + NamesAt(more, level)
    decreases |more|
  {
    if more == [] {
      assert base + more == base;
    } else {
      assert (base + more)[..|base + more| - 1] == base + more[..|more| - 1];
      SplitNames(base, more[..|more| - 1], level);
    }
  }

  function Count(names: seq<Name>, n: Name): nat {
    if names == [] then 0 else (if names[0] == n then 1 else 0) + Count(names[1..], n)
  }

  lemma {:induction false} CountAppend(a: seq<Name>, b: seq<Name>, n: Name)
    ensures Count(a + b, n) == Count(a, n) + Count(b, n)
  {
    if a == [] {
      assert a + b == b;
    } else {
      assert (a + b)[1..] == a[1..] + b;
      CountAppend(a[1..], b, n);
    }
  }

  /** A level has as many entries on a package's stack as it lists the package. */
  lemma {:induction false} StackHeight(more: seq<Push>, level: nat, n: Name)
    requires AllAt(more, level)
    ensures |StackOf(more, n)| == Count(NamesAt(more, level), n)
    decreases |more|
  {
    if more != [] {
      var init, last := more[..|more| - 1], more[|more| - 1];
      StackHeight(init, level, n);
      CountAppend(NamesAt(init, level), [last.name], n);
    }
  }

  lemma {:induction false} OtherLevel(more: seq<Push>, level: nat, other: nat)
    requires level != other && AllAt(more, level)
    ensures NamesAt(more, other) == []
    decreases |more|
  {
    if more != [] {
      OtherLevel(more[..|more| - 1], level, other);
    }
  }

  /** The pushes of levels below the given one. */
  function Below(log: seq<Push>, level: nat): seq<Push> {
    if log == [] || log[|log| - 1].level < level then log else Below(log[..|log| - 1], level)
  }

  lemma {:induction false} BelowSplits(log: seq<Push>, level: nat)
    requires LevelsRise(log)
    ensures Below(log, level) <= log && AllBelow(Below(log, level), level)
    ensures forall i :: |Below(log, level)| <= i < |log| ==> log[i].level >= level
    decreases |log|
  {
    if log != [] && log[|log| - 1].level >= level {
      BelowSplits(log[..|log| - 1], level);
    }
  }

  ghost predicate Stacked(cache: map<Name, seq<Listing>>, log: seq<Push>) {
    forall n :: Get(cache, n) == StackOf(log, n)
  }

  ghost predicate Levelled(byLevel: map<nat, seq<Name>>, log: seq<Push>) {
    forall l :: Get(byLevel, l) == NamesAt(log, l)
  }

  /** The stacks hold the base, and of what was pushed since as much as there are names left. */
  ghost predicate Popping(cache: map<Name, seq<Listing>>, base: seq<Push>, more: seq<Push>, names: seq<Name>) {
    forall n :: PoppingOne(Get(cache, n), StackOf(base, n), StackOf(more, n), Count(names, n))
  }

  ghost predicate PoppingOne(stack: seq<Listing>, base: seq<Listing>, more: seq<Listing>, k: nat) {
    k <= |more| && stack == base + more[..k]
  }

  lemma {:induction false} PopOne(cache: map<Name, seq<Listing>>, base: seq<Push>, more: seq<Push>, names: seq<Name>)
    requires names != [] && Popping(cache, base, more, names)
    ensures var stack := Get(cache, names[0]);
            stack != [] && Popping(cache[names[0] := stack[..|stack| - 1]], base, more, names[1..])
  {
    var top := names[0];
    assert PoppingOne(Get(cache, top), StackOf(base, top), StackOf(more, top), Count(names, top));
    var stack := Get(cache, top);
    var after := cache[top := stack[..|stack| - 1]];
    forall n
      ensures PoppingOne(Get(after, n), StackOf(base, n), StackOf(more, n), Count(names[1..], n))
    {
      assert PoppingOne(Get(cache, n), StackOf(base, n), StackOf(more, n), Count(names, n));
    }
  }

  lemma {:induction false} PoppingStarts(cache: map<Name, seq<Listing>>, base: seq<Push>, more: seq<Push>, level: nat)
    requires Stacked(cache, base + more) && AllAt(more, level)
    ensures Popping(cache, base, more, NamesAt(more, level))
  {
    forall n
      ensures PoppingOne(Get(cache, n), StackOf(base, n), StackOf(more, n), Count(NamesAt(more, level), n))
    {
      StackHeight(more, level, n);
      SplitStack(base, more, n);
      var stack := StackOf(more, n);
      assert stack[..|stack|] == stack;
      assert Get(cache, n) == StackOf(base + more, n);
    }
  }

  lemma {:induction false} PoppingEnds(cache: map<Name, seq<Listing>>, base: seq<Push>, more: seq<Push>)
    requires Popping(cache, base, more, [])
    ensures Stacked(cache, base)
  {
    forall n
      ensures Get(cache, n) == StackOf(base, n)
    {
      assert PoppingOne(Get(cache, n), StackOf(base, n), StackOf(more, n), Count([], n));
    }
  }

  /** The search was narrowed from the newest one for the package, if there is one. */
  ghost predicate NarrowedFrom(log: seq<Push>, n: Name, q: Query) {
    match Newest(log, n)
    case None => true
    case Some(p) => q.allowPrereleases == p.query.allowPrereleases && q.constraint.Narrows(p.query.constraint)
  }

  class DependencyCache {
    const repository: map<Name, seq<Package>>
    var cache: map<Name, seq<Listing>>
    var cachedByLevel: map<nat, seq<Name>>
    var memo: map<(Name, Query), Listing>
    var nextId: nat
    ghost var log: seq<Push>

    function Packages(n: Name): seq<Package> {
      if n in repository then repository[n] else []
    }

    predicate Answers(p: Push) {
      p.listing.packages == SearchFor(Packages(p.name), p.query)
    }

    ghost predicate AllAnswer(log: seq<Push>) {
      forall i :: 0 <= i < |log| ==> Answers(log[i])
    }

    lemma {:induction false} PushKeepsAnswers(log: seq<Push>, p: Push)
      requires AllAnswer(log) && Answers(p)
      ensures AllAnswer(log + [p])
    {
    }

    ghost predicate Valid()
      reads this
    {
      Condition() == Sound
    }

    ghost function Condition(): Condition
      reads this
    {
      if
        && (forall n :: DistinctVersions(Packages(n)))
        && LevelsRise(log) && Stacked(cache, log) && Levelled(cachedByLevel, log)
        && AllAnswer(log)
        && (forall k <- memo :: memo[k].packages == SearchFor(Packages(k.0), k.1))
      then Sound else Unsound
    }

    constructor (repository: map<Name, seq<Package>>)
      requires forall n <- repository :: DistinctVersions(repository[n])
      ensures Valid() && log == [] && this.repository == repository
    {
      this.repository := repository;
      cache, cachedByLevel, memo, nextId, log := map[], map[], map[], 0, [];
    }

    /** The search was narrowed from the one on top of the package's stack, if there is one. */
    ghost predicate Narrowed(n: Name, q: Query)
      reads this
    {
      NarrowedFrom(log, n, q)
    }

    /** `_search_for`: filters the newest list, and searches afresh if nothing is left of it. */
    method Compute(n: Name, q: Query) returns (packages: seq<Package>)
      requires Valid() && Narrowed(n, q)
      ensures packages == SearchFor(Packages(n), q)
    {
      var entries := Get(cache, n);
      NewestIsTop(log, n);
      packages := [];
      if entries != [] {
        var p := Newest(log, n).value;
        packages := Filter(entries[|entries| - 1].packages, (x: Package) => q.constraint.Allows(x.version));
        if packages != [] {
          SearchNarrowed(Packages(n), p.query, q.constraint);
        }
      }
      if packages == [] {
        packages := SearchFor(Packages(n), q);
      }
    }

    /** The memoised computation; the memo may forget any of its entries when it takes a new one. */
    method Recall(n: Name, q: Query) returns (packages: Listing)
      requires Valid() && Narrowed(n, q)
      modifies this`memo, this`nextId
      ensures Valid() && packages.packages == SearchFor(Packages(n), q)
    {
      if (n, q) in memo {
        return memo[(n, q)];
      }
      var found := Compute(n, q);
      packages := Listing(nextId, found);
      nextId := nextId + 1;
      var kept :| kept <= memo.Keys;
      memo := (map k | k in kept && k in memo :: memo[k])[(n, q) := packages];
    }

    /** Answers as a direct search would, and pushes the answer unless it is the list on top. */
    method Search(n: Name, q: Query, level: nat) returns (packages: Listing)
      requires Valid() && Narrowed(n, q)
      requires AllBelow(log, level + 1)
      modifies this
      ensures Valid() && packages.packages == SearchFor(Packages(n), q)
      ensures var entries := old(Get(cache, n));
              log == if entries == [] || entries[|entries| - 1].id != packages.id
                     then old(log) + [Push(level, n, q, packages)] else old(log)
    {
      packages := Recall(n, q);
      var entries := Get(cache, n);
      if entries == [] || entries[|entries| - 1].id != packages.id {
        Remember(Push(level, n, q, packages));
      }
    }

    /** Pushes a list and notes the level at which this happened. */
    method Remember(p: Push)
      requires Valid() && AllBelow(log, p.level + 1)
      requires Answers(p)
      modifies this`cache, this`cachedByLevel, this`log
      ensures Valid() && log == old(log) + [p]
    {
      ghost var longer := log + [p];
      var stacks := cache[p.name := Get(cache, p.name) + [p.listing]];
      var byLevel := cachedByLevel[p.level := Get(cachedByLevel, p.level) + [p.name]];
      PushKeepsRising(log, p);
      PushKeepsStacks(log, p, cache);
      PushKeepsLevels(log, p, cachedByLevel);
      PushKeepsAnswers(log, p);
      cache, cachedByLevel := stacks, byLevel;
      log := longer;
    }

    /**
     Forgets what was cached at a level, which has to be the highest one: the stacks are then those
     that hold what was pushed below that level.
     */
    method ClearLevel(level: nat)
      requires Valid() && AllBelow(log, level + 1)
      modifies this
      ensures Valid() && log == Below(old(log), level) && AllBelow(log, level)
    {
      LevelSplits(log, level);
      ghost var base := Below(log, level);
      PopLevel(level, base, log[|base|..]);
      log := base;
    }

    /** Pops the lists of a level off their stacks. */
    method PopLevel(level: nat, ghost base: seq<Push>, ghost more: seq<Push>)
      requires Stacked(cache, base + more) && Levelled(cachedByLevel, base + more)
      requires AllBelow(base, level) && AllAt(more, level)
      modifies this`cache, this`cachedByLevel, this`memo
      ensures Stacked(cache, base) && Levelled(cachedByLevel, base)
      ensures memo == old(memo) || memo == map[]
    {
      NamesOfLevel(base, more, level, cachedByLevel);
      PoppingStarts(cache, base, more, level);
      if level in cachedByLevel {
        memo := map[];
        PopAll(cachedByLevel[level], base, more);
        cachedByLevel := cachedByLevel - {level};
      }
      PoppingEnds(cache, base, more);
    }

    /** Pops one list for each of the names. */
    method PopAll(names: seq<Name>, ghost base: seq<Push>, ghost more: seq<Push>)
      requires Popping(cache, base, more, names)
      modifies this`cache
      ensures Popping(cache, base, more, [])
    {
      assert names[0..] == names;
      for k := 0 to |names|
        invariant Popping(cache, base, more, names[k..])
      {
        PopOne(cache, base, more, names[k..]);
        assert names[k..][1..] == names[k + 1..];
        var stack := Get(cache, names[k]);
        cache := cache[names[k] := stack[..|stack| - 1]];
      }
    }

    /** Clears the levels above the given one, from the highest down, as the solver does on backjumps. */
    method ClearAbove(level: nat, top: nat)
      requires Valid() && level <= top && AllBelow(log, top + 1)
      modifies this
      ensures Valid() && log == Below(old(log), level + 1)
    {
      var l := top;
      BelowAll(log, top);
      while l > level
        invariant level <= l <= top && Valid() && log == Below(old(log), l + 1)
        invariant AllBelow(log, l + 1)
      {
        BelowTwice(old(log), l, l + 1);
        ClearLevel(l);
        l := l - 1;
      }
    }
  }

  /** The highest level is the end of the history. */
  lemma {:induction false} LevelSplits(log: seq<Push>, level: nat)
    requires LevelsRise(log) && AllBelow(log, level + 1)
    ensures var base := Below(log, level);
            && |base| <= |log| && log == base + log[|base|..]
            && LevelsRise(base) && AllBelow(base, level)
            && AllAt(log[|base|..], level)
  {
    BelowSplits(log, level);
    var base := Below(log, level);
    assert base == log[..|base|];
  }

  lemma {:induction false} BelowAll(log: seq<Push>, top: nat)
    requires AllBelow(log, top + 1)
    ensures Below(log, top + 1) == log
  {
  }

  lemma {:induction false} BelowTwice(log: seq<Push>, low: nat, high: nat)
    requires low <= high
    ensures Below(Below(log, high), low) == Below(log, low)
    decreases |log|
  {
    if log != [] && log[|log| - 1].level >= high {
      BelowTwice(log[..|log| - 1], low, high);
    }
  }

  /**
   Whatever was pushed at higher levels in between, once these levels are cleared the history, and
   with it every stack and every level's list, is the one from before.
   */
  lemma {:induction false} ClearingRestores(before: seq<Push>, since: seq<Push>, level: nat)
    requires AllBelow(before, level + 1) && forall i :: 0 <= i < |since| ==> since[i].level > level
    ensures Below(before + since, level + 1) == before
    decreases |since|
  {
    if since == [] {
      assert before + since == before;
      BelowAll(before, level);
    } else {
      assert (before + since)[..|before + since| - 1] == before + since[..|since| - 1];
      ClearingRestores(before, since[..|since| - 1], level);
    }
  }

  lemma {:induction false} NamesOfLevel(base: seq<Push>, more: seq<Push>, level: nat, byLevel: map<nat, seq<Name>>)
    requires AllBelow(base, level) && AllAt(more, level)
    requires Levelled(byLevel, base + more)
    ensures Get(byLevel, level) == NamesAt(more, level)
    ensures Levelled(byLevel - {level}, base)
    ensures level !in byLevel ==> byLevel - {level} == byLevel
  {
    NoNamesAbove(base, level);
    forall l
      ensures Get(byLevel, l) == NamesAt(base, l) + NamesAt(more, l)
      ensures l != level ==> NamesAt(more, l) == []
      ensures Get(byLevel - {level}, l) == if l == level then [] else Get(byLevel, l)
    {
      SplitNames(base, more, l);
      if l != level {
        OtherLevel(more, level, l);
      }
    }
  }

  lemma {:induction false} PushKeepsStacks(log: seq<Push>, p: Push, cache: map<Name, seq<Listing>>)
    requires Stacked(cache, log)
    ensures Stacked(cache[p.name := Get(cache, p.name) + [p.listing]], log + [p])
  {
    var longer, after := log + [p], cache[p.name := Get(cache, p.name) + [p.listing]];
    assert longer[..|longer| - 1] == log;
    forall n
      ensures Get(after, n) == StackOf(longer, n)
    {
      assert Get(cache, n) == StackOf(log, n);
    }
  }

  lemma {:induction false} PushKeepsLevels(log: seq<Push>, p: Push, byLevel: map<nat, seq<Name>>)
    requires Levelled(byLevel, log)
    ensures Levelled(byLevel[p.level := Get(byLevel, p.level) + [p.name]], log + [p])
  {
    var longer, after := log + [p], byLevel[p.level := Get(byLevel, p.level) + [p.name]];
    assert longer[..|longer| - 1] == log;
    forall l
      ensures Get(after, l) == NamesAt(longer, l)
    {
      assert Get(byLevel, l) == NamesAt(log, l);
    }
  }

  lemma {:induction false} PushKeepsRising(log: seq<Push>, p: Push)
    requires LevelsRise(log) && AllBelow(log, p.level + 1)
    ensures LevelsRise(log + [p])
  {
  }
}
