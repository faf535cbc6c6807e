/**
 The operations that turn what is installed into what was solved (`Transaction.calculate_operations` in
 `src/poetry/puzzle/transaction.py`). Names are numbered in their alphabetical order.
 */
module Transactions {
  import opened Conditions
  import opened Options
  import opened Priorities
  import Graphs

  type Name = nat

  datatype Package = Package(name: Name, version: nat, sourceType: string, reference: nat)

  /** A solved package: its node in the graph and depth, and whether the project asks for it. */
  datatype Result = Result(
    package: Package, node: Graphs.Package, depth: int, optional: bool, applies: bool, inExtras: bool)

  /** How to tell what the project asks for: by markers and groups, by extras, or not at all. */
  datatype Mode = ByEnvironment | ByExtras | Everything

  datatype Need = Required | Unsolicited | Irrelevant

  datatype Settings = Settings(
    mode: Mode, withUninstalls: bool, synchronize: bool, skipDirectory: bool,
    systemSite: set<Name>, root: Option<Name>, pip: Name)

  datatype Operation =
    | Install(package: Package, depth: int, skipped: bool)
    | Update(initial: Package, package: Package, depth: int)
    | Uninstall(package: Package)
  {
    function Priority(): Priority {
      if Uninstall? then Infinite else Depth(depth)
    }

    predicate Skipped() {
      Install? && skipped
    }
  }

  type Site = map<Name, Package>

  ghost predicate ByName(e: Site) {
    forall n <- e :: e[n].name == n
  }

  function NeedOf(mode: Mode, r: Result): Need {
    match mode
    case ByEnvironment => if r.applies then Required else if r.optional then Unsolicited else Irrelevant
    case ByExtras => if r.optional && !r.inExtras then Unsolicited else Required
    case Everything => Required
  }

  /** The version or the source changed; an installed package without a source may stem from a legacy one. */
  predicate Outdated(result: Package, installed: Package) {
    || result.version != installed.version
    || ((installed.sourceType != "" || result.sourceType != "legacy") && result != installed)
  }

  // ----- what running the operations leads to

  function Execute(op: Operation, e: Site): Site {
    if op.Skipped() then e
    else if op.Uninstall? then e - {op.package.name}
    else e[op.package.name := op.package]
  }

  function ExecuteAll(ops: seq<Operation>, e: Site): Site {
    if ops == [] then e else Execute(ops[|ops| - 1], ExecuteAll(ops[..|ops| - 1], e))
  }

  function Lookup(e: Site, n: Name): Option<Package> {
    if n in e then Some(e[n]) else None
  }

  /** What the operation makes of its package. */
  function Outcome(op: Operation): Option<Package> {
    if op.Uninstall? then None else Some(op.package)
  }

  predicate Concerns(op: Operation, n: Name) {
    !op.Skipped() && op.package.name == n
  }

  /** If all operations for the name agree, the order in which they are carried out makes no difference. */
  lemma {:induction false} OutcomeOfAll(ops: seq<Operation>, e: Site, n: Name, outcome: Option<Package>)
    requires forall op <- ops :: Concerns(op, n) ==> Outcome(op) == outcome
    ensures Lookup(ExecuteAll(ops, e), n) == if exists op <- ops :: Concerns(op, n) then outcome else Lookup(e, n)
  {
    if ops != [] {
      var rest, last := ops[..|ops| - 1], ops[|ops| - 1];
      OutcomeOfAll(rest, e, n, outcome);
      assert ops == rest + [last];
      assert (exists op <- ops :: Concerns(op, n)) <==> Concerns(last, n) || exists op <- rest :: Concerns(op, n);
    }
  }

  // ----- one operation for each name

  predicate Apart(a: Operation, b: Operation) {
    a.Skipped() || b.Skipped() || a.package.name != b.package.name
  }

  /** No two operations that are carried out are about the same name. */
  ghost predicate OnePerName(ops: seq<Operation>) {
    forall i, j :: 0 <= i < j < |ops| ==> Apart(ops[i], ops[j])
  }

  lemma {:induction false} FoundTwice(ops: seq<Operation>, op: Operation) returns (i: nat, j: nat)
    requires multiset(ops)[op] >= 2
    ensures i < j < |ops| && ops[i] == op && ops[j] == op
  {
    var rest, last := ops[..|ops| - 1], ops[|ops| - 1];
    assert ops == rest + [last];
    if last == op {
      assert op in multiset(rest);
      i :| 0 <= i < |rest| && rest[i] == op;
      j := |rest|;
    } else {
      i, j := FoundTwice(rest, op);
    }
  }

  lemma {:induction false} CountedTwice(ops: seq<Operation>, i: nat, j: nat)
    requires i < j < |ops| && ops[i] == ops[j]
    ensures multiset(ops)[ops[i]] >= 2
  {
    assert ops == ops[..j] + [ops[j]] + ops[j + 1..];
    assert ops[i] in ops[..j];
  }

  /** Whatever order the operations are in. */
  lemma {:induction false} OnePerNameInAnyOrder(ops: seq<Operation>, others: seq<Operation>)
    requires multiset(ops) == multiset(others)
    ensures OperationsPerName(ops) == OperationsPerName(others)
  {
    if OnePerName(ops) {
      OnePerNameReordered(ops, others);
    }
    if OnePerName(others) {
      OnePerNameReordered(others, ops);
    }
  }

  lemma {:induction false} OnePerNameReordered(ops: seq<Operation>, others: seq<Operation>)
    requires multiset(ops) == multiset(others) && OnePerName(ops)
    ensures OnePerName(others)
  {
    forall i, j | 0 <= i < j < |others| ensures Apart(others[i], others[j]) {
      if others[i] == others[j] {
        CountedTwice(others, i, j);
        var k, l := FoundTwice(ops, others[i]);
      } else {
        assert others[i] in multiset(ops) && others[j] in multiset(ops);
        var k :| 0 <= k < |ops| && ops[k] == others[i];
        var l :| 0 <= l < |ops| && ops[l] == others[j];
        assert k < l || l < k;
      }
    }
  }

  // ----- the final order

  predicate Before(a: Operation, b: Operation) {
    || Above(a.Priority(), b.Priority())
    || (a.Priority() == b.Priority()
        && (a.package.name < b.package.name
            || (a.package.name == b.package.name && a.package.version <= b.package.version)))
  }

  /** Uninstalls first, then deeper packages before less deep ones; the rest by name and version. */
  ghost predicate Precedes(a: Operation, b: Operation) {
    if a.Uninstall? != b.Uninstall? then a.Uninstall?
    else if !a.Uninstall? && a.depth != b.depth then a.depth > b.depth
    else if a.package.name != b.package.name then a.package.name < b.package.name
    else a.package.version <= b.package.version
  }

  ghost predicate InOrder(ops: seq<Operation>) {
    forall i, j :: 0 <= i < j < |ops| ==> Precedes(ops[i], ops[j])
  }

  lemma {:induction false} PrecedesTotally(a: Operation, b: Operation)
    ensures Before(a, b) <==> Precedes(a, b)
    ensures Precedes(a, b) || Precedes(b, a)
  {
  }

  /** Insert behind everything that may come before, as a stable sort does. */
  function Insert(op: Operation, ops: seq<Operation>): (r: seq<Operation>)
    ensures multiset(r) == multiset(ops) + multiset{op}
  {
    if ops == [] then [op]
    else if Before(ops[|ops| - 1], op) then ops + [op]
    else
      assert ops == ops[..|ops| - 1] + [ops[|ops| - 1]];
      Insert(op, ops[..|ops| - 1]) + [ops[|ops| - 1]]
  }

  function Sorted(ops: seq<Operation>): (r: seq<Operation>)
    ensures multiset(r) == multiset(ops)
  {
    if ops == [] then []
    else
      assert ops == ops[..|ops| - 1] + [ops[|ops| - 1]];
      Insert(ops[|ops| - 1], Sorted(ops[..|ops| - 1]))
  }

  lemma {:induction false} AppendKeepsOrder(ops: seq<Operation>, last: Operation)
    requires InOrder(ops) && forall op <- ops :: Precedes(op, last)
    ensures InOrder(ops + [last])
  {
  }

  lemma {:induction false} InsertKeepsOrder(op: Operation, ops: seq<Operation>)
    requires InOrder(ops)
    ensures InOrder(Insert(op, ops))
  {
    if ops != [] {
      var rest, last := ops[..|ops| - 1], ops[|ops| - 1];
      PrecedesTotally(last, op);
      if Precedes(last, op) {
        forall x <- ops ensures Precedes(x, op) {
          assert x == last || Precedes(x, last);
        }
        AppendKeepsOrder(ops, op);
      } else {
        InsertKeepsOrder(op, rest);
        forall x <- Insert(op, rest) ensures Precedes(x, last) {
          assert x in multiset(rest) + multiset{op};
          if x != op {
            assert x in rest;
          }
        }
        AppendKeepsOrder(Insert(op, rest), last);
      }
    }
  }

  lemma {:induction false} SortedIsInOrder(ops: seq<Operation>)
    ensures InOrder(Sorted(ops))
  {
    if ops != [] {
      SortedIsInOrder(ops[..|ops| - 1]);
      InsertKeepsOrder(ops[|ops| - 1], Sorted(ops[..|ops| - 1]));
    }
  }

  // ----- which operations there are

  /** The operation for one solved package, if there is one. */
  function ResultOperation(s: Settings, installed: Site, r: Result): Option<Operation> {
    var need, n := NeedOf(s.mode, r), r.package.name;
    if need.Irrelevant? then None
    else if n in installed then
      if need.Unsolicited? then None
      else if Outdated(r.package, installed[n]) then Some(Update(installed[n], r.package, r.depth))
      else Some(Install(r.package, 0, true))
    else if s.skipDirectory && r.package.sourceType == "directory" then None
    else Some(Install(r.package, r.depth, need.Unsolicited?))
  }

  ghost function ResultNames(results: seq<Result>): set<Name> {
    set r | r in results :: r.package.name
  }

  /**
   The project asks for the solved package: its marker and groups apply; or, where only extras are known, it is no
   optional package or one of an extra asked for; or all solved packages are asked for.
   */
  ghost predicate AskedFor(s: Settings, r: Result) {
    || s.mode.Everything?
    || (s.mode.ByEnvironment? && r.applies)
    || (s.mode.ByExtras? && (!r.optional || r.inExtras))
  }

  /** The installed package may stay: it is the solved one, or the same version, and the source cannot be told. */
  ghost predicate MayStay(solved: Package, there: Package) {
    || solved == there
    || (solved.version == there.version && solved.sourceType == "legacy" && there.sourceType == "")
  }

  /** A package in a directory that is to be left out. */
  ghost predicate LeftOut(s: Settings, p: Package) {
    s.skipDirectory && p.sourceType == "directory"
  }

  ghost function RequiredNames(s: Settings, results: seq<Result>): set<Name> {
    set r | r in results && AskedFor(s, r) :: r.package.name
  }

  /** No two solved packages of one name lead to operations that are carried out. */
  ghost predicate CarriedOutOnce(s: Settings, installed: Site, results: seq<Result>) {
    forall i, j :: 0 <= i < j < |results| ==> ResultsApart(s, installed, results[i], results[j])
  }

  predicate ResultsApart(s: Settings, installed: Site, a: Result, b: Result) {
    var opA, opB := ResultOperation(s, installed, a), ResultOperation(s, installed, b);
    opA.Some? && opB.Some? ==> Apart(opA.value, opB.value)
  }

  /** The operations are those of the solved packages. */
  ghost predicate ResultOperations(s: Settings, installed: Site, results: seq<Result>, ops: seq<Operation>) {
    Agreement(s, installed, results, ops) == Sound
  }

  ghost function Agreement(s: Settings, installed: Site, results: seq<Result>, ops: seq<Operation>): Condition {
    if && (forall op <- ops :: exists r <- results :: ResultOperation(s, installed, r) == Some(op))
       && (forall r <- results ::
             ResultOperation(s, installed, r).Some? ==> ResultOperation(s, installed, r).value in ops)
    then Sound else Unsound
  }

  /** Sound if no name has several operations that are carried out. */
  ghost function OperationsPerName(ops: seq<Operation>): Condition {
    if OnePerName(ops) then Sound else Unsound
  }

  ghost function ResultsPerName(s: Settings, installed: Site, results: seq<Result>): Condition {
    if CarriedOutOnce(s, installed, results) then Sound else Unsound
  }

  function WithOperation(ops: seq<Operation>, own: Option<Operation>): seq<Operation> {
    if own.Some? then ops + [own.value] else ops
  }

  lemma {:induction false} OneMoreApart(ops: seq<Operation>, op: Operation)
    ensures OnePerName(ops + [op]) <==> OnePerName(ops) && forall x <- ops :: Apart(x, op)
  {
    var all := ops + [op];
    if OnePerName(all) {
      forall i, j | 0 <= i < j < |ops| ensures Apart(ops[i], ops[j]) {
        assert Apart(all[i], all[j]);
      }
      forall x <- ops ensures Apart(x, op) {
        var i :| 0 <= i < |ops| && ops[i] == x;
        assert Apart(all[i], all[|ops|]);
      }
    }
  }

  lemma {:induction false} OneMoreResultApart(s: Settings, installed: Site, results: seq<Result>, i: nat)
    requires i < |results|
    ensures CarriedOutOnce(s, installed, results[..i + 1]) <==>
      CarriedOutOnce(s, installed, results[..i])
      && forall r <- results[..i] :: ResultsApart(s, installed, r, results[i])
  {
    var all, some := results[..i + 1], results[..i];
    assert all == some + [results[i]];
    if CarriedOutOnce(s, installed, all) {
      forall j, k | 0 <= j < k < |some| ensures ResultsApart(s, installed, some[j], some[k]) {
        assert ResultsApart(s, installed, all[j], all[k]);
      }
      forall r <- some ensures ResultsApart(s, installed, r, results[i]) {
        var j :| 0 <= j < |some| && some[j] == r;
        assert ResultsApart(s, installed, all[j], all[i]);
      }
    }
  }

  lemma {:induction false} MoreOperations(s: Settings, installed: Site, results: seq<Result>, i: nat,
      ops: seq<Operation>)
    requires i < |results| && ResultOperations(s, installed, results[..i], ops)
    ensures ResultOperations(s, installed, results[..i + 1],
                             WithOperation(ops, ResultOperation(s, installed, results[i])))
  {
    assert results[..i + 1] == results[..i] + [results[i]];
    assert results[i] in results[..i + 1];
  }

  lemma {:induction false} MoreCarriedOut(s: Settings, installed: Site, results: seq<Result>, i: nat,
      ops: seq<Operation>)
    requires i < |results| && ResultOperations(s, installed, results[..i], ops)
    requires OperationsPerName(ops) == ResultsPerName(s, installed, results[..i])
    ensures OperationsPerName(WithOperation(ops, ResultOperation(s, installed, results[i])))
         == ResultsPerName(s, installed, results[..i + 1])
  {
    OneMoreResultApart(s, installed, results, i);
    var own := ResultOperation(s, installed, results[i]);
    if own.Some? {
      OneMoreApart(ops, own.value);
      OperationsApart(s, installed, results[..i], ops, results[i]);
    }
  }

  lemma {:induction false} OperationsApart(s: Settings, installed: Site, results: seq<Result>, ops: seq<Operation>,
      r: Result)
    requires ResultOperations(s, installed, results, ops) && ResultOperation(s, installed, r).Some?
    ensures (forall op <- ops :: Apart(op, ResultOperation(s, installed, r).value)) <==>
      (forall x <- results :: ResultsApart(s, installed, x, r))
  {
    if forall x <- results :: ResultsApart(s, installed, x, r) {
      forall op <- ops ensures Apart(op, ResultOperation(s, installed, r).value) {
        var x :| x in results && ResultOperation(s, installed, x) == Some(op);
        assert ResultsApart(s, installed, x, r);
      }
    }
  }

  lemma {:induction false} MoreRequired(s: Settings, results: seq<Result>, i: nat)
    requires i < |results|
    ensures RequiredNames(s, results[..i + 1]) == RequiredNames(s, results[..i]) + RequiredNames(s, [results[i]])
  {
    assert results[..i + 1] == results[..i] + [results[i]];
  }

  lemma {:induction false} RequiredOne(s: Settings, r: Result)
    ensures RequiredNames(s, [r]) == if AskedFor(s, r) then {r.package.name} else {}
  {
  }

  method OperateOnResults(s: Settings, installed: Site, results: seq<Result>)
    returns (ops: seq<Operation>, relevant: set<Name>)
    ensures ResultOperations(s, installed, results, ops)
    ensures OperationsPerName(ops) == ResultsPerName(s, installed, results)
    ensures relevant == RequiredNames(s, results)
  {
    ops, relevant := [], {};
    for i := 0 to |results|
      invariant ResultOperations(s, installed, results[..i], ops)
      invariant OperationsPerName(ops) == ResultsPerName(s, installed, results[..i])
      invariant relevant == RequiredNames(s, results[..i])
    {
      MoreRequired(s, results, i);
      MoreOperations(s, installed, results, i, ops);
      MoreCarriedOut(s, installed, results, i, ops);
      ops, relevant := OperateOnResult(s, installed, results[i], ops, relevant);
    }
    assert results[..|results|] == results;
  }

  method OperateOnResult(s: Settings, installed: Site, r: Result, ops: seq<Operation>, relevant: set<Name>)
    returns (more: seq<Operation>, moreRelevant: set<Name>)
    ensures more == WithOperation(ops, ResultOperation(s, installed, r))
    ensures moreRelevant == relevant + RequiredNames(s, [r])
  {
    more, moreRelevant := ops, relevant;
    RequiredOne(s, r);
    if NeedOf(s.mode, r).Required? {
      moreRelevant := relevant + {r.package.name};
    }
    var op := ResultOperation(s, installed, r);
    if op.Some? {
      more := ops + [op.value];
    }
  }

  // ----- what is uninstalled

  /** No longer part of the solution although it was part of the previous one. */
  ghost predicate Orphaned(results: seq<Result>, current: seq<Package>, n: Name) {
    n !in ResultNames(results) && exists p <- current :: p.name == n
  }

  /** Neither asked for nor to be kept in any case. */
  ghost predicate Surplus(s: Settings, relevant: set<Name>, n: Name) {
    s.synchronize && s.root != Some(n) && n != s.pip && n !in relevant
  }

  /** The operation uninstalls what is installed under the name. */
  ghost predicate Removes(installed: Site, op: Operation) {
    op.package.name in installed && op == Uninstall(installed[op.package.name])
  }

  ghost predicate Uninstalls(installed: Site, systemSite: set<Name>, names: set<Name>, ops: seq<Operation>) {
    && (forall op <- ops :: op.package.name in names - systemSite && Removes(installed, op))
    && (forall n <- names - systemSite :: exists op <- ops :: op.package.name == n)
    && OnePerName(ops)
  }

  lemma {:induction false} MoreUninstalls(installed: Site, systemSite: set<Name>, names: set<Name>,
      ops: seq<Operation>, n: Name)
    requires ByName(installed) && n in installed && n !in names && Uninstalls(installed, systemSite, names, ops)
    ensures Uninstalls(installed, systemSite, names + {n},
                       if n in systemSite then ops else ops + [Uninstall(installed[n])])
  {
    var op := Uninstall(installed[n]);
    forall m <- names + {n} - systemSite ensures exists o <- ops + [op] :: o.package.name == m {
      if m == n {
        assert op in ops + [op];
      } else {
        assert m in names - systemSite;
        var o :| o in ops && o.package.name == m;
        assert o in ops + [op];
      }
    }
  }

  method UninstallSurplus(s: Settings, installed: Site, results: seq<Result>, current: seq<Package>,
                          relevant: set<Name>) returns (ops: seq<Operation>)
    requires ByName(installed)
    ensures OnePerName(ops) && forall op <- ops :: Removes(installed, op)
    ensures forall n :: (exists op <- ops :: op.package.name == n) <==>
      n in installed && n !in s.systemSite && (Orphaned(results, current, n) || Surplus(s, relevant, n))
  {
    ops := [];
    var resultNames := set r | r in results :: r.package.name;
    var uninstalls: set<Name> := {};
    for i := 0 to |current|
      invariant Uninstalls(installed, s.systemSite, uninstalls, ops)
      invariant forall n :: n in uninstalls <==> n in installed && Orphaned(results, current[..i], n)
    {
      var n := current[i].name;
      assert current[..i + 1] == current[..i] + [current[i]];
      if n !in resultNames + uninstalls && n in installed {
        MoreUninstalls(installed, s.systemSite, uninstalls, ops, n);
        uninstalls := uninstalls + {n};
        if n !in s.systemSite {
          ops := ops + [Uninstall(installed[n])];
        }
      }
    }
    assert current[..|current|] == current;
    if s.synchronize {
      var preserved := {s.pip} - relevant;
      var todo := installed.Keys;
      while todo != {}
        invariant todo <= installed.Keys
        invariant Uninstalls(installed, s.systemSite, uninstalls, ops)
        invariant forall n :: n in uninstalls <==>
          n in installed && (Orphaned(results, current, n) || (n !in todo && Surplus(s, relevant, n)))
        decreases todo
      {
        var n :| n in todo;
        todo := todo - {n};
        if n in uninstalls {
        } else if s.root == Some(n) {
        } else if n in preserved {
        } else if n !in relevant {
          MoreUninstalls(installed, s.systemSite, uninstalls, ops, n);
          uninstalls := uninstalls + {n};
          if n !in s.systemSite {
            ops := ops + [Uninstall(installed[n])];
          }
        }
      }
    }
    forall n
      ensures (exists op <- ops :: op.package.name == n) <==>
        n in installed && n !in s.systemSite && (Orphaned(results, current, n) || Surplus(s, relevant, n))
    {
      assert n in uninstalls - s.systemSite <==> n in uninstalls && n !in s.systemSite;
    }
  }

  // ----- the whole transaction

  ghost predicate Removed(s: Settings, results: seq<Result>, current: seq<Package>, n: Name) {
    s.withUninstalls && n !in s.systemSite
    && (Orphaned(results, current, n) || Surplus(s, RequiredNames(s, results), n))
  }

  /** What becomes of a solved package that the project asks for. */
  ghost function Wanted(s: Settings, installed: Site, r: Result): Option<Package> {
    var n := r.package.name;
    if n in installed then Some(if MayStay(r.package, installed[n]) then installed[n] else r.package)
    else if LeftOut(s, r.package) then None
    else Some(r.package)
  }

  /** What is found under the name afterwards: what the project asks for, or what was there and may stay. */
  ghost predicate Settled(s: Settings, results: seq<Result>, current: seq<Package>, installed: Site,
                          n: Name, outcome: Option<Package>)
  {
    && (forall r <- results :: Asked(s, r, n) ==> outcome == Wanted(s, installed, r))
    && (n !in RequiredNames(s, results) ==>
          outcome == if Removed(s, results, current, n) then None else Lookup(installed, n))
  }

  ghost predicate Asked(s: Settings, r: Result, n: Name) {
    AskedFor(s, r) && r.package.name == n
  }

  /** All packages of the name that the project asks for come to the same. */
  ghost predicate Consistent(s: Settings, installed: Site, results: seq<Result>, n: Name) {
    forall a <- results, b <- results :: Asked(s, a, n) && Asked(s, b, n) ==>
      Wanted(s, installed, a) == Wanted(s, installed, b)
  }

  /** The operations for the solved packages and the uninstalls, in whatever order. */
  ghost predicate Complete(s: Settings, results: seq<Result>, current: seq<Package>, installed: Site,
                           ops: seq<Operation>)
  {
    && (forall op <- ops :: !op.Uninstall? ==> exists r <- results :: ResultOperation(s, installed, r) == Some(op))
    && (forall r <- results :: ResultOperation(s, installed, r).Some? ==> ResultOperation(s, installed, r).value in ops)
    && (forall op <- ops :: op.Uninstall? ==> Removes(installed, op) && Removed(s, results, current, op.package.name))
    && (forall n <- installed :: Removed(s, results, current, n) ==>
          exists op <- ops :: op.Uninstall? && op.package.name == n)
  }

  // ----- which operations these are

  /** An update is made exactly for what is asked for and installed but may not stay as it is. */
  lemma {:induction false} UpdatesExactly(s: Settings, results: seq<Result>, current: seq<Package>, installed: Site,
      ops: seq<Operation>, initial: Package, package: Package, depth: int)
    requires Complete(s, results, current, installed, ops)
    ensures Update(initial, package, depth) in ops <==>
      exists r <- results :: && AskedFor(s, r) && r.package == package && r.depth == depth
                             && package.name in installed && initial == installed[package.name]
                             && !MayStay(package, initial)
  {
  }

  /** An installation is carried out exactly for what is asked for, is not installed and is not left out. */
  lemma {:induction false} InstallsExactly(s: Settings, results: seq<Result>, current: seq<Package>, installed: Site,
      ops: seq<Operation>, package: Package, depth: int)
    requires Complete(s, results, current, installed, ops)
    ensures Install(package, depth, false) in ops <==>
      exists r <- results :: && AskedFor(s, r) && r.package == package && r.depth == depth
                             && package.name !in installed && !LeftOut(s, package)
  {
  }

  /**
   An installation is skipped exactly for what is asked for and installed and may stay, and for the optional
   packages that are not asked for, are not installed and are not left out.
   */
  lemma {:induction false} SkipsExactly(s: Settings, results: seq<Result>, current: seq<Package>, installed: Site,
      ops: seq<Operation>, package: Package, depth: int)
    requires Complete(s, results, current, installed, ops)
    ensures Install(package, depth, true) in ops <==>
      exists r <- results :: r.package == package && IsSkipped(s, installed, r, depth)
  {
  }

  ghost predicate IsSkipped(s: Settings, installed: Site, r: Result, depth: int) {
    if r.package.name in installed then
      AskedFor(s, r) && MayStay(r.package, installed[r.package.name]) && depth == 0
    else
      !AskedFor(s, r) && r.optional && !LeftOut(s, r.package) && depth == r.depth
  }

  /**
   What is installed under a name is uninstalled exactly if uninstalling is wanted, the system does not provide it,
   and it is no longer part of the solution; or if the site is to be synchronized, and it is not asked for and is
   neither the project itself nor pip.
   */
  lemma {:induction false} UninstallsExactly(s: Settings, results: seq<Result>, current: seq<Package>, installed: Site,
      ops: seq<Operation>, package: Package)
    requires Complete(s, results, current, installed, ops)
    ensures Uninstall(package) in ops <==>
      && package.name in installed && package == installed[package.name]
      && s.withUninstalls && package.name !in s.systemSite
      && (|| ((forall r <- results :: r.package.name != package.name) && exists p <- current :: p.name == package.name)
          || (s.synchronize && s.root != Some(package.name) && package.name != s.pip
              && forall r <- results :: AskedFor(s, r) ==> r.package.name != package.name))
  {
  }

  // ----- what they lead to

  lemma {:induction false} CarriedOutForRequired(s: Settings, results: seq<Result>, installed: Site, op: Operation)
    returns (r: Result)
    requires !op.Skipped() && exists r <- results :: ResultOperation(s, installed, r) == Some(op)
    ensures r in results && ResultOperation(s, installed, r) == Some(op) && Asked(s, r, op.package.name)
    ensures Outcome(op) == Wanted(s, installed, r)
    ensures op.package.name in RequiredNames(s, results) && op.package.name in ResultNames(results)
  {
    r :| r in results && ResultOperation(s, installed, r) == Some(op);
    assert AskedFor(s, r) && r.package.name == op.package.name;
  }

  lemma {:induction false} RequiredSettled(s: Settings, results: seq<Result>, current: seq<Package>, installed: Site,
      ops: seq<Operation>, r: Result)
    requires Complete(s, results, current, installed, ops)
    requires r in results && AskedFor(s, r) && Consistent(s, installed, results, r.package.name)
    ensures Lookup(ExecuteAll(ops, installed), r.package.name) == Wanted(s, installed, r)
  {
    var n, own := r.package.name, ResultOperation(s, installed, r);
    assert n in RequiredNames(s, results) && n in ResultNames(results);
    assert !Removed(s, results, current, n);
    forall op <- ops | Concerns(op, n) ensures Outcome(op) == Wanted(s, installed, r) {
      var other := CarriedOutForRequired(s, results, installed, op);
      assert Asked(s, r, n);
    }
    OutcomeOfAll(ops, installed, n, Wanted(s, installed, r));
    if own.Some? && !own.value.Skipped() {
      assert own.value in ops && Concerns(own.value, n);
    }
  }

  lemma {:induction false} OthersSettled(s: Settings, results: seq<Result>, current: seq<Package>, installed: Site,
      ops: seq<Operation>, n: Name)
    requires Complete(s, results, current, installed, ops)
    requires n !in RequiredNames(s, results)
    ensures Lookup(ExecuteAll(ops, installed), n)
         == if Removed(s, results, current, n) then None else Lookup(installed, n)
  {
    forall op <- ops | Concerns(op, n) ensures op.Uninstall? {
      if !op.Uninstall? {
        var r := CarriedOutForRequired(s, results, installed, op);
      }
    }
    OutcomeOfAll(ops, installed, n, None);
    if n in installed && Removed(s, results, current, n) {
      var op :| op in ops && op.Uninstall? && op.package.name == n;
      assert Concerns(op, n);
    }
  }

  /**
   All ways of carrying out all operations, in whatever order, settle the name exactly if the project does not
   ask for two packages of the name that come to something different.
   */
  lemma {:induction false} AnyOrderSettles(s: Settings, results: seq<Result>, current: seq<Package>, installed: Site,
      ops: seq<Operation>, n: Name)
    requires Complete(s, results, current, installed, ops)
    ensures Settled(s, results, current, installed, n, Lookup(ExecuteAll(ops, installed), n)) <==>
      Consistent(s, installed, results, n)
  {
    if Consistent(s, installed, results, n) {
      forall r <- results | Asked(s, r, n) ensures Lookup(ExecuteAll(ops, installed), n) == Wanted(s, installed, r) {
        RequiredSettled(s, results, current, installed, ops, r);
      }
      if n !in RequiredNames(s, results) {
        OthersSettled(s, results, current, installed, ops, n);
      }
    }
  }

  /** Two versions of one name, neither of which is installed: one of them is not there afterwards. */
  lemma {:induction false} TwoVersionsUnsettled(s: Settings, a: Result, b: Result, ops: seq<Operation>)
    requires s.mode == Everything && !s.skipDirectory
    requires a.package.name == b.package.name && a.package != b.package
    requires Complete(s, [a, b], [], map[], ops)
    ensures !Settled(s, [a, b], [], map[], a.package.name, Lookup(ExecuteAll(ops, map[]), a.package.name))
  {
    var n := a.package.name;
    AnyOrderSettles(s, [a, b], [], map[], ops, n);
    assert a in [a, b] && b in [a, b] && Asked(s, a, n) && Asked(s, b, n);
  }

  lemma {:induction false} SortedComplete(s: Settings, results: seq<Result>, current: seq<Package>, installed: Site,
      ops: seq<Operation>)
    requires Complete(s, results, current, installed, ops)
    ensures Complete(s, results, current, installed, Sorted(ops))
  {
    forall op ensures op in ops <==> op in Sorted(ops) {
      assert op in multiset(ops) <==> op in multiset(Sorted(ops));
    }
  }

  method CollectOperations(s: Settings, results: seq<Result>, current: seq<Package>, installed: Site)
    returns (ops: seq<Operation>)
    requires ByName(installed)
    ensures Complete(s, results, current, installed, ops)
    ensures OperationsPerName(ops) == ResultsPerName(s, installed, results)
  {
    var relevant;
    ops, relevant := OperateOnResults(s, installed, results);
    if s.withUninstalls {
      var uninstalls := UninstallSurplus(s, installed, results, current, relevant);
      CompleteTogether(s, results, current, installed, ops, uninstalls);
      OnceTogether(s, results, current, installed, ops, uninstalls);
      ops := ops + uninstalls;
    }
  }

  lemma {:induction false} SortedSettles(s: Settings, results: seq<Result>, current: seq<Package>, installed: Site,
      ops: seq<Operation>)
    requires Complete(s, results, current, installed, ops)
    ensures InOrder(Sorted(ops)) && Complete(s, results, current, installed, Sorted(ops))
    ensures forall n ::
      Settled(s, results, current, installed, n, Lookup(ExecuteAll(Sorted(ops), installed), n)) <==>
        Consistent(s, installed, results, n)
  {
    SortedIsInOrder(ops);
    SortedComplete(s, results, current, installed, ops);
    forall n
      ensures Settled(s, results, current, installed, n, Lookup(ExecuteAll(Sorted(ops), installed), n)) <==>
        Consistent(s, installed, results, n)
    {
      AnyOrderSettles(s, results, current, installed, Sorted(ops), n);
    }
  }

  method CalculateOperations(s: Settings, results: seq<Result>, current: seq<Package>, installed: Site)
    returns (ops: seq<Operation>)
    requires ByName(installed)
    ensures InOrder(ops) && Complete(s, results, current, installed, ops)
    ensures OperationsPerName(ops) == ResultsPerName(s, installed, results)
    ensures forall n ::
      Settled(s, results, current, installed, n, Lookup(ExecuteAll(ops, installed), n)) <==>
        Consistent(s, installed, results, n)
  {
    var operations := CollectOperations(s, results, current, installed);
    ops := Sorted(operations);
    OnePerNameInAnyOrder(operations, ops);
    SortedSettles(s, results, current, installed, operations);
  }

  lemma {:induction false} OnePerNameTogether(a: seq<Operation>, b: seq<Operation>)
    requires OnePerName(b) && forall x <- a, y <- b :: Apart(x, y)
    ensures OnePerName(a + b) <==> OnePerName(a)
  {
    if OnePerName(a + b) {
      forall i, j | 0 <= i < j < |a| ensures Apart(a[i], a[j]) {
        assert Apart((a + b)[i], (a + b)[j]);
      }
    }
  }

  lemma {:induction false} CompleteTogether(s: Settings, results: seq<Result>, current: seq<Package>, installed: Site,
      ops: seq<Operation>, uninstalls: seq<Operation>)
    requires s.withUninstalls && ResultOperations(s, installed, results, ops)
    requires forall op <- uninstalls :: Removes(installed, op)
    requires forall n :: (exists op <- uninstalls :: op.package.name == n) <==>
      n in installed && n !in s.systemSite
      && (Orphaned(results, current, n) || Surplus(s, RequiredNames(s, results), n))
    ensures Complete(s, results, current, installed, ops + uninstalls)
  {
    forall n <- installed | Removed(s, results, current, n)
      ensures exists op <- ops + uninstalls :: op.Uninstall? && op.package.name == n
    {
      var op :| op in uninstalls && op.package.name == n;
      assert op in ops + uninstalls;
    }
  }

  lemma {:induction false} OnceTogether(s: Settings, results: seq<Result>, current: seq<Package>, installed: Site,
      ops: seq<Operation>, uninstalls: seq<Operation>)
    requires ResultOperations(s, installed, results, ops) && OnePerName(uninstalls)
    requires forall op <- uninstalls ::
      Orphaned(results, current, op.package.name) || Surplus(s, RequiredNames(s, results), op.package.name)
    ensures OperationsPerName(ops + uninstalls) == OperationsPerName(ops)
  {
    forall op <- ops, u <- uninstalls ensures Apart(op, u) {
      if !op.Skipped() {
        var r := CarriedOutForRequired(s, results, installed, op);
      }
    }
    OnePerNameTogether(ops, uninstalls);
  }
}
