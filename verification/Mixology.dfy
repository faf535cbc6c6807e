/** The entry point of the version solver (`src/poetry/mixology/__init__.py`). */
module Mixology {
  import opened Terms
  import opened Incompatibilities
  import opened Providers
  import opened VersionSolvers
  import opened NeededPackages

  /** What a solver run answers about the problem, rather than about its own state. */
  lemma {:induction false} AnswersMeaning(p: Provider, r: Result)
    requires Answers(p, r)
    ensures r.Failed? ==> forall s: Selection :: !p.Solves(s)
    ensures r.Solved? && p.Coherent() ==> p.Solves(r.packages[p.root := p.rootVersion])
    ensures p.Coherent() && !r.SelfDependent? ==> (r.Solved? <==> exists s: Selection :: p.Solves(s))
  {
    if r.Failed? {
      forall s: Selection
        ensures !p.Solves(s)
      {
        if p.Solves(s) {
          var e :| e in r.reason.External() && Violates(s, e.terms);
          SolutionsRespectFacts(p, s, e);
        }
      }
    }
  }

  /**
   Solving always ends, and it ends with the truth: with versions that fulfil every requirement, of no
   packages but those that a chain of requirements leads to from the root; or with a refutation built from
   facts only; or at a version that requires its own package in a version that admits itself. Where versions
   that are offered stay offered, it decides solvability.
   */
  method ResolveVersion(p: Provider) returns (r: Result)
    requires p.WellFormed()
    ensures r.Solved? ==> p.root !in r.packages && p.Fulfils(r.packages[p.root := p.rootVersion])
    ensures r.Solved? && p.Coherent() ==> p.Solves(r.packages[p.root := p.rootVersion])
    ensures r.Solved? ==> OnlyNeeded(p, r.packages[p.root := p.rootVersion])
    ensures r.Failed? ==> Refutes(p, r.reason) && forall s: Selection :: !p.Solves(s)
    ensures r.SelfDependent? ==> p.Offers(r.name, r.version) && p.DependsOnItself(r.name, r.version)
    ensures (forall n, v :: p.Offers(n, v) ==> !p.DependsOnItself(n, v)) && p.Coherent() ==>
              (r.Solved? <==> exists s: Selection :: p.Solves(s))
  {
    var solver := new VersionSolver(p);
    r := solver.Solve();
    AnswersMeaning(p, r);
  }
}
