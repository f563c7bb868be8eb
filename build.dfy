/** `build` without its database: the parsed file is classified, and the rows of
    the term, obsolete, synonym, parents and offspring tables are computed as the
    builder computes them before inserting them. */
module Build {
  import opened Wrappers
  import opened Obo
  import opened Terms
  import opened Edges
  import Closure

  /** The rows the builder inserts, table by table. */
  datatype Tables = Tables(
    terms: seq<TermRow>,
    obsolete: seq<TermRow>,
    synonyms: seq<SynonymRow>,
    parents: PerOntology<seq<ParentRow>>,
    offspring: PerOntology<seq<(string, string)>>)

  /** `path` runs from parent to child along rows of a parents table. */
  ghost predicate IsRowPath(rows: seq<ParentRow>, path: seq<string>) {
    forall i :: 0 <= i < |path| - 1 ==> Linked(rows, path[i], path[i + 1])
  }

  /** Some row has parent `p` and child `c`. */
  ghost predicate Linked(rows: seq<ParentRow>, p: string, c: string) {
    exists r :: r in rows && r.parent == p && r.child == c
  }

  /** `d` descends from `a` through one or more rows of the parents table. */
  ghost predicate Descends(rows: seq<ParentRow>, a: string, d: string) {
    exists path :: |path| >= 2 && path[0] == a && path[|path| - 1] == d && IsRowPath(rows, path)
  }

  /** In a parent-to-children map matching the rows, the direct edges are the rows' links. */
  lemma SuccessorsAreLinks(rows: seq<ParentRow>, dc: map<string, seq<string>>, p: string, c: string)
    requires ChildrenMatch(rows, dc)
    ensures c in Closure.Successors(dc, p) <==> Linked(rows, p, c)
  {
    ChildListed(rows, dc, p, c);
  }

  /** The closure of the map is the descent relation of the rows it was built with. */
  lemma ReachableIsDescent(rows: seq<ParentRow>, dc: map<string, seq<string>>, a: string, d: string)
    requires ChildrenMatch(rows, dc)
    ensures Closure.Reachable(dc, a, d) <==> Descends(rows, a, d)
  {
    forall path ensures Closure.IsPath(dc, path) <==> IsRowPath(rows, path) {
      forall i | 0 <= i < |path| - 1 ensures path[i + 1] in Closure.Successors(dc, path[i]) <==> Linked(rows, path[i], path[i + 1]) {
        SuccessorsAreLinks(rows, dc, path[i], path[i + 1]);
      }
    }
  }

  /** Both ends of a descent lie on rows: the ancestor is some row's parent and the
      descendant some row's child. */
  lemma DescentEnds(rows: seq<ParentRow>, a: string, d: string)
    requires Descends(rows, a, d)
    ensures exists r :: r in rows && r.parent == a
    ensures exists r :: r in rows && r.child == d
  {
    var path :| |path| >= 2 && path[0] == a && path[|path| - 1] == d && IsRowPath(rows, path);
    assert Linked(rows, path[0], path[1]);
    assert Linked(rows, path[|path| - 2], path[|path| - 1]);
  }

  /** `build`, from the lines of the file to the rows of every table. */
  method Build(lines: seq<string>) returns (db: Tables)
    requires IsAWellFormed(Select(Records(lines), false))
    ensures var active := Select(Records(lines), false);
      && |db.terms| == |active|
      && (forall i :: 0 <= i < |active| ==> db.terms[i] == TermRowOf(active[i]))
    ensures var gone := Select(Records(lines), true);
      && |db.obsolete| == |gone|
      && (forall i :: 0 <= i < |gone| ==> db.obsolete[i] == TermRowOf(gone[i]))
    ensures db.synonyms == AllSynonymRows(Select(Records(lines), false))
    ensures forall o :: db.parents.At(o) == PartitionEdges(Select(Records(lines), false), ActiveIds(Select(Records(lines), false)), o)
    ensures forall o, a, d :: (a, d) in db.offspring.At(o) <==> Descends(db.parents.At(o), a, d)
    ensures forall o :: Closure.Distinct(db.offspring.At(o))
  {
    var stanzas := ParseObo(lines);
    var terms, obsolete := Classify(stanzas);
    var active := set t | t in terms :: GoId(t);
    var termRows := TermRows(terms);
    var obsRows := TermRows(obsolete);
    var synRows := SynonymRows(terms);
    assert active == ActiveIds(terms);
    var parentRows, directChildren := CollectEdges(terms, active);
    var offspring := Offspring(parentRows, directChildren);
    db := Tables(termRows, obsRows, synRows, parentRows, offspring);
  }

  /** The offspring loop: the closure of each ontology's parent-to-children map. */
  method Offspring(parentRows: PerOntology<seq<ParentRow>>, directChildren: PerOntology<map<string, seq<string>>>)
    returns (offspring: PerOntology<seq<(string, string)>>)
    requires forall o :: ChildrenMatch(parentRows.At(o), directChildren.At(o))
    ensures forall o, a, d :: (a, d) in offspring.At(o) <==> Descends(parentRows.At(o), a, d)
    ensures forall o :: Closure.Distinct(offspring.At(o))
  {
    var bp := Closure.TransitiveClosure(directChildren.bp);
    var mf := Closure.TransitiveClosure(directChildren.mf);
    var cc := Closure.TransitiveClosure(directChildren.cc);
    offspring := PerOntology(bp, mf, cc);
    forall o, a, d ensures (a, d) in offspring.At(o) <==> Descends(parentRows.At(o), a, d) {
      ReachableIsDescent(parentRows.At(o), directChildren.At(o), a, d);
    }
  }

  /** Every offspring pair of ontology `o` joins two active terms of the file: the
      ancestor has an active child term, and the descendant is an active term of `o`. */
  lemma OffspringAreActiveTerms(lines: seq<string>, o: Ontology, a: string, d: string)
    requires IsAWellFormed(Select(Records(lines), false))
    requires Descends(PartitionEdges(Select(Records(lines), false), ActiveIds(Select(Records(lines), false)), o), a, d)
    ensures a in ActiveIds(Select(Records(lines), false))
    ensures exists t :: t in Select(Records(lines), false) && TermOntology(t) == Some(o) && GoId(t) == d
  {
    var active := Select(Records(lines), false);
    var rows := PartitionEdges(active, ActiveIds(active), o);
    DescentEnds(rows, a, d);
    var r :| r in rows && r.parent == a;
    PartitionEdgeMembers(active, ActiveIds(active), o, r);
    var r' :| r' in rows && r'.child == d;
    PartitionEdgeMembers(active, ActiveIds(active), o, r');
  }
}
