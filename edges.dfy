/** The edge collector of the builder: for every active term in one of the three
    namespaces, its `is_a` and `relationship` parents that are themselves active
    become rows of that namespace's parents table and entries of its
    parent-to-children map. */
module Edges {
  import opened Wrappers
  import opened Strings
  import opened Obo
  import opened Terms
  import opened Seqs

  /** A row of a parents table: child, parent, relationship type. */
  datatype ParentRow = ParentRow(child: string, parent: string, relType: string)

  /** The three ontologies that have parents and offspring tables. */
  datatype Ontology = BP | MF | CC

  /** The label `NS_MAP` gives the ontology. */
  function Label(o: Ontology): string {
    match o
    case BP => "BP"
    case MF => "MF"
    case CC => "CC"
  }

  /** The ontology labelled `short`, if any (`short in parent_rows`). */
  function OntologyOf(short: string): (r: Option<Ontology>)
    ensures r.Some? ==> Label(r.value) == short
    ensures r.None? ==> forall o :: Label(o) != short
  {
    if short == "BP" then Some(BP)
    else if short == "MF" then Some(MF)
    else if short == "CC" then Some(CC)
    else None
  }

  /** One value per ontology: the dictionaries keyed by "BP", "MF" and "CC". */
  datatype PerOntology<T> = PerOntology(bp: T, mf: T, cc: T) {
    function At(o: Ontology): T {
      match o
      case BP => bp
      case MF => mf
      case CC => cc
    }

    function Put(o: Ontology, v: T): (r: PerOntology<T>)
      ensures r.At(o) == v
      ensures forall o' :: o' != o ==> r.At(o') == At(o')
    {
      match o
      case BP => this.(bp := v)
      case MF => this.(mf := v)
      case CC => this.(cc := v)
    }
  }

  /** The ontology a term's rows are filed under, if any. */
  function TermOntology(t: Stanza): Option<Ontology> {
    OntologyOf(NamespaceOf(t))
  }

  /** Every `is_a` value of a term that is collected holds a token: the source
      takes the first token of each and fails on an empty value. */
  ghost predicate IsAWellFormed(terms: seq<Stanza>) {
    forall t :: t in terms && TermOntology(t).Some? ==> HasIsATokens(t)
  }

  ghost predicate HasIsATokens(t: Stanza) {
    forall raw :: raw in ListOf(t, "is_a") ==> Words(raw) != []
  }

  /** Every row has child `child`. */
  ghost predicate ChildIs(rows: seq<ParentRow>, child: string) {
    forall i :: 0 <= i < |rows| ==> rows[i].child == child
  }

  /** Every row's parent is in `active`. */
  ghost predicate ParentsIn(rows: seq<ParentRow>, active: set<string>) {
    forall i :: 0 <= i < |rows| ==> rows[i].parent in active
  }

  /** Every row has type `relType`. */
  ghost predicate TypedAs(rows: seq<ParentRow>, relType: string) {
    forall i :: 0 <= i < |rows| ==> rows[i].relType == relType
  }

  /** The rows for a list of `is_a` values: the first token is the parent. */
  function IsAEdges(goId: string, raws: seq<string>, active: set<string>): (r: seq<ParentRow>)
    requires forall raw :: raw in raws ==> Words(raw) != []
    ensures |r| <= |raws|
    ensures ChildIs(r, goId) && ParentsIn(r, active) && TypedAs(r, "is_a")
    decreases |raws|
  {
    if raws == [] then []
    else
      var parent := Words(raws[|raws| - 1])[0];
      IsAEdges(goId, raws[..|raws| - 1], active)
      + (if parent in active then [ParentRow(goId, parent, "is_a")] else [])
  }

  /** The rows for a list of `relationship` values: type then parent, at least two tokens. */
  function RelEdges(goId: string, raws: seq<string>, active: set<string>): (r: seq<ParentRow>)
    ensures |r| <= |raws|
    ensures ChildIs(r, goId) && ParentsIn(r, active)
    decreases |raws|
  {
    if raws == [] then []
    else
      var parts := Words(raws[|raws| - 1]);
      RelEdges(goId, raws[..|raws| - 1], active)
      + (if |parts| >= 2 && parts[1] in active then [ParentRow(goId, parts[1], parts[0])] else [])
  }

  /** The rows of one term: its `is_a` rows, then its `relationship` rows. */
  function TermEdges(t: Stanza, active: set<string>): (r: seq<ParentRow>)
    requires HasIsATokens(t)
    ensures ChildIs(r, GoId(t)) && ParentsIn(r, active)
  {
    IsAEdges(GoId(t), ListOf(t, "is_a"), active) + RelEdges(GoId(t), ListOf(t, "relationship"), active)
  }

  /** The rows of ontology `o`, term by term in input order. */
  function PartitionEdges(terms: seq<Stanza>, active: set<string>, o: Ontology): (r: seq<ParentRow>)
    requires IsAWellFormed(terms)
    ensures ParentsIn(r, active)
    decreases |terms|
  {
    if terms == [] then []
    else
      var last := terms[|terms| - 1];
      PartitionEdges(terms[..|terms| - 1], active, o)
      + (if TermOntology(last) == Some(o) then TermEdges(last, active) else [])
  }

  /** The children recorded under `parent`, one per row, in row order. */
  function ChildrenOf(rows: seq<ParentRow>, parent: string): seq<string>
    decreases |rows|
  {
    if rows == [] then []
    else
      var last := rows[|rows| - 1];
      ChildrenOf(rows[..|rows| - 1], parent) + (if last.parent == parent then [last.child] else [])
  }

  /** The parent-to-children map holds, for each parent that occurs in the rows
      and only for those, the children of its rows in order. */
  ghost predicate ChildrenMatch(rows: seq<ParentRow>, dc: map<string, seq<string>>) {
    (forall p :: p in dc <==> ChildrenOf(rows, p) != [])
    && (forall p :: p in dc ==> dc[p] == ChildrenOf(rows, p))
  }

  lemma {:induction false} ChildrenOfMembers(rows: seq<ParentRow>, p: string, c: string)
    ensures c in ChildrenOf(rows, p) <==> ParentRow(c, p, "") in Links(rows)
    decreases |rows|
  {
    if rows != [] {
      var init := rows[..|rows| - 1];
      ChildrenOfMembers(init, p, c);
      assert rows == init + [rows[|rows| - 1]];
    }
  }

  /** The child-parent links of the rows, with the relationship type dropped. */
  function Links(rows: seq<ParentRow>): set<ParentRow> {
    set r | r in rows :: ParentRow(r.child, r.parent, "")
  }

  /** Appending one row and one child keeps the map in step with the rows. */
  lemma EmitKeepsMatch(rows: seq<ParentRow>, dc: map<string, seq<string>>, row: ParentRow)
    requires ChildrenMatch(rows, dc)
    ensures ChildrenMatch(rows + [row],
                          dc[row.parent := (if row.parent in dc then dc[row.parent] else []) + [row.child]])
  {
    assert (rows + [row])[..|rows|] == rows;
  }

  /** In a matching map, `c` is listed under `p` exactly when a row links them. */
  lemma ChildListed(rows: seq<ParentRow>, dc: map<string, seq<string>>, p: string, c: string)
    requires ChildrenMatch(rows, dc)
    ensures (p in dc && c in dc[p]) <==> exists r :: r in rows && r.parent == p && r.child == c
  {
    ChildrenOfMembers(rows, p, c);
  }

  /** The loop over one term's `is_a` values. */
  method CollectIsA(goId: string, isas: seq<string>, active: set<string>,
                    rows0: seq<ParentRow>, dc0: map<string, seq<string>>)
    returns (rows: seq<ParentRow>, dc: map<string, seq<string>>)
    requires forall raw :: raw in isas ==> Words(raw) != []
    requires ChildrenMatch(rows0, dc0)
    ensures rows == rows0 + IsAEdges(goId, isas, active)
    ensures ChildrenMatch(rows, dc)
  {
    rows, dc := rows0, dc0;
    for j := 0 to |isas|
      invariant rows == rows0 + IsAEdges(goId, isas[..j], active)
      invariant ChildrenMatch(rows, dc)
    {
      assert isas[j] in isas;
      var parentId := Words(isas[j])[0];
      IsAEdgesStep(goId, isas, j, active);
      if parentId in active {
        var row := ParentRow(goId, parentId, "is_a");
        EmitKeepsMatch(rows, dc, row);
        Assoc(rows0, IsAEdges(goId, isas[..j], active), [row]);
        rows := rows + [row];
        dc := dc[parentId := (if parentId in dc then dc[parentId] else []) + [goId]];
      }
    }
    assert isas[..|isas|] == isas;
  }

  /** The loop over one term's `relationship` values. */
  method CollectRels(goId: string, rels: seq<string>, active: set<string>,
                     rows0: seq<ParentRow>, dc0: map<string, seq<string>>)
    returns (rows: seq<ParentRow>, dc: map<string, seq<string>>)
    requires ChildrenMatch(rows0, dc0)
    ensures rows == rows0 + RelEdges(goId, rels, active)
    ensures ChildrenMatch(rows, dc)
  {
    rows, dc := rows0, dc0;
    for j := 0 to |rels|
      invariant rows == rows0 + RelEdges(goId, rels[..j], active)
      invariant ChildrenMatch(rows, dc)
    {
      var parts := Words(rels[j]);
      RelEdgesStep(goId, rels, j, active);
      if |parts| >= 2 {
        var relType, parentId := parts[0], parts[1];
        if parentId in active {
          var row := ParentRow(goId, parentId, relType);
          EmitKeepsMatch(rows, dc, row);
          Assoc(rows0, RelEdges(goId, rels[..j], active), [row]);
          rows := rows + [row];
          dc := dc[parentId := (if parentId in dc then dc[parentId] else []) + [goId]];
        }
      }
    }
    assert rels[..|rels|] == rels;
  }

  /** One more `is_a` value adds its row, if its parent is active. */
  lemma IsAEdgesStep(goId: string, raws: seq<string>, j: nat, active: set<string>)
    requires j < |raws| && forall raw :: raw in raws ==> Words(raw) != []
    ensures Words(raws[j]) != []
    ensures IsAEdges(goId, raws[..j + 1], active)
         == IsAEdges(goId, raws[..j], active)
            + (if Words(raws[j])[0] in active then [ParentRow(goId, Words(raws[j])[0], "is_a")] else [])
  {
    assert raws[j] in raws;
    assert raws[..j + 1][..j] == raws[..j];
  }

  /** One more `relationship` value adds its row, if it names an active parent. */
  lemma RelEdgesStep(goId: string, raws: seq<string>, j: nat, active: set<string>)
    requires j < |raws|
    ensures RelEdges(goId, raws[..j + 1], active)
         == RelEdges(goId, raws[..j], active)
            + (var parts := Words(raws[j]);
               if |parts| >= 2 && parts[1] in active then [ParentRow(goId, parts[1], parts[0])] else [])
  {
    assert raws[..j + 1][..j] == raws[..j];
  }

  /** The loops over one term's `is_a` and `relationship` values. */
  method CollectTerm(t: Stanza, active: set<string>, rows0: seq<ParentRow>, dc0: map<string, seq<string>>)
    returns (rows: seq<ParentRow>, dc: map<string, seq<string>>)
    requires HasIsATokens(t) && ChildrenMatch(rows0, dc0)
    ensures rows == rows0 + TermEdges(t, active)
    ensures ChildrenMatch(rows, dc)
  {
    var goId := GoId(t);
    var isas, rels := ListOf(t, "is_a"), ListOf(t, "relationship");
    var middle, dc1 := CollectIsA(goId, isas, active, rows0, dc0);
    rows, dc := CollectRels(goId, rels, active, middle, dc1);
    Assoc(rows0, IsAEdges(goId, isas, active), RelEdges(goId, rels, active));
  }

  /** The state of the edge-collection loop after `terms`: one row list and one
      parent-to-children map per ontology, holding exactly those terms' edges. */
  ghost predicate Collected(terms: seq<Stanza>, active: set<string>,
                            parentRows: PerOntology<seq<ParentRow>>,
                            directChildren: PerOntology<map<string, seq<string>>>) {
    IsAWellFormed(terms)
    && (forall o :: parentRows.At(o) == PartitionEdges(terms, active, o))
    && (forall o :: ChildrenMatch(parentRows.At(o), directChildren.At(o)))
  }

  /** The edge-collection loop over the active terms. */
  method CollectEdges(terms: seq<Stanza>, active: set<string>)
    returns (parentRows: PerOntology<seq<ParentRow>>, directChildren: PerOntology<map<string, seq<string>>>)
    requires IsAWellFormed(terms)
    ensures forall o :: parentRows.At(o) == PartitionEdges(terms, active, o)
    ensures forall o :: ChildrenMatch(parentRows.At(o), directChildren.At(o))
  {
    directChildren := PerOntology(map[], map[], map[]);
    parentRows := PerOntology([], [], []);
    for i := 0 to |terms|
      invariant Collected(terms[..i], active, parentRows, directChildren)
    {
      parentRows, directChildren := CollectStep(terms, i, active, parentRows, directChildren);
    }
    assert terms[..|terms|] == terms;
  }

  /** One pass of the edge-collection loop, for `terms[i]`. */
  method CollectStep(terms: seq<Stanza>, i: nat, active: set<string>,
                     parentRows0: PerOntology<seq<ParentRow>>,
                     directChildren0: PerOntology<map<string, seq<string>>>)
    returns (parentRows: PerOntology<seq<ParentRow>>, directChildren: PerOntology<map<string, seq<string>>>)
    requires i < |terms| && IsAWellFormed(terms)
    requires Collected(terms[..i], active, parentRows0, directChildren0)
    ensures Collected(terms[..i + 1], active, parentRows, directChildren)
  {
    PartitionEdgesStep(terms, i, active);
    parentRows, directChildren := parentRows0, directChildren0;
    var t := terms[i];
    var short := ShortNamespace(Get(t, "namespace").GetOr(""));
    var o := OntologyOf(short);
    assert o == TermOntology(t);
    if o.None? {
      return;
    }
    var rows, dc := CollectTerm(t, active, parentRows.At(o.value), directChildren.At(o.value));
    parentRows := parentRows.Put(o.value, rows);
    directChildren := directChildren.Put(o.value, dc);
    forall o' ensures parentRows.At(o') == PartitionEdges(terms[..i + 1], active, o') {
      if o' != o.value {
        assert parentRows.At(o') == parentRows0.At(o');
      }
    }
    forall o' ensures ChildrenMatch(parentRows.At(o'), directChildren.At(o')) {
      if o' != o.value {
        assert parentRows.At(o') == parentRows0.At(o') && directChildren.At(o') == directChildren0.At(o');
      }
    }
  }

  /** One more term extends the rows of its own ontology only. */
  lemma PartitionEdgesStep(terms: seq<Stanza>, i: nat, active: set<string>)
    requires i < |terms| && IsAWellFormed(terms)
    ensures IsAWellFormed(terms[..i + 1])
    ensures TermOntology(terms[i]).Some? ==> HasIsATokens(terms[i])
    ensures forall o ::
      PartitionEdges(terms[..i + 1], active, o)
      == PartitionEdges(terms[..i], active, o)
         + (if TermOntology(terms[i]) == Some(o) then TermEdges(terms[i], active) else [])
  {
    assert terms[..i + 1][..i] == terms[..i];
    assert terms[i] in terms;
  }

  /** Row `row` comes from term `t`: the child is `t`, the parent is active, and the
      parent is the first token of an `is_a` value or the second token of a
      `relationship` value whose first token is the type. */
  ghost predicate EdgeOf(t: Stanza, active: set<string>, row: ParentRow) {
    row.child == GoId(t) && row.parent in active &&
    ((row.relType == "is_a"
      && exists raw :: raw in ListOf(t, "is_a") && IsAParent(raw, row.parent))
     || (exists raw :: raw in ListOf(t, "relationship") && RelFields(raw, row)))
  }

  /** The `is_a` value `raw` names `parent` as its first token. */
  ghost predicate IsAParent(raw: string, parent: string) {
    Words(raw) != [] && Words(raw)[0] == parent
  }

  /** The `relationship` value `raw` names the type and parent of `row`. */
  ghost predicate RelFields(raw: string, row: ParentRow) {
    var parts := Words(raw);
    |parts| >= 2 && parts[0] == row.relType && parts[1] == row.parent
  }

  lemma {:induction false} IsAEdgeMembers(goId: string, raws: seq<string>, active: set<string>, row: ParentRow)
    requires forall raw :: raw in raws ==> Words(raw) != []
    ensures row in IsAEdges(goId, raws, active) <==>
      row.child == goId && row.parent in active && row.relType == "is_a"
      && exists raw :: raw in raws && IsAParent(raw, row.parent)
    decreases |raws|
  {
    if raws != [] {
      var init := raws[..|raws| - 1];
      var last := raws[|raws| - 1];
      IsAEdgeMembers(goId, init, active, row);
      assert raws == init + [last];
      assert last in raws;
      if exists raw :: raw in raws && IsAParent(raw, row.parent) {
        var raw :| raw in raws && IsAParent(raw, row.parent);
        InFrontOrLast(raws, raw);
      }
    }
  }

  lemma {:induction false} RelEdgeMembers(goId: string, raws: seq<string>, active: set<string>, row: ParentRow)
    ensures row in RelEdges(goId, raws, active) <==>
      row.child == goId && row.parent in active
      && exists raw :: raw in raws && RelFields(raw, row)
    decreases |raws|
  {
    if raws != [] {
      var init := raws[..|raws| - 1];
      var last := raws[|raws| - 1];
      RelEdgeMembers(goId, init, active, row);
      assert raws == init + [last];
      assert last in raws;
      if exists raw :: raw in raws && RelFields(raw, row) {
        var raw :| raw in raws && RelFields(raw, row);
        InFrontOrLast(raws, raw);
      }
    }
  }

  lemma TermEdgeMembers(t: Stanza, active: set<string>, row: ParentRow)
    requires HasIsATokens(t)
    ensures row in TermEdges(t, active) <==> EdgeOf(t, active, row)
  {
    IsAEdgeMembers(GoId(t), ListOf(t, "is_a"), active, row);
    RelEdgeMembers(GoId(t), ListOf(t, "relationship"), active, row);
  }

  /** A row is in ontology `o`'s table exactly when some active term of that
      ontology yields it; so every row's parent is active, and a term outside the
      three ontologies yields none. */
  lemma {:induction false} PartitionEdgeMembers(terms: seq<Stanza>, active: set<string>, o: Ontology, row: ParentRow)
    requires IsAWellFormed(terms)
    ensures row in PartitionEdges(terms, active, o) <==>
      exists t :: t in terms && TermOntology(t) == Some(o) && EdgeOf(t, active, row)
    decreases |terms|
  {
    if terms != [] {
      var init := terms[..|terms| - 1];
      var last := terms[|terms| - 1];
      PartitionEdgesStep(terms, |terms| - 1, active);
      assert terms[..|terms|] == terms;
      PartitionEdgeMembers(init, active, o, row);
      var owns := TermOntology(last) == Some(o) && EdgeOf(last, active, row);
      assert row in PartitionEdges(terms, active, o) <==> row in PartitionEdges(init, active, o) || owns by {
        if TermOntology(last) == Some(o) {
          TermEdgeMembers(last, active, row);
        }
      }
      assert terms == init + [last];
      assert last in terms;
      if exists t :: t in terms && TermOntology(t) == Some(o) && EdgeOf(t, active, row) {
        var t :| t in terms && TermOntology(t) == Some(o) && EdgeOf(t, active, row);
        InFrontOrLast(terms, t);
      }
    }
  }
}
