/** The term classifier and row shaping of the builder: which stanzas are GO
    terms, which of them are obsolete, the namespace labels, the cleaned
    definitions, and the rows of the term and synonym tables. */
module Terms {
  import opened Wrappers
  import opened Strings
  import opened Obo
  import opened Synonyms
  import opened Seqs

  /** `stanza.get(tag)` for a single-valued tag. */
  function Get(s: Stanza, tag: string): Option<string> {
    if tag in s && s[tag].Scalar? then Some(s[tag].value) else None
  }

  /** `stanza.get("id", "")` */
  function GoId(s: Stanza): string {
    Get(s, "id").GetOr("")
  }

  predicate IsGoTerm(s: Stanza) {
    StartsWith(GoId(s), "GO:")
  }

  predicate IsObsolete(s: Stanza) {
    Get(s, "is_obsolete") == Some("true")
  }

  // ---------------------------------------------------------------------------
  // Classification
  // ---------------------------------------------------------------------------

  /** The GO-term stanzas of `xs` whose obsolete flag is `obsolete`, in input order. */
  function Select(xs: seq<Stanza>, obsolete: bool): (r: seq<Stanza>)
    ensures |r| <= |xs|
    ensures forall i :: 0 <= i < |r| ==> IsGoTerm(r[i]) && IsObsolete(r[i]) == obsolete
    decreases |xs|
  {
    if xs == [] then []
    else
      var last := xs[|xs| - 1];
      Select(xs[..|xs| - 1], obsolete)
      + (if IsGoTerm(last) && IsObsolete(last) == obsolete then [last] else [])
  }

  /** The classification loop: GO terms go to `obsolete` when `is_obsolete` is
      `"true"` and to `terms` otherwise; other stanzas are skipped. */
  method Classify(stanzas: seq<Stanza>) returns (terms: seq<Stanza>, obsolete: seq<Stanza>)
    ensures terms == Select(stanzas, false)
    ensures obsolete == Select(stanzas, true)
  {
    terms, obsolete := [], [];
    for i := 0 to |stanzas|
      invariant terms == Select(stanzas[..i], false)
      invariant obsolete == Select(stanzas[..i], true)
    {
      assert stanzas[..i + 1][..i] == stanzas[..i];
      var stanza := stanzas[i];
      var goId := Get(stanza, "id").GetOr("");
      if !StartsWith(goId, "GO:") {
        continue;
      }
      if Get(stanza, "is_obsolete") == Some("true") {
        obsolete := obsolete + [stanza];
      } else {
        terms := terms + [stanza];
      }
    }
    assert stanzas[..|stanzas|] == stanzas;
  }

  /** A stanza is in a list exactly when it is a GO term of that status. */
  lemma {:induction false} SelectMembers(xs: seq<Stanza>, obsolete: bool, s: Stanza)
    ensures s in Select(xs, obsolete) <==> s in xs && IsGoTerm(s) && IsObsolete(s) == obsolete
    decreases |xs|
  {
    if xs != [] {
      var init := xs[..|xs| - 1];
      SelectMembers(init, obsolete, s);
      assert xs == init + [xs[|xs| - 1]];
    }
  }

  /** Each GO-term stanza lands in exactly one of the two lists, as many times as it
      occurs in the input; no other stanza lands in either. */
  lemma {:induction false} SelectSplits(xs: seq<Stanza>, s: Stanza)
    ensures multiset(Select(xs, false))[s] + multiset(Select(xs, true))[s]
         == if IsGoTerm(s) then multiset(xs)[s] else 0
    decreases |xs|
  {
    if xs != [] {
      var init := xs[..|xs| - 1];
      var last := xs[|xs| - 1];
      SelectSplits(init, s);
      assert multiset(xs) == multiset(init) + multiset{last} by {
        assert xs == init + [last];
      }
      var active := if IsGoTerm(last) && !IsObsolete(last) then [last] else [];
      var gone := if IsGoTerm(last) && IsObsolete(last) then [last] else [];
      assert multiset(Select(xs, false)) == multiset(Select(init, false)) + multiset(active);
      assert multiset(Select(xs, true)) == multiset(Select(init, true)) + multiset(gone);
    }
  }

  /** The identifiers of the active terms (`{t["id"] for t in terms}`). */
  function ActiveIds(terms: seq<Stanza>): (ids: set<string>)
    ensures forall t :: t in terms ==> GoId(t) in ids
    ensures forall id :: id in ids ==> exists t :: t in terms && GoId(t) == id
  {
    set t | t in terms :: GoId(t)
  }

  /** An identifier is active exactly when some non-obsolete GO-term stanza has it;
      every active identifier starts with `GO:`. */
  lemma ActiveIdsOf(stanzas: seq<Stanza>, id: string)
    ensures id in ActiveIds(Select(stanzas, false))
        <==> exists s :: s in stanzas && IsGoTerm(s) && !IsObsolete(s) && GoId(s) == id
    ensures id in ActiveIds(Select(stanzas, false)) ==> StartsWith(id, "GO:")
  {
    forall s ensures s in Select(stanzas, false) <==> s in stanzas && IsGoTerm(s) && !IsObsolete(s) {
      SelectMembers(stanzas, false, s);
    }
  }

  // ---------------------------------------------------------------------------
  // Namespaces
  // ---------------------------------------------------------------------------

  /** `NS_MAP`: namespace name to (short label, long label). */
  const NsMap: map<string, (string, string)> :=
    map["biological_process" := ("BP", "biological process"),
        "molecular_function" := ("MF", "molecular function"),
        "cellular_component" := ("CC", "cellular component")]

  /** `NS_MAP.get(ns, ("??", "??"))[0]` */
  function ShortNamespace(ns: string): (short: string)
    ensures short == "BP" <==> ns == "biological_process"
    ensures short == "MF" <==> ns == "molecular_function"
    ensures short == "CC" <==> ns == "cellular_component"
    ensures short == "??" <==> ns !in NsMap
  {
    if ns in NsMap then NsMap[ns].0 else "??"
  }

  function NamespaceOf(t: Stanza): string {
    ShortNamespace(Get(t, "namespace").GetOr(""))
  }

  // ---------------------------------------------------------------------------
  // Definitions
  // ---------------------------------------------------------------------------

  /** The citation pattern `"\s*\[.*?\]\s*$` matches in `d` from index `p`: a quote,
      optional whitespace, a bracketed block without newlines, and only whitespace
      after it up to the end. */
  ghost predicate CitationAt(d: string, p: int) {
    0 <= p < |d| && d[p] == '"' && exists j, e :: CitationSpan(d, p, j, e)
  }

  /** The bracketed block of a citation at `p` runs from `d[j]` to `d[e]`. */
  ghost predicate CitationSpan(d: string, p: int, j: int, e: int) {
    0 <= p < j < e < |d| && d[j] == '[' && d[e] == ']'
    && (forall i :: p < i < j ==> IsSpace(d[i]))
    && (forall i :: j < i < e ==> d[i] != '\n')
    && (forall i :: e < i < |d| ==> IsSpace(d[i]))
  }

  /** The executable test behind CitationAt. */
  predicate CitationCheck(d: string, p: nat)
    requires p < |d|
  {
    var j := p + 1 + LeadingSpaces(d[p + 1..]);
    var t := TrailingSpaces(d);
    d[p] == '"' && j < |d| && d[j] == '[' && t < |d| && j < |d| - 1 - t
    && d[|d| - 1 - t] == ']' && forall i | j < i < |d| - 1 - t :: d[i] != '\n'
  }

  lemma CitationCheckIsCitationAt(d: string, p: nat)
    requires p < |d|
    ensures CitationCheck(d, p) <==> CitationAt(d, p)
  {
    if CitationCheck(d, p) {
      CheckedCitation(d, p);
    }
    if CitationAt(d, p) {
      CitationChecked(d, p);
    }
  }

  lemma CheckedCitation(d: string, p: nat)
    requires p < |d| && CitationCheck(d, p)
    ensures CitationAt(d, p)
  {
    var tail := d[p + 1..];
    var j := p + 1 + LeadingSpaces(tail);
    var e := |d| - 1 - TrailingSpaces(d);
    assert forall i :: p < i < j ==> IsSpace(d[i]) by {
      forall i | p < i < j ensures IsSpace(d[i]) {
        assert d[i] == tail[i - p - 1];
      }
    }
    assert CitationSpan(d, p, j, e);
  }

  lemma CitationChecked(d: string, p: nat)
    requires p < |d| && CitationAt(d, p)
    ensures CitationCheck(d, p)
  {
    var j, e :| CitationSpan(d, p, j, e);
    LeadingRunEnds(d, p + 1, j);
    TrailingRunStarts(d, e);
    CheckAtSpan(d, p, j, e);
  }

  /** CitationCheck holds once its scans are known to stop at the span's brackets. */
  lemma CheckAtSpan(d: string, p: nat, j: nat, e: nat)
    requires p < |d| && d[p] == '"' && CitationSpan(d, p, j, e)
    requires p + 1 + LeadingSpaces(d[p + 1..]) == j
    requires |d| - 1 - TrailingSpaces(d) == e
    ensures CitationCheck(d, p)
  {
    assert forall i | j < i < e :: d[i] != '\n';
  }

  /** A whitespace run from `a` up to a non-whitespace `d[j]` is what LeadingSpaces counts. */
  lemma LeadingRunEnds(d: string, a: nat, j: nat)
    requires a <= j < |d| && !IsSpace(d[j])
    requires forall i :: a <= i < j ==> IsSpace(d[i])
    ensures a + LeadingSpaces(d[a..]) == j
  {
    var tail := d[a..];
    var n := LeadingSpaces(tail);
    assert tail[j - a] == d[j];
    assert forall i :: 0 <= i < j - a ==> tail[i] == d[a + i];
  }

  /** Whitespace from after a non-whitespace `d[e]` to the end is what TrailingSpaces counts. */
  lemma TrailingRunStarts(d: string, e: nat)
    requires e < |d| && !IsSpace(d[e])
    requires forall i :: e < i < |d| ==> IsSpace(d[i])
    ensures |d| - 1 - TrailingSpaces(d) == e
  {
    var t := TrailingSpaces(d);
    assert !IsSpace(d[|d| - 1 - t]) || t == |d|;
  }

  function CitationFrom(d: string, p: nat): (n: nat)
    requires p <= |d|
    ensures p <= n <= |d|
    ensures n < |d| ==> CitationAt(d, n)
    ensures forall q :: p <= q < n ==> !CitationAt(d, q)
    decreases |d| - p
  {
    if p == |d| then p
    else
      CitationCheckIsCitationAt(d, p);
      if CitationCheck(d, p) then p else CitationFrom(d, p + 1)
  }

  /** Where `re.sub(r'"\s*\[.*?\]\s*$', '', d)` cuts `d`: the leftmost index at
      which the citation pattern matches, or `|d|`. */
  function CitationStart(d: string): (n: nat)
    ensures n <= |d|
    ensures n < |d| ==> CitationAt(d, n)
    ensures forall q :: 0 <= q < n ==> !CitationAt(d, q)
  {
    CitationFrom(d, 0)
  }

  /** The definition cleaning: the citation cut off, every leading quote removed,
      then stripped. A missing or empty definition is passed through. */
  function CleanDef(def: Option<string>): (r: Option<string>)
    ensures r.Some? <==> def.Some?
    ensures def == Some("") ==> r == def
    ensures r.Some? ==> Stripped(r.value)
    ensures r.Some? ==> |r.value| <= |def.value|
  {
    match def
    case None => None
    case Some(d) =>
      if d == "" then Some(d) else Some(Unquote(d[..CitationStart(d)]))
  }

  /** The quotes at the front dropped, then stripped. */
  function Unquote(t: string): (r: string)
    ensures |r| <= |t|
    ensures Stripped(r)
  {
    Strip(LStripChar(t, '"'))
  }

  /** In `"text" [refs]` the citation pattern matches first at the closing quote. */
  lemma CitedDefinitionCut(d: string, text: string, refs: string)
    requires d == "\"" + text + "\" [" + refs + "]"
    requires forall i :: 0 <= i < |text| ==> text[i] != '"'
    requires forall i :: 0 <= i < |refs| ==> refs[i] != '\n'
    requires text != [] ==> !IsSpace(text[0]) && text[0] != '['
    ensures CitationStart(d) == |text| + 1
  {
    var p := |text| + 1;
    assert CitationAt(d, p) by {
      assert d[p] == '"' && d[p + 1] == ' ' && d[p + 2] == '[' && d[|d| - 1] == ']';
      assert forall i :: p + 2 < i < |d| - 1 ==> d[i] == refs[i - p - 3];
      assert CitationSpan(d, p, p + 2, |d| - 1);
    }
    assert forall q :: 0 <= q < p ==> !CitationAt(d, q) by {
      forall q | 0 <= q < p ensures !CitationAt(d, q) {
        if 0 < q {
          assert d[q] == text[q - 1];
        } else {
          assert d[1] == if text == [] then '"' else text[0];
        }
      }
    }
  }

  /** A definition shaped `"text" [refs]` cleans to the stripped text, when the text
      holds no quote and does not open with whitespace or a bracket. */
  lemma CitedDefinition(d: string, text: string, refs: string)
    requires d == "\"" + text + "\" [" + refs + "]"
    requires forall i :: 0 <= i < |text| ==> text[i] != '"'
    requires forall i :: 0 <= i < |refs| ==> refs[i] != '\n'
    requires text != [] ==> !IsSpace(text[0]) && text[0] != '['
    ensures CleanDef(Some(d)) == Some(Strip(text))
  {
    CitedDefinitionCut(d, text, refs);
    var cut := d[..|text| + 1];
    assert cut == "\"" + text;
    assert LStripChar(cut, '"') == text by {
      assert cut[1..] == text;
    }
  }

  /** Without a citation block the trailing quote stays: only the leading quotes go. */
  lemma UncitedDefinition(d: string)
    requires d != ""
    requires forall p :: !CitationAt(d, p)
    ensures CleanDef(Some(d)) == Some(Strip(LStripChar(d, '"')))
  {
    var n := CitationStart(d);
    assert n == |d|;
    assert d[..n] == d;
  }

  // ---------------------------------------------------------------------------
  // Term rows
  // ---------------------------------------------------------------------------

  /** A row of the term tables: identifier, name, namespace label, definition. */
  datatype TermRow = TermRow(goId: string, term: string, ontology: string, definition: Option<string>)

  function TermRowOf(t: Stanza): (row: TermRow)
    ensures row.goId == GoId(t)
    ensures Get(t, "name").Some? ==> row.term == Get(t, "name").value
    ensures Get(t, "name").None? ==> row.term == ""
    ensures row.ontology in {"BP", "MF", "CC", "??"}
    ensures row.definition.Some? <==> Get(t, "def").Some?
  {
    TermRow(GoId(t), Get(t, "name").GetOr(""), NamespaceOf(t), CleanDef(Get(t, "def")))
  }

  /** The term-row loop, run over the active and over the obsolete terms. */
  method TermRows(terms: seq<Stanza>) returns (rows: seq<TermRow>)
    ensures |rows| == |terms|
    ensures forall i :: 0 <= i < |terms| ==> rows[i] == TermRowOf(terms[i])
  {
    rows := [];
    for i := 0 to |terms|
      invariant |rows| == i
      invariant forall k :: 0 <= k < i ==> rows[k] == TermRowOf(terms[k])
    {
      var t := terms[i];
      var short := ShortNamespace(Get(t, "namespace").GetOr(""));
      var defn := Get(t, "def");
      if defn.Some? && defn.value != "" {
        var d := defn.value;
        defn := Some(Strip(LStripChar(d[..CitationStart(d)], '"')));
      }
      rows := rows + [TermRow(GoId(t), Get(t, "name").GetOr(""), short, defn)];
    }
  }

  /** The row of a classified term carries a GO identifier and a known namespace
      label, and has a definition exactly when the stanza has one. */
  lemma TermRowShape(stanzas: seq<Stanza>, obsolete: bool, t: Stanza)
    requires t in Select(stanzas, obsolete)
    ensures StartsWith(TermRowOf(t).goId, "GO:")
    ensures TermRowOf(t).ontology in ["BP", "MF", "CC", "??"]
    ensures TermRowOf(t).definition.Some? <==> "def" in t && t["def"].Scalar?
  {
    SelectMembers(stanzas, obsolete, t);
  }

  // ---------------------------------------------------------------------------
  // Synonym rows
  // ---------------------------------------------------------------------------

  /** A row of the synonym table: term, synonym text, secondary identifier, scope,
      and the flag saying the synonym is itself an identifier. */
  datatype SynonymRow = SynonymRow(goId: string, synonym: string, secondary: Option<string>,
                                   scope: string, likeGoId: int)

  function TextRow(goId: string, raw: string): SynonymRow {
    var tag := ParseSynonymTag(raw);
    SynonymRow(goId, tag.text, None, tag.scope, 0)
  }

  function AltRow(goId: string, alt: string): SynonymRow {
    SynonymRow(goId, alt, Some(alt), "EXACT", 1)
  }

  /** The rows of a list of text synonyms, in order. */
  function TextRows(goId: string, raws: seq<string>): seq<SynonymRow>
    decreases |raws|
  {
    if raws == [] then []
    else TextRows(goId, raws[..|raws| - 1]) + [TextRow(goId, raws[|raws| - 1])]
  }

  /** The rows of a list of alternative identifiers, in order. */
  function AltRows(goId: string, alts: seq<string>): seq<SynonymRow>
    decreases |alts|
  {
    if alts == [] then []
    else AltRows(goId, alts[..|alts| - 1]) + [AltRow(goId, alts[|alts| - 1])]
  }

  /** The rows of one term: its text synonyms, then its alternative identifiers. */
  function TermSynonymRows(t: Stanza): seq<SynonymRow> {
    TextRows(GoId(t), ListOf(t, "synonym")) + AltRows(GoId(t), ListOf(t, "alt_id"))
  }

  function AllSynonymRows(terms: seq<Stanza>): seq<SynonymRow>
    decreases |terms|
  {
    if terms == [] then []
    else AllSynonymRows(terms[..|terms| - 1]) + TermSynonymRows(terms[|terms| - 1])
  }

  /** The synonym-row loop over the active terms. */
  method SynonymRows(terms: seq<Stanza>) returns (rows: seq<SynonymRow>)
    ensures rows == AllSynonymRows(terms)
  {
    rows := [];
    for i := 0 to |terms|
      invariant rows == AllSynonymRows(terms[..i])
    {
      assert terms[..i + 1][..i] == terms[..i];
      var termRows := TermSynonyms(terms[i]);
      rows := rows + termRows;
    }
    assert terms[..|terms|] == terms;
  }

  /** One pass of the synonym-row loop: the text synonyms of `t`, then its alt_ids. */
  method TermSynonyms(t: Stanza) returns (rows: seq<SynonymRow>)
    ensures rows == TermSynonymRows(t)
  {
    var goId := GoId(t);
    var syns := ListOf(t, "synonym");
    var alts := ListOf(t, "alt_id");
    var texts := [];
    for j := 0 to |syns|
      invariant texts == TextRows(goId, syns[..j])
    {
      assert syns[..j + 1][..j] == syns[..j];
      var tag := ParseSynonymTag(syns[j]);
      texts := texts + [SynonymRow(goId, tag.text, None, tag.scope, 0)];
    }
    assert syns[..|syns|] == syns;
    var others := [];
    for j := 0 to |alts|
      invariant others == AltRows(goId, alts[..j])
    {
      assert alts[..j + 1][..j] == alts[..j];
      others := others + [SynonymRow(goId, alts[j], Some(alts[j]), "EXACT", 1)];
    }
    assert alts[..|alts|] == alts;
    rows := texts + others;
  }

  lemma {:induction false} TextRowsMembers(goId: string, raws: seq<string>, row: SynonymRow)
    ensures row in TextRows(goId, raws) <==> exists raw :: raw in raws && row == TextRow(goId, raw)
    decreases |raws|
  {
    if raws != [] {
      var init := raws[..|raws| - 1];
      var last := raws[|raws| - 1];
      TextRowsMembers(goId, init, row);
      assert last in raws;
      if exists raw :: raw in init && row == TextRow(goId, raw) {
        var raw :| raw in init && row == TextRow(goId, raw);
        FrontIn(raws, |raws| - 1, raw);
      }
      if exists raw :: raw in raws && row == TextRow(goId, raw) {
        var raw :| raw in raws && row == TextRow(goId, raw);
        InFrontOrLast(raws, raw);
      }
    }
  }

  lemma {:induction false} AltRowsMembers(goId: string, alts: seq<string>, row: SynonymRow)
    ensures row in AltRows(goId, alts) <==> exists alt :: alt in alts && row == AltRow(goId, alt)
    decreases |alts|
  {
    if alts != [] {
      var init := alts[..|alts| - 1];
      var last := alts[|alts| - 1];
      AltRowsMembers(goId, init, row);
      assert last in alts;
      if exists alt :: alt in init && row == AltRow(goId, alt) {
        var alt :| alt in init && row == AltRow(goId, alt);
        FrontIn(alts, |alts| - 1, alt);
      }
      if exists alt :: alt in alts && row == AltRow(goId, alt) {
        var alt :| alt in alts && row == AltRow(goId, alt);
        InFrontOrLast(alts, alt);
      }
    }
  }

  /** `row` is the row of a text synonym or of an alternative identifier of `t`. */
  ghost predicate RowOf(t: Stanza, row: SynonymRow) {
    (exists raw :: raw in ListOf(t, "synonym") && row == TextRow(GoId(t), raw))
    || (exists alt :: alt in ListOf(t, "alt_id") && row == AltRow(GoId(t), alt))
  }

  lemma TermRowsMembers(t: Stanza, row: SynonymRow)
    ensures row in TermSynonymRows(t) <==> RowOf(t, row)
  {
    TextRowsMembers(GoId(t), ListOf(t, "synonym"), row);
    AltRowsMembers(GoId(t), ListOf(t, "alt_id"), row);
  }

  /** A synonym row comes from a text synonym or an alternative identifier of
      one of the terms, and every such value gives a row. */
  lemma {:induction false} SynonymRowMembers(terms: seq<Stanza>, row: SynonymRow)
    ensures row in AllSynonymRows(terms) <==> exists t :: t in terms && RowOf(t, row)
    decreases |terms|
  {
    if terms != [] {
      var init := terms[..|terms| - 1];
      var last := terms[|terms| - 1];
      SynonymRowMembers(init, row);
      TermRowsMembers(last, row);
      assert last in terms;
      if exists t :: t in init && RowOf(t, row) {
        var t :| t in init && RowOf(t, row);
        FrontIn(terms, |terms| - 1, t);
      }
      if exists t :: t in terms && RowOf(t, row) {
        var t :| t in terms && RowOf(t, row);
        InFrontOrLast(terms, t);
      }
    }
  }

  /** Text-synonym rows carry no secondary identifier and the flag 0; rows for
      alternative identifiers carry the identifier twice, scope EXACT and the flag 1. */
  lemma SynonymRowShape(terms: seq<Stanza>, row: SynonymRow)
    requires row in AllSynonymRows(terms)
    ensures row.scope in Scopes
    ensures row.likeGoId == 1 <==> row.secondary.Some?
    ensures row.secondary.Some? ==> row.secondary.value == row.synonym && row.scope == "EXACT"
    ensures exists t :: t in terms && GoId(t) == row.goId
  {
    SynonymRowMembers(terms, row);
  }
}
