# GO OBO loader — a verified model

`inst/support/dogo.py` reads a Gene Ontology file in OBO format and loads it into
a SQLite database. Every table uses the GO identifier as its key. This project
models the loader's core in Dafny and proves properties of it:

- **the OBO reader** (`Obo`). It turns the file's lines into one tag map per
  `[Term]` stanza. A `[Typedef]` or any other bracketed header closes the open
  stanza and starts a skipped block. `key: value` lines are split at the first
  `": "`. A trailing `! comment` (whitespace, `!`, rest of line) is cut off and
  the value is stripped. Multi-valued tags collect lists; any other tag keeps its
  last value.
- **the synonym tag parser** (`Synonyms`). It is a hand-written matcher for the
  anchored pattern of `parse_synonym_tag`. The label is the shortest quoted text
  followed by whitespace. The scope is the optional keyword after it, EXACT when
  the keyword is missing. A value that does not match is kept whole, with scope
  EXACT.
- **the builder's row shaping** (`Terms`) covers:
  - classification into active and obsolete GO terms, and the set of active
    identifiers
  - the namespace's short label from `NS_MAP`
  - definition cleaning: a quote, optional whitespace, a bracketed block and
    trailing whitespace at the end (`" [refs]`) go, then leading quotes, then
    surrounding whitespace
  - the `go_term`, `go_obsolete` and `go_synonym` rows, where alt_ids become
    EXACT synonyms flagged as GO-like
- **the edge collector** (`Edges`). For each active term of BP, MF or CC, its
  `is_a` parents (first token) and `relationship` parents (second token, typed by
  the first) that are active give the namespace's parents rows. They also fill
  its parent-to-children map.
- **the transitive closure** (`Closure`). This is the stack-based search of
  `transitive_closure`, run from every node. It yields exactly the pairs of
  (ancestor, descendant) reachable in one or more steps, each pair once.
- **`build`** (`Build`) puts these together. It goes from the lines of the file
  to the rows of every table. The offspring pairs are exactly the descent
  relation of the parents rows of the same ontology.

The loops of the source stay loops here, as methods:

- the reader loop, `Obo.ParseObo`
- the classification loop, `Terms.Classify`
- the row loops, `Terms.TermRows` and `Terms.SynonymRows`
- the edge loop, `Edges.CollectEdges`
- the closure's loops, `Closure.BuildChildren` and `Closure.TransitiveClosure`

Each is proved against a function on its inputs, and the properties are then
proved about those functions. The regular expressions become scanners. Their
contracts state the match as the regex semantics defines it: the leftmost start,
the lazy, first closing quote, and Python's `$`, which also matches just before a
final newline.

Lines are the input. They are what Python's text-mode reader yields, so they
hold no `\r` and at most one final `\n`, which the reader removes.

Definition cleaning removes every leading quote, as the comment at
`inst/support/dogo.py:275` says. The code differs from its own comments in two
places, and the model follows the code:

- The scope keyword `SYNONYM` is kept as a scope value, although the comment at
  `inst/support/dogo.py:153` lists only EXACT, RELATED, NARROW and BROAD.
- When a definition has no citation block, its trailing quote is kept, although
  the comment at `inst/support/dogo.py:275` says the trailing quotes go.

## Model

| member | source | states |
|---|---|---|
| Strings.Strip | inst/support/dogo.py:54 | `str.strip()`: the result is empty iff the input is all whitespace; otherwise it neither starts nor ends with whitespace, and it occurs in the input |
| Strings.LStripChar | inst/support/dogo.py:276 | `lstrip('"')`: the result is a suffix of the input that does not start with the character, and everything removed is that character |
| Strings.Words | inst/support/dogo.py:337 | `str.split()`: no words iff the input is all whitespace; every word is non-empty and free of whitespace |
| Strings.WordsStep | inst/support/dogo.py:337 | the first word is the first maximal run of non-whitespace characters (only whitespace before it, whitespace or the end after it), and the other words are the words of the text after that run |
| Strings.StripSliceAt | inst/support/dogo.py:54 | stripping a slice keeps the text of the whole string that starts after the slice's leading whitespace and ends inside the slice |
| Strings.StripSliceRest | inst/support/dogo.py:54 | after the text that stripping a slice keeps, only whitespace remains up to the slice's end |
| Strings.IndexOf | inst/support/dogo.py:51-52 | finding `": "` for `partition`: a found index is an occurrence, and there is none iff no index is one |
| Obo.CommentCheckIsCommentAt | inst/support/dogo.py:54 | the executable test for the comment pattern `\s+!.*$` at an index agrees with its definition |
| Obo.CommentStart | inst/support/dogo.py:54 | the comment that `re.sub` removes starts at the leftmost index where the pattern matches (or there is none), with `$` matching at the end or just before a final newline |
| Obo.CommentBeforeFinalNewline | inst/support/dogo.py:54 | in `a !b` followed by a newline, the comment starts at index 1 and the stored value is `a` |
| Obo.Chomp | inst/support/dogo.py:41 | `rstrip("\n")`: the result is a prefix of the line that does not end in a newline, and everything removed is a newline |
| Obo.ExtractValue | inst/support/dogo.py:52-54 | the stored value has no whitespace at either end, is empty iff only whitespace precedes the comment, and is the text of the value that starts after its leading whitespace and is followed only by whitespace up to the comment, so it is exactly the part before the comment with its whitespace stripped |
| Obo.ClassifyLineCases | inst/support/dogo.py:41-52 | a line is a `[Term]` header, else another bracketed header, else a tag line split at the first `": "` with the value cleaned, else skipped |
| Obo.StoreFrame | inst/support/dogo.py:55-58 | storing a line makes its tag present and changes no other tag |
| Obo.Records | inst/support/dogo.py:38-60 | a file yields at most one record per line |
| Obo.FromOpen | inst/support/dogo.py:42-60 | with a stanza open, at least that stanza is yielded, and at most one record per further line |
| Obo.BodyLength | inst/support/dogo.py:42-51 | a stanza's body runs up to the first header line, and none of its lines is a header |
| Obo.ReadLine | inst/support/dogo.py:41-58 | one turn of the reader loop yields the stanzas `Flushed` gives for the line and moves to the state `NextOpen` gives; `Obo.PendingStep` ties these step functions to `Records` |
| Obo.PendingStep | inst/support/dogo.py:40-60 | the declarative reader fed one more line equals the stanzas flushed by that line followed by the reader from the new state |
| Obo.ParseObo | inst/support/dogo.py:29-60 | the reader loop yields exactly the declarative `Records` of the lines |
| Obo.RecordCount | inst/support/dogo.py:42-45 | there is one record per `[Term]` header line |
| Obo.RecordsAppend | inst/support/dogo.py:42-50 | lines split just before a header parse as the records of the two halves, concatenated |
| Obo.RecordsAtHeader | inst/support/dogo.py:42-50 | a `[Term]` header opens an empty stanza, and any other header drops everything up to the next header |
| Obo.FromOpenWholeBody | inst/support/dogo.py:51-60 | an open stanza followed only by body lines becomes one record holding all of them |
| Obo.RecordsAroundBlock | inst/support/dogo.py:42-60 | a `[Term]` block between headers contributes exactly one record, built from its body, between the records before and after it |
| Obo.BlockRecord | inst/support/dogo.py:42-60 | the record of a `[Term]` block is at the index given by the number of `[Term]` headers before it |
| Obo.SkipOutsideStanza | inst/support/dogo.py:46-51 | lines that hold no `[Term]` header, read with no stanza open, add no record, whatever follows them |
| Obo.OtherBlockDropped | inst/support/dogo.py:46-50 | a `[Typedef]` or other bracketed block contributes no record |
| Obo.StoreMultiTag | inst/support/dogo.py:55-56 | storing one line appends its value to a multi-valued tag's list, and creates the list only when the line has that tag |
| Obo.StoreSingleTag | inst/support/dogo.py:57-58 | storing a line with a single-valued tag replaces that tag's value; a line without the tag leaves it alone |
| Obo.AbsorbMultiTag | inst/support/dogo.py:51-56 | a multi-valued tag's list after a body is its list before it plus the body's values of that tag, in order |
| Obo.AbsorbSingleTag | inst/support/dogo.py:51-58 | a single-valued tag ends up holding the last value given for it in the body, and is unchanged if the body gives none |
| Obo.RecordMultiTag | inst/support/dogo.py:35-56 | in a record, a multi-valued tag is present iff the body has it, and holds all its values in order |
| Obo.RecordSingleTag | inst/support/dogo.py:57-58 | in a record, a single-valued tag is present iff the body has it, and holds its last value |
| Synonyms.LabelEndFrom | inst/support/dogo.py:67-69 | the lazy label search finds the first closing quote followed by whitespace (before any newline), or reports that there is none |
| Synonyms.ScopeAt | inst/support/dogo.py:68-77 | the scope is one of the five keywords; a scope other than EXACT is a keyword the text starts with, and any keyword the text starts with is the scope |
| Synonyms.ScopeAfterMatches | inst/support/dogo.py:68-77 | the scope read after a closed label is one of the five keywords; when it is not EXACT the pattern matches that keyword after the whitespace, and no other keyword matches there |
| Synonyms.ParseSynonymTag | inst/support/dogo.py:67-78 | the flag is 0 and the scope is one of the five keywords; with no match it returns the raw value with EXACT; with a match the label is the text up to the first closing quote, and the scope is the keyword after the whitespace, or EXACT when none follows |
| Synonyms.ScopedSynonym | inst/support/dogo.py:67-78 | for a label with no quote and no newline, `"label" SCOPE ...` yields `(label, SCOPE, 0)` whatever follows the keyword |
| Synonyms.UnscopedSynonym | inst/support/dogo.py:67-78 | a label with no quote and no newline, quoted and followed by whitespace and then text that starts with neither whitespace nor a keyword, gets scope EXACT |
| Synonyms.UnquotedSynonym | inst/support/dogo.py:73-75 | a value that does not open with a quote is returned whole with scope EXACT |
| Synonyms.CellGrowthNarrow | inst/support/dogo.py:67-78 | `"cell growth" NARROW []` gives the label `cell growth` with scope NARROW |
| Terms.Select | inst/support/dogo.py:242-249 | a list is no longer than the input, and each stanza in it is a GO term with the list's obsolete status |
| Terms.Classify | inst/support/dogo.py:242-249 | the classification loop yields exactly the active and the obsolete GO-term stanzas, in file order |
| Terms.SelectMembers | inst/support/dogo.py:243-249 | a stanza is in a list iff it is in the input, its id starts with `GO:` and its `is_obsolete` status matches the list |
| Terms.SelectSplits | inst/support/dogo.py:242-249 | every GO-term stanza lands in exactly one of the two lists, as often as it occurs; no other stanza lands in either |
| Terms.ActiveIds | inst/support/dogo.py:255 | every term's id is in the set, and every id in the set is some term's |
| Terms.ActiveIdsOf | inst/support/dogo.py:255 | an id is active iff a non-obsolete GO-term stanza carries it, and every active id starts with `GO:` |
| Terms.ShortNamespace | inst/support/dogo.py:227-231 | the label is BP, MF or CC exactly for the three namespace names, and `??` exactly for any other namespace |
| Terms.CitationCheckIsCitationAt | inst/support/dogo.py:276 | the executable test for the pattern `"\s*\[.*?\]\s*$` at an index agrees with its definition |
| Terms.CitationStart | inst/support/dogo.py:276 | the citation block that `re.sub` removes starts at the leftmost index where the pattern matches (or there is none) |
| Terms.CleanDef | inst/support/dogo.py:273-276 | a definition is present after cleaning iff it was before; an empty one stays empty; a cleaned one is no longer than the original and has no whitespace at either end |
| Terms.Unquote | inst/support/dogo.py:276 | dropping the leading quotes and stripping gives a text no longer than the input with no whitespace at either end |
| Terms.CitedDefinition | inst/support/dogo.py:273-276 | a definition `"text" [refs]` is cleaned to the stripped text, when the text holds no quote and does not start with whitespace or `[`, and the refs hold no newline |
| Terms.UncitedDefinition | inst/support/dogo.py:273-276 | with no citation block, only the leading quotes and surrounding whitespace go, so a trailing quote stays |
| Terms.TermRowOf | inst/support/dogo.py:270-277 | a term's row has the term's id, its name or `""` when it has none, a label among BP, MF, CC and `??`, and a definition iff the term has a `def` |
| Terms.TermRows | inst/support/dogo.py:269-292 | one row per term, in order: id, name (empty when missing), namespace label, and cleaned definition (absent when missing, `""` kept as is) |
| Terms.TermRowShape | inst/support/dogo.py:270-277 | a classified term's row has an id starting with `GO:`, a label among BP, MF, CC and `??`, and a definition iff the stanza has a `def` |
| Terms.SynonymRows | inst/support/dogo.py:300-311 | the synonym loop yields exactly the term-by-term text synonym rows followed by alt_id rows |
| Terms.TermSynonyms | inst/support/dogo.py:301-311 | the two inner loops for one term yield exactly its text synonym rows followed by its alt_id rows |
| Terms.TextRowsMembers | inst/support/dogo.py:305-307 | a term's text synonym rows are exactly the parsed rows of its `synonym` values |
| Terms.AltRowsMembers | inst/support/dogo.py:310-311 | a term's alt_id rows are exactly `(id, alt, alt, EXACT, 1)` for each of its `alt_id` values |
| Terms.TermRowsMembers | inst/support/dogo.py:301-311 | a term contributes exactly its text synonym rows and its alt_id rows |
| Terms.SynonymRowMembers | inst/support/dogo.py:300-311 | a row is in the synonym table iff some active term contributes it |
| Terms.SynonymRowShape | inst/support/dogo.py:305-311 | every synonym row has a known scope, and is flagged GO-like iff it has a secondary id; that secondary id is the synonym itself with scope EXACT; its id is an active term's |
| Edges.OntologyOf | inst/support/dogo.py:326-333 | a label names an ontology with parents tables iff it is BP, MF or CC |
| Edges.PerOntology.Put | inst/support/dogo.py:326-339 | updating one ontology's entry leaves the other two unchanged |
| Edges.IsAEdges | inst/support/dogo.py:336-340 | a term's is_a rows are at most one per value, and each has the term as child, an active parent and the type `is_a` |
| Edges.RelEdges | inst/support/dogo.py:343-349 | a term's relationship rows are at most one per value, and each has the term as child and an active parent |
| Edges.TermEdges | inst/support/dogo.py:335-349 | every row of a term has the term as child and an active parent |
| Edges.PartitionEdges | inst/support/dogo.py:328-349 | every row of an ontology's parents table has an active parent |
| Edges.ChildrenOfMembers | inst/support/dogo.py:340-349 | a child is recorded under a parent iff some row links them |
| Edges.EmitKeepsMatch | inst/support/dogo.py:339-349 | appending a row and its child to the parent's list keeps the map in agreement with the rows |
| Edges.ChildListed | inst/support/dogo.py:320-349 | in a map that agrees with the rows, a child is listed under a parent iff some row links them |
| Edges.CollectIsA | inst/support/dogo.py:336-340 | the is_a loop appends exactly the rows to active first-token parents, typed `is_a`, and keeps the map in agreement |
| Edges.CollectRels | inst/support/dogo.py:343-349 | the relationship loop appends exactly the rows of values with at least two tokens whose parent is active, and keeps the map in agreement |
| Edges.CollectTerm | inst/support/dogo.py:335-349 | one term adds its is_a rows then its relationship rows |
| Edges.CollectStep | inst/support/dogo.py:328-349 | one turn of the edge loop files the term's rows under its ontology, or skips a term outside the three |
| Edges.PartitionEdgesStep | inst/support/dogo.py:328-333 | one more term extends only its own ontology's rows |
| Edges.CollectEdges | inst/support/dogo.py:320-349 | each ontology's rows are exactly its terms' edges in order, and each map agrees with its rows |
| Edges.IsAEdgeMembers | inst/support/dogo.py:336-339 | an is_a row is present iff some is_a value's first token is an active parent |
| Edges.RelEdgeMembers | inst/support/dogo.py:343-348 | a relationship row is present iff some value has at least two tokens, the second an active parent and the first the type |
| Edges.TermEdgeMembers | inst/support/dogo.py:335-349 | a term's rows are exactly its is_a edges and its relationship edges |
| Edges.PartitionEdgeMembers | inst/support/dogo.py:328-349 | a row is in ontology `o`'s parents table iff it is an edge of some active term of `o` |
| Closure.ReachStep | inst/support/dogo.py:107-113 | a direct child is a descendant |
| Closure.ReachExtend | inst/support/dogo.py:109-114 | a child of a descendant is a descendant |
| Closure.ReachClosed | inst/support/dogo.py:104-114 | every descendant lies in any set that holds the node's children and is closed under children |
| Closure.ReachableEnds | inst/support/dogo.py:97-101 | an ancestor is a parent key, and a descendant is some node's child |
| Closure.NoChildNoPairs | inst/support/dogo.py:107-108 | a node with no children has no descendants |
| Closure.Enumerate | inst/support/dogo.py:104 | iterating a set visits each element exactly once |
| Closure.BuildChildren | inst/support/dogo.py:94-101 | the children sets are exactly the direct edges, and the nodes are exactly the parents and children |
| Closure.AddChildren | inst/support/dogo.py:98-101 | one parent's children are added to its set and to the nodes; no other set changes |
| Closure.CoveredAfterPop | inst/support/dogo.py:108-114 | popping a node and pushing its children keeps every unvisited descendant reachable from the stack |
| Closure.SkipStep | inst/support/dogo.py:108-111 | popping a node already visited keeps the search invariant: pairs match the visited nodes, each once, and every child of a visited node is visited or waiting |
| Closure.VisitStep | inst/support/dogo.py:108-114 | popping a new node, recording its pair and pushing its children keeps the search invariant, and the node is one of the graph's nodes |
| Closure.Search | inst/support/dogo.py:106-114 | the search from one ancestor appends exactly its descendants, each once, paired with it |
| Closure.TransitiveClosure | inst/support/dogo.py:85-115 | a pair is in the closure iff the second node is reachable from the first in one or more steps, and no pair repeats |
| Build.SuccessorsAreLinks | inst/support/dogo.py:340-364 | the closure's direct edges are the links of the parents rows |
| Build.ReachableIsDescent | inst/support/dogo.py:357-364 | reachability in the parent-to-children map is descent through the parents rows |
| Build.DescentEnds | inst/support/dogo.py:339-349 | a descent starts at some row's parent and ends at some row's child |
| Build.Offspring | inst/support/dogo.py:357-368 | each ontology's offspring pairs are exactly the descents through its parents rows, each once |
| Build.Build | inst/support/dogo.py:238-368 | term and obsolete rows match the classified stanzas one by one; synonym rows, parents rows and offspring pairs are those of the functions above |
| Build.OffspringAreActiveTerms | inst/support/dogo.py:328-364 | every offspring pair joins two active terms: the descendant is an active term of that ontology |

## Left out

- The database itself is not modelled: the SQL schema, the PRAGMAs, `executemany`, commit and the final row counts. The model ends at the rows handed to each insert.
- The `go_ontology` insert of `NS_MAP`'s long labels is not modelled. It is a constant table; `Terms.NsMap` holds those labels.
- `INSERT OR IGNORE` de-duplication of term rows with the same id is not modelled, and neither are foreign keys. The rows are given as they are built.
- The `map_counts` table, the progress `print`s and the command-line entry point are I/O.
- Opening and UTF-8 decoding of the file are not modelled. The lines are the input, as the text-mode reader delivers them.
- Only the three regular expressions of the core are modelled, each as its own scanner. There is no general regex engine.
- Closure.TransitiveClosure: iteration order of Python sets and dicts is left unspecified (arbitrary choice), so the order of the pairs is not stated, only their set and that none repeats.
- Edges.IsAEdges: requires every `is_a` value to hold a token, because the source raises `IndexError` on an empty `is_a` value (`raw.split()[0]`) and the model does not model the exception. The same precondition carries through to `Edges.TermEdges`, `Edges.PartitionEdges`, `Edges.CollectIsA`, `Edges.CollectTerm`, `Edges.CollectStep` and `Edges.CollectEdges`, for each collected term.
- Build.Build: carries the same `is_a` precondition as `Edges.CollectEdges`, for the same reason.
