/** The synonym tag parser: a hand-written matcher for the pattern
    `^"(.*?)"\s+(EXACT|RELATED|NARROW|BROAD|SYNONYM)?\s*(?:\[([^\]]*)\])?`
    applied with `re.match` (anchored at the start only). */
module Synonyms {
  import opened Wrappers
  import opened Strings

  /** `(label, scope, like_go_id)`; the flag is always 0 for a text synonym. */
  datatype SynonymTag = SynonymTag(text: string, scope: string, likeGoId: int)

  /** The scope keywords, in the order the pattern tries them. */
  const Scopes: seq<string> := ["EXACT", "RELATED", "NARROW", "BROAD", "SYNONYM"]

  /** `^"(.*?)"\s+` can match with the label ending just before index `q`: the value
      opens with a quote, `raw[q]` is a quote followed by whitespace, and the label
      holds no newline (`.` does not match one). */
  ghost predicate ClosesLabel(raw: string, q: int) {
    1 <= q && q + 1 < |raw| && raw[0] == '"' && raw[q] == '"' && IsSpace(raw[q + 1])
    && forall i :: 1 <= i < q ==> raw[i] != '\n'
  }

  /** The lazy `(.*?)` closes the label at `q`: the first place it can. */
  ghost predicate FirstClose(raw: string, q: int) {
    ClosesLabel(raw, q) && forall j :: 1 <= j < q ==> !ClosesLabel(raw, j)
  }

  /** After the label's closing quote at `q`, the greedy `\s+` stops at the first
      non-whitespace character, and the scope keyword `w` begins there. */
  ghost predicate ScopeWordAt(raw: string, q: nat, w: string) {
    exists m :: q + 1 < m <= |raw| && AllSpace(raw[q + 1..m])
                && (m < |raw| ==> !IsSpace(raw[m])) && StartsWith(raw[m..], w)
  }

  /** The lazy label search from index `q`. */
  function LabelEndFrom(raw: string, q: nat): (r: Option<nat>)
    requires 1 <= q <= |raw| && raw[0] == '"'
    requires forall i :: 1 <= i < q ==> raw[i] != '\n'
    ensures r.Some? ==> q <= r.value && ClosesLabel(raw, r.value)
                        && forall j :: q <= j < r.value ==> !ClosesLabel(raw, j)
    ensures r.None? ==> forall j :: q <= j ==> !ClosesLabel(raw, j)
    decreases |raw| - q
  {
    if q + 1 >= |raw| then None
    else if raw[q] == '"' && IsSpace(raw[q + 1]) then Some(q)
    else if raw[q] == '\n' then None
    else LabelEndFrom(raw, q + 1)
  }

  /** The optional scope group: the first keyword that `rest` starts with. */
  function ScopeAt(rest: string): (w: string)
    ensures w in Scopes
    ensures w != "EXACT" ==> StartsWith(rest, w)
    ensures forall v :: v in Scopes && StartsWith(rest, v) ==> w == v
  {
    KeywordInitials(rest);
    if StartsWith(rest, "EXACT") then "EXACT"
    else if StartsWith(rest, "RELATED") then "RELATED"
    else if StartsWith(rest, "NARROW") then "NARROW"
    else if StartsWith(rest, "BROAD") then "BROAD"
    else if StartsWith(rest, "SYNONYM") then "SYNONYM"
    else "EXACT"
  }

  /** The keywords start with five different letters, so `rest` starts with at most
      one of them. */
  lemma KeywordInitials(rest: string)
    ensures forall v :: v in Scopes && StartsWith(rest, v) ==> rest[0] == v[0]
  {
    forall v | v in Scopes && StartsWith(rest, v) ensures rest[0] == v[0] {
      assert rest[..|v|][0] == v[0];
    }
  }

  /** `parse_synonym_tag`: the label and scope when the value opens with a quoted
      label followed by whitespace; otherwise the raw value with scope EXACT. */
  function ParseSynonymTag(raw: string): (r: SynonymTag)
    ensures r.likeGoId == 0
    ensures r.scope in Scopes
    ensures (forall q :: !ClosesLabel(raw, q)) ==> r == SynonymTag(raw, "EXACT", 0)
    ensures forall q: nat :: FirstClose(raw, q) ==>
      r.text == raw[1..q]
      && (r.scope != "EXACT" ==> ScopeWordAt(raw, q, r.scope))
      && (forall w :: w in Scopes && ScopeWordAt(raw, q, w) ==> r.scope == w)
  {
    if raw == [] || raw[0] != '"' then SynonymTag(raw, "EXACT", 0)
    else
      match LabelEndFrom(raw, 1)
      case None => SynonymTag(raw, "EXACT", 0)
      case Some(q) =>
        ScopeAfterMatches(raw, q);
        SynonymTag(raw[1..q], ScopeAfter(raw, q), 0)
  }

  /** The scope group read after a label closed at `q`: the keyword that follows
      the whitespace run, or EXACT. */
  function ScopeAfter(raw: string, q: nat): string
    requires q + 1 < |raw|
  {
    ScopeAt(raw[q + 1 + LeadingSpaces(raw[q + 1..])..])
  }

  /** The scope read after the label is the keyword the pattern matches there. */
  lemma ScopeAfterMatches(raw: string, q: nat)
    requires ClosesLabel(raw, q)
    ensures ScopeAfter(raw, q) in Scopes
    ensures ScopeAfter(raw, q) != "EXACT" ==> ScopeWordAt(raw, q, ScopeAfter(raw, q))
    ensures forall w :: w in Scopes && ScopeWordAt(raw, q, w) ==> ScopeAfter(raw, q) == w
  {
    var gap := raw[q + 1..];
    var m := q + 1 + LeadingSpaces(gap);
    var scope := ScopeAfter(raw, q);
    assert scope == ScopeAt(raw[m..]);
    assert q + 1 < m by {
      assert gap[0] == raw[q + 1];
    }
    assert AllSpace(raw[q + 1..m]) by {
      var run := raw[q + 1..m];
      forall i | 0 <= i < |run| ensures IsSpace(run[i]) {
        assert run[i] == gap[i];
      }
    }
    assert m < |raw| ==> !IsSpace(raw[m]) by {
      assert m < |raw| ==> raw[m] == gap[m - q - 1];
    }
    if scope != "EXACT" {
      assert StartsWith(raw[m..], scope);
      assert ScopeWordAt(raw, q, scope);
    }
    forall w | w in Scopes && ScopeWordAt(raw, q, w)
      ensures scope == w
    {
      var m' :| q + 1 < m' <= |raw| && AllSpace(raw[q + 1..m'])
                && (m' < |raw| ==> !IsSpace(raw[m'])) && StartsWith(raw[m'..], w);
      WhitespaceRunUnique(raw, q + 1, m, m');
    }
  }

  /** The end of a whitespace run starting at `a` is determined. */
  lemma WhitespaceRunUnique(raw: string, a: nat, m: nat, m': nat)
    requires a <= m <= |raw| && a <= m' <= |raw|
    requires AllSpace(raw[a..m]) && (m < |raw| ==> !IsSpace(raw[m]))
    requires AllSpace(raw[a..m']) && (m' < |raw| ==> !IsSpace(raw[m']))
    ensures m == m'
  {
  }

  /** A value shaped `"label" SCOPE ...` yields `(label, SCOPE, 0)`, whatever follows. */
  lemma ScopedSynonym(raw: string, text: string, scope: string, rest: string)
    requires raw == "\"" + text + "\" " + scope + rest
    requires forall i :: 0 <= i < |text| ==> text[i] != '"' && text[i] != '\n'
    requires scope in Scopes
    ensures ParseSynonymTag(raw) == SynonymTag(text, scope, 0)
  {
    var q := |text| + 1;
    assert raw[q] == '"' && raw[q + 1] == ' ';
    assert raw[1..q] == text;
    forall j | 1 <= j < q ensures !ClosesLabel(raw, j) {
      assert raw[j] == text[j - 1];
    }
    assert FirstClose(raw, q);
    assert raw[q + 2..] == scope + rest;
    assert raw[q + 1..q + 2] == " ";
    assert ScopeWordAt(raw, q, scope);
  }

  /** With no scope keyword after the label, the scope is EXACT. */
  lemma UnscopedSynonym(raw: string, text: string, gap: string, rest: string)
    requires raw == "\"" + text + "\"" + gap + rest
    requires forall i :: 0 <= i < |text| ==> text[i] != '"' && text[i] != '\n'
    requires gap != [] && AllSpace(gap)
    requires rest == [] || !IsSpace(rest[0])
    requires forall w :: w in Scopes ==> !StartsWith(rest, w)
    ensures ParseSynonymTag(raw) == SynonymTag(text, "EXACT", 0)
  {
    var q := |text| + 1;
    assert raw[q] == '"' && raw[q + 1] == gap[0];
    assert raw[1..q] == text;
    forall j | 1 <= j < q ensures !ClosesLabel(raw, j) {
      assert raw[j] == text[j - 1];
    }
    assert FirstClose(raw, q);
    var m := q + 1 + |gap|;
    assert raw[q + 1..m] == gap && raw[m..] == rest;
    forall w | w in Scopes ensures !ScopeWordAt(raw, q, w) {
      if ScopeWordAt(raw, q, w) {
        var m' :| q + 1 < m' <= |raw| && AllSpace(raw[q + 1..m'])
                  && (m' < |raw| ==> !IsSpace(raw[m'])) && StartsWith(raw[m'..], w);
        WhitespaceRunUnique(raw, q + 1, m, m');
      }
    }
  }

  /** A value that does not open with a quoted label followed by whitespace is
      kept whole as the label, with scope EXACT. */
  lemma UnquotedSynonym(raw: string)
    requires raw == [] || raw[0] != '"'
    ensures ParseSynonymTag(raw) == SynonymTag(raw, "EXACT", 0)
  {
    assert forall q :: !ClosesLabel(raw, q);
  }

  /** `synonym: "cell growth" NARROW []` gives the label `cell growth`, scope NARROW. */
  lemma CellGrowthNarrow()
    ensures ParseSynonymTag("\"cell growth\" NARROW []") == SynonymTag("cell growth", "NARROW", 0)
  {
    var text := "cell growth";
    forall i | 0 <= i < |text| ensures text[i] != '"' && text[i] != '\n' {
    }
    ScopedSynonym("\"cell growth\" NARROW []", text, "NARROW", " []");
  }
}
