/** The stanza parser: raw lines of a (simplified) OBO ontology file become one
    record per `[Term]` stanza, mapping each tag to its value or values. */
module Obo {
  import opened Wrappers
  import opened Strings
  import opened Seqs

  /** A tag's slot in a stanza record: the last value of a single-valued tag, or
      every value of a multi-valued tag in file order. */
  datatype TagValue = Scalar(value: string) | List(values: seq<string>)

  type Stanza = map<string, TagValue>

  /** The tags whose values accumulate in a list; every other tag keeps its last value. */
  const MultiTags: set<string> :=
    {"synonym", "is_a", "relationship", "alt_id", "consider", "replaced_by",
     "subset", "xref", "property_value"}

  /** `raw.rstrip("\n")` */
  function Chomp(raw: string): (line: string)
    ensures |line| <= |raw| && line == raw[..|line|]
    ensures line != [] ==> line[|line| - 1] != '\n'
    ensures forall i :: |line| <= i < |raw| ==> raw[i] == '\n'
  {
    RStripChar(raw, '\n')
  }

  /** The comment pattern `\s+!.*$` matches in `v` from index `p`: a run of one or
      more whitespace characters, then `!`, then no newline up to the end. Python's
      `$` also matches just before a final newline, so that one may stand last. */
  ghost predicate CommentAt(v: string, p: int) {
    0 <= p < |v| &&
    exists k :: p < k < |v| && v[k] == '!'
                && (forall i :: p <= i < k ==> IsSpace(v[i]))
                && (forall i :: k < i < |v| - 1 ==> v[i] != '\n')
  }

  /** The executable test behind CommentAt: skip the whitespace run at `p`
      and look for `!`. */
  predicate CommentCheck(v: string, p: nat)
    requires p < |v|
  {
    var q := p + LeadingSpaces(v[p..]);
    IsSpace(v[p]) && q < |v| && v[q] == '!' && forall i | q < i < |v| - 1 :: v[i] != '\n'
  }

  lemma CommentCheckIsCommentAt(v: string, p: nat)
    requires p < |v|
    ensures CommentCheck(v, p) <==> CommentAt(v, p)
  {
    var q := p + LeadingSpaces(v[p..]);
    if CommentAt(v, p) {
      var k :| p < k < |v| && v[k] == '!'
                && (forall i :: p <= i < k ==> IsSpace(v[i]))
                && (forall i :: k < i < |v| - 1 ==> v[i] != '\n');
      assert !IsSpace(v[k]);
    }
  }

  function CommentFrom(v: string, p: nat): (n: nat)
    requires p <= |v|
    ensures p <= n <= |v|
    ensures n < |v| ==> CommentAt(v, n)
    ensures forall j :: p <= j < n ==> !CommentAt(v, j)
    decreases |v| - p
  {
    if p == |v| then p
    else
      CommentCheckIsCommentAt(v, p);
      if CommentCheck(v, p) then p else CommentFrom(v, p + 1)
  }

  /** Where `re.sub(r"\s+!.*$", "", v)` cuts `v`: the leftmost index at which the
      comment pattern matches, or `|v|` when it matches nowhere. */
  function CommentStart(v: string): (n: nat)
    ensures n <= |v|
    ensures n < |v| ==> CommentAt(v, n)
    ensures forall j :: 0 <= j < n ==> !CommentAt(v, j)
  {
    CommentFrom(v, 0)
  }

  /** A comment may stand just before a final newline, where `$` also matches. */
  lemma CommentBeforeFinalNewline()
    ensures CommentStart("a !b\n") == 1 && ExtractValue("a !b\n") == "a"
  {
    var v := "a !b\n";
    assert !IsSpace(v[0]);
    assert CommentFrom(v, 0) == CommentFrom(v, 1);
    assert LeadingSpaces(v[1..]) == 1 by { assert IsSpace(v[1]) && !IsSpace(v[2]); }
    assert CommentCheck(v, 1);
    assert v[..1] == "a" && Strip("a") == "a" by { assert !IsSpace('a'); }
  }

  /** The value stored for a tag: the comment cut off, then stripped. When the
      match stops before a final newline, that newline is whitespace the strip
      removes as well. */
  function ExtractValue(v: string): (r: string)
    ensures Stripped(r)
    ensures r == [] <==> AllSpace(v[..CommentStart(v)])
    ensures var i := LeadingSpaces(v[..CommentStart(v)]);
      i + |r| <= CommentStart(v) && OccursAt(v, r, i)
      && AllSpace(v[i + |r|..CommentStart(v)])
  {
    var c := CommentStart(v);
    assert v[..c] == v[0..c];
    StripSliceAt(v, 0, c, v[..c], LeadingSpaces(v[..c]), Strip(v[..c]));
    StripSliceRest(v, 0, c, v[..c], LeadingSpaces(v[..c]), Strip(v[..c]));
    Strip(v[..c])
  }

  /** What one input line is, tested in the order the parser tests it. */
  datatype Line = TermHeader | OtherHeader | TagLine(tag: string, value: string) | Skipped

  function ClassifyLine(raw: string): Line {
    var line := Chomp(raw);
    if StartsWith(line, "[Term]") then TermHeader
    else if StartsWith(line, "[") && EndsWith(line, "]") then OtherHeader
    else match IndexOf(line, ": ")
      case None => Skipped
      case Some(i) => TagLine(line[..i], ExtractValue(line[i + 2..]))
  }

  /** The tests of the parser in order: `[Term]`, then any bracketed header, then a
      tag line split at the first `": "`; any other line is skipped. */
  lemma ClassifyLineCases(raw: string)
    ensures ClassifyLine(raw).TermHeader? <==> StartsWith(Chomp(raw), "[Term]")
    ensures ClassifyLine(raw).OtherHeader? <==>
      !StartsWith(Chomp(raw), "[Term]") && StartsWith(Chomp(raw), "[") && EndsWith(Chomp(raw), "]")
    ensures ClassifyLine(raw).TagLine? ==>
      var line, tag := Chomp(raw), ClassifyLine(raw).tag;
      OccursAt(line, ": ", |tag|) && tag == line[..|tag|]
      && (forall j :: 0 <= j < |tag| ==> !OccursAt(line, ": ", j))
      && ClassifyLine(raw).value == ExtractValue(line[|tag| + 2..])
    ensures ClassifyLine(raw).Skipped? <==>
      !StartsWith(Chomp(raw), "[Term]") && !(StartsWith(Chomp(raw), "[") && EndsWith(Chomp(raw), "]"))
      && forall j :: 0 <= j <= |Chomp(raw)| ==> !OccursAt(Chomp(raw), ": ", j)
  {
  }

  predicate IsHeader(raw: string) {
    ClassifyLine(raw).TermHeader? || ClassifyLine(raw).OtherHeader?
  }

  /** The values of a multi-valued slot (`stanza.get(tag, [])`). */
  function ListOf(s: Stanza, tag: string): seq<string> {
    if tag in s && s[tag].List? then s[tag].values else []
  }

  /** The effect of one line inside an open stanza. */
  function Store(s: Stanza, raw: string): Stanza {
    match ClassifyLine(raw)
    case TagLine(t, v) =>
      if t in MultiTags then s[t := List(ListOf(s, t) + [v])] else s[t := Scalar(v)]
    case _ => s
  }

  /** Storing a line touches only the line's tag, and the tag is then present. */
  lemma StoreFrame(s: Stanza, raw: string)
    ensures ClassifyLine(raw).TagLine? ==> ClassifyLine(raw).tag in Store(s, raw)
    ensures forall k :: !(ClassifyLine(raw).TagLine? && k == ClassifyLine(raw).tag) ==>
      (k in Store(s, raw) <==> k in s) && (k in s ==> Store(s, raw)[k] == s[k])
  {
  }

  /** The effect of a stanza body on the open record `s`, line by line. */
  function Absorb(s: Stanza, body: seq<string>): Stanza
    decreases |body|
  {
    if body == [] then s else Absorb(Store(s, body[0]), body[1..])
  }

  /** Number of lines at the front of `rest` before the next header line. */
  function BodyLength(rest: seq<string>): (n: nat)
    ensures n <= |rest|
    ensures forall i :: 0 <= i < n ==> !IsHeader(rest[i])
    ensures n < |rest| ==> IsHeader(rest[n])
  {
    if rest == [] || IsHeader(rest[0]) then 0 else 1 + BodyLength(rest[1..])
  }

  /** The records of a file, by blocks: each `[Term]` line and the lines after it
      up to the next header (or the end) make one record; every line outside such
      a block is dropped. */
  function Records(lines: seq<string>): (r: seq<Stanza>)
    ensures |r| <= |lines|
    decreases |lines|, 0
  {
    if lines == [] then []
    else if ClassifyLine(lines[0]).TermHeader? then FromOpen(map[], lines[1..])
    else Records(lines[1..])
  }

  /** The records of `rest` when the record `s` is open at its start. */
  function FromOpen(s: Stanza, rest: seq<string>): (r: seq<Stanza>)
    ensures 1 <= |r| <= |rest| + 1
    decreases |rest|, 1
  {
    var n := BodyLength(rest);
    [Absorb(s, rest[..n])] + Records(rest[n..])
  }

  /** The records still to come from `rest` when the parser holds `open`. */
  function Pending(open: Option<Stanza>, rest: seq<string>): seq<Stanza> {
    match open
    case None => Records(rest)
    case Some(s) => FromOpen(s, rest)
  }

  /** The records the open stanza `open` contributes when it is flushed. */
  function Flush(open: Option<Stanza>): seq<Stanza> {
    if open.Some? then [open.value] else []
  }

  lemma PendingAtTermHeader(open: Option<Stanza>, rest: seq<string>)
    requires rest != [] && ClassifyLine(rest[0]).TermHeader?
    ensures Pending(open, rest) == Flush(open) + Pending(Some(map[]), rest[1..])
  {
    assert Records(rest) == FromOpen(map[], rest[1..]);
    if open.Some? {
      assert BodyLength(rest) == 0;
      assert rest[..0] == [] && rest[0..] == rest;
      assert FromOpen(open.value, rest) == [Absorb(open.value, [])] + Records(rest);
    }
  }

  lemma PendingAtOtherHeader(open: Option<Stanza>, rest: seq<string>)
    requires rest != [] && ClassifyLine(rest[0]).OtherHeader?
    ensures Pending(open, rest) == Flush(open) + Pending(None, rest[1..])
  {
    assert Records(rest) == Records(rest[1..]);
    if open.Some? {
      assert BodyLength(rest) == 0;
      assert rest[..0] == [] && rest[0..] == rest;
      assert FromOpen(open.value, rest) == [Absorb(open.value, [])] + Records(rest);
    }
  }

  lemma PendingInBody(open: Option<Stanza>, rest: seq<string>)
    requires rest != [] && !IsHeader(rest[0])
    ensures Pending(open, rest)
         == Pending(if open.Some? then Some(Store(open.value, rest[0])) else None, rest[1..])
  {
    if open.Some? {
      var n := BodyLength(rest);
      assert n == 1 + BodyLength(rest[1..]);
      assert rest[..n][1..] == rest[1..][..n - 1];
      assert rest[n..] == rest[1..][n - 1..];
    }
  }

  /** The stanza left open after the line `raw`, when `open` was open before it. */
  function NextOpen(open: Option<Stanza>, raw: string): Option<Stanza> {
    match ClassifyLine(raw)
    case TermHeader => Some(map[])
    case OtherHeader => None
    case _ => if open.Some? then Some(Store(open.value, raw)) else None
  }

  /** The records the line `raw` flushes: a header line flushes the open stanza. */
  function Flushed(open: Option<Stanza>, raw: string): seq<Stanza> {
    if IsHeader(raw) then Flush(open) else []
  }

  lemma PendingStep(open: Option<Stanza>, rest: seq<string>)
    requires rest != []
    ensures Pending(open, rest) == Flushed(open, rest[0]) + Pending(NextOpen(open, rest[0]), rest[1..])
  {
    match ClassifyLine(rest[0])
    case TermHeader => PendingAtTermHeader(open, rest);
    case OtherHeader => PendingAtOtherHeader(open, rest);
    case _ => PendingInBody(open, rest);
  }

  /** One turn of the parser's loop over the line `raw`. */
  method ReadLine(stanza: Option<Stanza>, raw: string) returns (flushed: seq<Stanza>, next: Option<Stanza>)
    ensures flushed == Flushed(stanza, raw)
    ensures next == NextOpen(stanza, raw)
  {
    flushed, next := [], stanza;
    var line := Chomp(raw);
    if StartsWith(line, "[Term]") {
      assert ClassifyLine(raw) == TermHeader;
      if stanza.Some? {
        flushed := [stanza.value];
      }
      next := Some(map[]);
    } else if StartsWith(line, "[") && EndsWith(line, "]") {
      assert ClassifyLine(raw) == OtherHeader;
      if stanza.Some? {
        flushed := [stanza.value];
      }
      next := None;
    } else if stanza.Some? && IndexOf(line, ": ").Some? {
      var cut := IndexOf(line, ": ").value;
      var tag, value := line[..cut], line[cut + 2..];
      value := ExtractValue(value);
      assert ClassifyLine(raw) == TagLine(tag, value);
      if tag in MultiTags {
        next := Some(stanza.value[tag := List(ListOf(stanza.value, tag) + [value])]);
      } else {
        next := Some(stanza.value[tag := Scalar(value)]);
      }
    } else {
      assert !IsHeader(raw);
      assert stanza.Some? ==> ClassifyLine(raw) == Skipped;
    }
  }

  /** One turn of the loop keeps what is read plus what is pending equal to the records. */
  lemma ReadStep(lines: seq<string>, i: nat, records: seq<Stanza>, open: Option<Stanza>,
                 flushed: seq<Stanza>, next: Option<Stanza>)
    requires i < |lines|
    requires records + Pending(open, lines[i..]) == Records(lines)
    requires flushed == Flushed(open, lines[i]) && next == NextOpen(open, lines[i])
    ensures (records + flushed) + Pending(next, lines[i + 1..]) == Records(lines)
  {
    var rest := lines[i..];
    assert rest[0] == lines[i] && rest[1..] == lines[i + 1..];
    PendingStep(open, rest);
    Regroup(records, flushed, Pending(next, lines[i + 1..]), Pending(open, rest), Records(lines));
  }

  /** At the end of input only the open stanza is pending. */
  lemma ReadEnd(lines: seq<string>, records: seq<Stanza>, open: Option<Stanza>)
    requires records + Pending(open, lines[|lines|..]) == Records(lines)
    ensures records + Flush(open) == Records(lines)
  {
    assert lines[|lines|..] == [];
    if open.Some? {
      assert FromOpen(open.value, []) == [open.value];
    }
  }

  /** The parser: one pass over the lines, holding the open stanza, if any;
      end of input flushes the stanza still open. */
  method ParseObo(lines: seq<string>) returns (records: seq<Stanza>)
    ensures records == Records(lines)
  {
    records := [];
    var stanza: Option<Stanza> := None;
    var i := 0;
    while i < |lines|
      invariant 0 <= i <= |lines|
      invariant records + Pending(stanza, lines[i..]) == Records(lines)
    {
      var flushed, next := ReadLine(stanza, lines[i]);
      ReadStep(lines, i, records, stanza, flushed, next);
      records, stanza := records + flushed, next;
      i := i + 1;
    }
    ReadEnd(lines, records, stanza);
    if stanza.Some? {
      records := records + [stanza.value];
    }
  }

  // ---------------------------------------------------------------------------
  // What a record holds
  // ---------------------------------------------------------------------------

  /** The values the lines of `body` give the tag `t`, in file order. */
  function TagValues(body: seq<string>, t: string): seq<string>
    decreases |body|
  {
    if body == [] then [] else LineValues(body[0], t) + TagValues(body[1..], t)
  }

  /** The value the line `raw` gives the tag `t`, if any. */
  function LineValues(raw: string, t: string): seq<string> {
    match ClassifyLine(raw)
    case TagLine(tag, v) => if tag == t then [v] else []
    case _ => []
  }

  lemma StoreMultiTag(s: Stanza, raw: string, t: string)
    requires t in MultiTags
    requires t in s ==> s[t].List?
    ensures ListOf(Store(s, raw), t) == ListOf(s, t) + LineValues(raw, t)
    ensures t in Store(s, raw) <==> (t in s || LineValues(raw, t) != [])
    ensures t in Store(s, raw) ==> Store(s, raw)[t].List?
  {
  }

  lemma StoreSingleTag(s: Stanza, raw: string, t: string)
    requires t !in MultiTags
    ensures LineValues(raw, t) != [] ==>
      t in Store(s, raw) && Store(s, raw)[t] == Scalar(LineValues(raw, t)[0])
    ensures LineValues(raw, t) == [] ==>
      (t in Store(s, raw) <==> t in s) && (t in s ==> Store(s, raw)[t] == s[t])
  {
  }

  function Last(s: seq<string>): string
    requires s != []
  {
    s[|s| - 1]
  }

  /** A multi-valued tag collects every value the body gives it, appended in order
      to what the open record already held. */
  lemma {:induction false} AbsorbMultiTag(s: Stanza, body: seq<string>, t: string)
    requires t in MultiTags
    requires t in s ==> s[t].List?
    ensures ListOf(Absorb(s, body), t) == ListOf(s, t) + TagValues(body, t)
    ensures t in Absorb(s, body) <==> (t in s || TagValues(body, t) != [])
    ensures t in Absorb(s, body) ==> Absorb(s, body)[t].List?
    decreases |body|
  {
    if body != [] {
      var next := Store(s, body[0]);
      StoreMultiTag(s, body[0], t);
      AbsorbMultiTag(next, body[1..], t);
      Assoc(ListOf(s, t), LineValues(body[0], t), TagValues(body[1..], t));
    }
  }

  /** A single-valued tag ends with the last value the body gives it, or keeps
      what the open record held when the body gives it none. */
  lemma {:induction false} AbsorbSingleTag(s: Stanza, body: seq<string>, t: string)
    requires t !in MultiTags
    ensures TagValues(body, t) != [] ==>
      t in Absorb(s, body) && Absorb(s, body)[t] == Scalar(Last(TagValues(body, t)))
    ensures TagValues(body, t) == [] ==>
      (t in Absorb(s, body) <==> t in s) && (t in s ==> Absorb(s, body)[t] == s[t])
    decreases |body|
  {
    if body != [] {
      var next := Store(s, body[0]);
      StoreSingleTag(s, body[0], t);
      AbsorbSingleTag(next, body[1..], t);
      LastTagValue(body, t, LineValues(body[0], t), TagValues(body[1..], t));
    }
  }

  /** The last value of a tag in `body` is its last value after the first line,
      or else the first line's own value. */
  lemma LastTagValue(body: seq<string>, t: string, here: seq<string>, rest: seq<string>)
    requires body != [] && here == LineValues(body[0], t) && rest == TagValues(body[1..], t)
    ensures TagValues(body, t) == here + rest
    ensures rest != [] ==> Last(TagValues(body, t)) == Last(rest)
    ensures rest == [] && here != [] ==> Last(TagValues(body, t)) == here[0]
  {
    assert |here| <= 1;
  }

  /** In a record built from `body`, a multi-valued tag seen N times holds exactly
      those N values in file order, and is absent when never seen. */
  lemma RecordMultiTag(body: seq<string>, t: string)
    requires t in MultiTags
    ensures t in Absorb(map[], body) <==> TagValues(body, t) != []
    ensures t in Absorb(map[], body) ==> Absorb(map[], body)[t] == List(TagValues(body, t))
  {
    AbsorbMultiTag(map[], body, t);
  }

  /** In a record built from `body`, a single-valued tag holds its last value. */
  lemma RecordSingleTag(body: seq<string>, t: string)
    requires t !in MultiTags
    ensures t in Absorb(map[], body) <==> TagValues(body, t) != []
    ensures t in Absorb(map[], body) ==> Absorb(map[], body)[t] == Scalar(Last(TagValues(body, t)))
  {
    AbsorbSingleTag(map[], body, t);
  }

  // ---------------------------------------------------------------------------
  // Stanza boundaries
  // ---------------------------------------------------------------------------

  function CountTermHeaders(lines: seq<string>): nat
    decreases |lines|
  {
    if lines == [] then 0
    else (if ClassifyLine(lines[0]).TermHeader? then 1 else 0) + CountTermHeaders(lines[1..])
  }

  lemma {:induction false} CountSkipsBody(rest: seq<string>, n: nat)
    requires n <= |rest|
    requires forall i :: 0 <= i < n ==> !IsHeader(rest[i])
    ensures CountTermHeaders(rest) == CountTermHeaders(rest[n..])
    decreases n
  {
    if n > 0 {
      assert rest[1..][n - 1..] == rest[n..];
      CountSkipsBody(rest[1..], n - 1);
    }
  }

  /** One record per `[Term]` line. */
  lemma {:induction false} RecordCount(lines: seq<string>)
    ensures |Records(lines)| == CountTermHeaders(lines)
    decreases |lines|, 0
  {
    if lines != [] {
      if ClassifyLine(lines[0]).TermHeader? {
        FromOpenCount(map[], lines[1..]);
      } else {
        RecordCount(lines[1..]);
      }
    }
  }

  lemma {:induction false} FromOpenCount(s: Stanza, rest: seq<string>)
    ensures |FromOpen(s, rest)| == 1 + CountTermHeaders(rest)
    decreases |rest|, 1
  {
    var n := BodyLength(rest);
    CountSkipsBody(rest, n);
    RecordCount(rest[n..]);
  }

  lemma {:induction false} BodyLengthAppend(a: seq<string>, b: seq<string>)
    requires b == [] || IsHeader(b[0])
    ensures BodyLength(a + b) == BodyLength(a)
    decreases |a|
  {
    if a == [] {
      assert a + b == b;
    } else {
      assert (a + b)[0] == a[0] && (a + b)[1..] == a[1..] + b;
      BodyLengthAppend(a[1..], b);
    }
  }

  /** Lines split at a header line parse independently. */
  lemma {:induction false} RecordsAppend(a: seq<string>, b: seq<string>)
    requires b == [] || IsHeader(b[0])
    ensures Records(a + b) == Records(a) + Records(b)
    decreases |a|, 0
  {
    if a == [] {
      assert a + b == b;
    } else {
      assert (a + b)[0] == a[0] && (a + b)[1..] == a[1..] + b;
      if ClassifyLine(a[0]).TermHeader? {
        FromOpenAppend(map[], a[1..], b);
      } else {
        RecordsAppend(a[1..], b);
      }
    }
  }

  lemma {:induction false} FromOpenAppend(s: Stanza, a: seq<string>, b: seq<string>)
    requires b == [] || IsHeader(b[0])
    ensures FromOpen(s, a + b) == FromOpen(s, a) + Records(b)
    decreases |a|, 1
  {
    var n := BodyLength(a);
    BodyLengthAppend(a, b);
    FromOpenCut(s, a, b, n);
    RecordsAppend(a[n..], b);
    Assoc([Absorb(s, a[..n])], Records(a[n..]), Records(b));
  }

  /** When the body of `a` is also the body of `a + b`, the open record absorbs
      the same lines and the rest after it is `a`'s rest followed by `b`. */
  lemma FromOpenCut(s: Stanza, a: seq<string>, b: seq<string>, n: nat)
    requires n == BodyLength(a) && n == BodyLength(a + b)
    ensures FromOpen(s, a + b) == [Absorb(s, a[..n])] + Records(a[n..] + b)
  {
    assert (a + b)[..n] == a[..n];
    assert (a + b)[n..] == a[n..] + b;
  }

  lemma RecordsAtHeader(header: string, rest: seq<string>)
    requires IsHeader(header)
    ensures ClassifyLine(header).TermHeader? ==> Records([header] + rest) == FromOpen(map[], rest)
    ensures ClassifyLine(header).OtherHeader? ==> Records([header] + rest) == Records(rest)
  {
    assert ([header] + rest)[0] == header && ([header] + rest)[1..] == rest;
  }

  lemma FromOpenWholeBody(s: Stanza, body: seq<string>)
    requires forall i :: 0 <= i < |body| ==> !IsHeader(body[i])
    ensures FromOpen(s, body) == [Absorb(s, body)]
  {
    assert BodyLength(body) == |body|;
    assert body[..|body|] == body && body[|body|..] == [];
  }

  lemma RecordsAroundBlock(pre: seq<string>, header: string, body: seq<string>, post: seq<string>)
    requires ClassifyLine(header).TermHeader?
    requires forall i :: 0 <= i < |body| ==> !IsHeader(body[i])
    requires post == [] || IsHeader(post[0])
    ensures Records(pre + ([header] + (body + post)))
         == Records(pre) + [Absorb(map[], body)] + Records(post)
  {
    RecordsAppend(pre, [header] + (body + post));
    RecordsAtHeader(header, body + post);
    FromOpenAppend(map[], body, post);
    FromOpenWholeBody(map[], body);
    Assoc(Records(pre), [Absorb(map[], body)], Records(post));
  }

  /** The record of a `[Term]` block: the k-th record is what the body after the
      k-th `[Term]` line makes of an empty record, where the body runs up to the
      next header line or the end of input. */
  lemma BlockRecord(lines: seq<string>, pre: seq<string>, header: string,
                    body: seq<string>, post: seq<string>)
    requires lines == pre + [header] + body + post
    requires ClassifyLine(header).TermHeader?
    requires forall i :: 0 <= i < |body| ==> !IsHeader(body[i])
    requires post == [] || IsHeader(post[0])
    ensures CountTermHeaders(pre) < |Records(lines)|
    ensures Records(lines)[CountTermHeaders(pre)] == Absorb(map[], body)
  {
    Assoc(pre + [header], body, post);
    Assoc(pre, [header], body + post);
    RecordsAroundBlock(pre, header, body, post);
    RecordCount(pre);
    SpliceIndex(Records(pre), Absorb(map[], body), Records(post));
  }

  /** Lines that are not `[Term]` headers, with no stanza open, change nothing. */
  lemma {:induction false} SkipOutsideStanza(junk: seq<string>, post: seq<string>)
    requires forall i :: 0 <= i < |junk| ==> !ClassifyLine(junk[i]).TermHeader?
    ensures Records(junk + post) == Records(post)
    decreases |junk|
  {
    if junk == [] {
      assert junk + post == post;
    } else {
      assert (junk + post)[0] == junk[0] && (junk + post)[1..] == junk[1..] + post;
      SkipOutsideStanza(junk[1..], post);
    }
  }

  /** A header other than `[Term]` (such as `[Typedef]`) closes the open stanza and
      opens nothing: it and the lines after it up to the next `[Term]` produce no
      record. */
  lemma OtherBlockDropped(lines: seq<string>, pre: seq<string>, header: string,
                          junk: seq<string>, post: seq<string>)
    requires lines == pre + [header] + junk + post
    requires ClassifyLine(header).OtherHeader?
    requires forall i :: 0 <= i < |junk| ==> !ClassifyLine(junk[i]).TermHeader?
    ensures Records(lines) == Records(pre) + Records(post)
  {
    var block := [header] + (junk + post);
    Assoc(pre + [header], junk, post);
    Assoc(pre, [header], junk + post);
    RecordsAppend(pre, block);
    RecordsAtHeader(header, junk + post);
    SkipOutsideStanza(junk, post);
  }
}
