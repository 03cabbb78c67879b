/** The transaction reader: it pulls raw varnishlog lines from a source and
    assembles one transaction per call. The source is the sequence `input`
    and a cursor into it; each call returns the cursor just past the last
    line it consumed, so the next call resumes there. */
module Transactions {
  import opened Errors
  import opened Strings
  import opened Lines
  import opened References

  /** A single unit of Varnish work. */
  datatype Transaction = Transaction(VXID: nat, Begin: Reference, Lines: seq<Line>)

  /** The zero Transaction every read starts from. */
  const Empty := Transaction(0, NoReference, [])

  // ---------------------------------------------------------------------------
  // What one raw line means to the reader

  /** A raw line after trimming: blank, a `*` boundary line with the id in
      its last space-separated field, or a content line. */
  datatype Kind = Blank | Boundary(vxid: Option<nat>) | Content(line: Result<Line>)

  /** A line of whitespace only. */
  predicate IsBlank(raw: string) {
    forall k :: 0 <= k < |raw| ==> IsAsciiSpace(raw[k])
  }

  /** The reader trims each raw line: a line of whitespace only is blank, a
      line whose first other character is `*` is a boundary line, with the id
      in its last field, and every other line is a content line. */
  function Classify(raw: string): (k: Kind)
    ensures k.Boundary? <==> LeadsWith(raw, '*')
  {
    var s := TrimSpace(raw);
    TrimSpaceLeads(raw, '*');
    if s == [] then Blank
    else if s[0] == '*' then
      var p := Split(s, ' ');
      Boundary(ParseUint(p[|p| - 1]))
    else Content(ParseLine(s))
  }

  /** A line is blank to the reader exactly when it is whitespace only. */
  lemma ClassifyBlank(raw: string)
    ensures Classify(raw) == Blank <==> IsBlank(raw)
  {
    TrimSpaceEmpty(raw);
  }

  /** Whether reading a line lets the read go on, or stops it with the given
      error (`None`: the transaction is complete). */
  datatype Effect = Proceed | Stop(err: Option<Error>)

  /** A bad boundary or content line stops the read with an error, as does a
      `Begin` line whose value is not a reference; an `End` line completes it. */
  function EffectOfKind(k: Kind): (e: Effect)
    ensures e != Stop(Some(EOF))
  {
    match k
    case Blank => Proceed
    case Boundary(vxid) => if vxid.Some? then Proceed else Stop(Some(MalformedBoundary))
    case Content(Err(_)) => Stop(Some(MalformedLine))
    case Content(Ok(l)) =>
      if l.Tag == "Begin" && ParseReference(l.Value).Err? then Stop(Some(MalformedReference))
      else if l.Tag == "End" then Stop(None)
      else Proceed
  }

  /** The effect of reading the raw line `raw`: it completes the read
      exactly when it is an `End` content line. */
  function EffectOf(raw: string): (e: Effect)
    ensures e == Stop(None) <==> EndLine(raw)
  {
    EffectOfKind(Classify(raw))
  }

  /** What reading one more line of kind `k` does to the transaction `t`:
      a boundary sets the id, a content line is appended, and a `Begin` line
      with a well-formed value also sets the reference. */
  function Apply(t: Transaction, k: Kind): (r: Transaction)
    ensures t.Lines <= r.Lines && |r.Lines| <= |t.Lines| + 1
    ensures k == Blank ==> r == t
    ensures k.Boundary? ==> r.Lines == t.Lines && r.Begin == t.Begin
    ensures !k.Boundary? ==> r.VXID == t.VXID
    ensures r.Begin != t.Begin ==> k.Content? && k.line.Ok? && k.line.value.Tag == "Begin"
  {
    match k
    case Boundary(Some(v)) => t.(VXID := v)
    case Content(Ok(l)) =>
      var ref := ParseReference(l.Value);
      t.(Lines := t.Lines + [l], Begin := if l.Tag == "Begin" && ref.Ok? then ref.value else t.Begin)
    case _ => t
  }

  // ---------------------------------------------------------------------------
  // What a read accumulates from the lines input[lo..hi] it consumed

  /** No line of input[lo..hi] stops a read. */
  predicate Continues(input: seq<string>, lo: nat, hi: nat)
    requires lo <= hi <= |input|
  {
    forall k :: lo <= k < hi ==> EffectOf(input[k]) == Proceed
  }

  /** The parsed content lines of input[lo..hi], in order. */
  function Entries(input: seq<string>, lo: nat, hi: nat): seq<Line>
    requires lo <= hi <= |input|
    decreases hi
  {
    if hi == lo then []
    else
      var parsed := match Classify(input[hi - 1]) case Content(Ok(l)) => [l] case _ => [];
      Entries(input, lo, hi - 1) + parsed
  }

  /** The id of the last well-formed boundary line of input[lo..hi], or 0. */
  function LastVxid(input: seq<string>, lo: nat, hi: nat): nat
    requires lo <= hi <= |input|
    decreases hi
  {
    if hi == lo then 0
    else match Classify(input[hi - 1])
      case Boundary(Some(v)) => v
      case _ => LastVxid(input, lo, hi - 1)
  }

  /** The reference a raw line sets: that of a `Begin` content line whose
      value parses, and none for every other line. */
  function BeginRef(raw: string): Option<Reference> {
    match Classify(raw)
    case Content(Ok(l)) =>
      if l.Tag == "Begin" && ParseReference(l.Value).Ok? then Some(ParseReference(l.Value).value) else None
    case _ => None
  }

  /** The reference of the last `Begin` line of input[lo..hi] whose value
      parses, or the zero Reference. */
  function LastBegin(input: seq<string>, lo: nat, hi: nat): Reference
    requires lo <= hi <= |input|
    decreases hi
  {
    if hi == lo then NoReference
    else match BeginRef(input[hi - 1])
      case Some(ref) => ref
      case None => LastBegin(input, lo, hi - 1)
  }

  /** The transaction a read holds after consuming input[lo..hi]. */
  function Accumulated(input: seq<string>, lo: nat, hi: nat): Transaction
    requires lo <= hi <= |input|
  {
    Transaction(LastVxid(input, lo, hi), LastBegin(input, lo, hi), Entries(input, lo, hi))
  }

  /** Consuming one more line applies that line to what was accumulated. */
  lemma AccumulatedStep(input: seq<string>, lo: nat, hi: nat)
    requires lo <= hi < |input|
    ensures Accumulated(input, lo, hi + 1) == Apply(Accumulated(input, lo, hi), Classify(input[hi]))
  {
  }

  /** The read of input[lo..hi] went on until its last line, which stopped
      it with `err`. */
  predicate StoppedAt(input: seq<string>, lo: nat, hi: nat, err: Option<Error>)
    requires lo <= hi <= |input|
  {
    lo < hi && Continues(input, lo, hi - 1) && EffectOf(input[hi - 1]) == Stop(err)
  }

  /** Reading line `hi` after a read that went on through input[lo..hi]
      either goes on through input[lo..hi + 1] or stops there. */
  lemma Advance(input: seq<string>, lo: nat, hi: nat, t: Transaction)
    requires lo <= hi < |input|
    requires Continues(input, lo, hi) && t == Accumulated(input, lo, hi)
    ensures Apply(t, Classify(input[hi])) == Accumulated(input, lo, hi + 1)
    ensures EffectOf(input[hi]) == Proceed ==> Continues(input, lo, hi + 1)
    ensures EffectOf(input[hi]).Stop? ==> StoppedAt(input, lo, hi + 1, EffectOf(input[hi]).err)
  {
    AccumulatedStep(input, lo, hi);
  }

  /** An `End` content line is exactly the line that completes a read. */
  predicate EndLine(raw: string) {
    var k := Classify(raw);
    k.Content? && k.line.Ok? && k.line.value.Tag == "End"
  }

  /** A completed read ends with the `End` line that completed it, and no
      earlier line of it is an `End` line. */
  lemma CompletedRead(input: seq<string>, lo: nat, hi: nat)
    requires lo <= hi <= |input| && StoppedAt(input, lo, hi, None)
    ensures EndLine(input[hi - 1])
    ensures forall k :: lo <= k < hi - 1 ==> !EndLine(input[k])
    ensures var lines := Accumulated(input, lo, hi).Lines;
      |lines| > 0 && lines[|lines| - 1] == Classify(input[hi - 1]).line.value && lines[|lines| - 1].Tag == "End"
  {
    assert forall k :: lo <= k < hi - 1 ==> EffectOf(input[k]) == Proceed;
    AccumulatedStep(input, lo, hi - 1);
  }

  /** A read stopped by an error keeps what it accumulated before the
      offending line, except that a `Begin` line whose value is not a
      reference has already been appended. */
  lemma AbortedRead(input: seq<string>, lo: nat, hi: nat, e: Error)
    requires lo <= hi <= |input| && StoppedAt(input, lo, hi, Some(e))
    ensures e != EOF
    ensures e == MalformedBoundary ==> Classify(input[hi - 1]).Boundary?
    ensures e == MalformedLine ==> Classify(input[hi - 1]).Content?
    ensures e == MalformedBoundary || e == MalformedLine ==> Accumulated(input, lo, hi) == Accumulated(input, lo, hi - 1)
    ensures e == MalformedReference ==>
      var k := Classify(input[hi - 1]);
      k.Content? && k.line.Ok? && k.line.value.Tag == "Begin" &&
      Accumulated(input, lo, hi) == Accumulated(input, lo, hi - 1).(Lines := Entries(input, lo, hi - 1) + [k.line.value])
  {
    AccumulatedStep(input, lo, hi - 1);
  }

  // ---------------------------------------------------------------------------
  // The reader

  /** One pass of the reader's loop: read the raw line `raw` into `t`. Blank
      lines are skipped; a `*` line sets the id from its last space-separated
      field; every other line is parsed and appended, a `Begin` line also
      sets the reference and an `End` line ends the read. The effect says
      whether the read goes on. */
  method ReadLine(t: Transaction, raw: string) returns (u: Transaction, effect: Effect)
    ensures u == Apply(t, Classify(raw))
    ensures effect == EffectOf(raw)
  {
    u := t;
    effect := Proceed;
    var line := TrimSpace(raw);
    if line == [] {
      // blank lines are skipped
    } else if line[0] == '*' {
      // a boundary line starts a transaction
      var p := Split(line, ' ');
      var vxid := ParseUint(p[|p| - 1]);
      if vxid.None? {
        effect := Stop(Some(MalformedBoundary));
        return;
      }
      u := u.(VXID := vxid.value);
    } else {
      var l := ParseLine(line);
      if l.Err? {
        effect := Stop(Some(MalformedLine));
        return;
      }
      u := u.(Lines := u.Lines + [l.value]);
      if l.value.Tag == "Begin" {
        var ref := ParseReference(l.value.Value);
        if ref.Err? {
          effect := Stop(Some(MalformedReference));
          return;
        }
        u := u.(Begin := ref.value);
      } else if l.value.Tag == "End" {
        effect := Stop(None);
      }
    }
  }

  /** The reader as a function of its source: starting from `t` at line `i`,
      read lines until one stops the read or the input runs out. The result
      is the transaction, the error (`None` for a complete transaction) and
      the position just past the last line consumed. */
  function ReadFrom(input: seq<string>, i: nat, t: Transaction): (r: (Transaction, Option<Error>, nat))
    requires i <= |input|
    ensures i <= r.2 <= |input|
    decreases |input| - i
  {
    if i == |input| then (t, Some(EOF), i)
    else
      var u := Apply(t, Classify(input[i]));
      match EffectOf(input[i])
      case Stop(err) => (u, err, i + 1)
      case Proceed => ReadFrom(input, i + 1, u)
  }

  /** A read that went on through input[lo..i] with transaction `t` ends
      with what input[lo..next] accumulates: at the end of the input with
      EOF when no line stopped it, or just after the line that stopped it. */
  lemma {:induction false} ReadFromSpec(input: seq<string>, lo: nat, i: nat, t: Transaction)
    requires lo <= i <= |input|
    requires Continues(input, lo, i) && t == Accumulated(input, lo, i)
    ensures var (u, err, next) := ReadFrom(input, i, t);
      i <= next <= |input| && u == Accumulated(input, lo, next) &&
      (err == Some(EOF) ==> next == |input| && Continues(input, lo, next)) &&
      (err != Some(EOF) ==> StoppedAt(input, lo, next, err))
    decreases |input| - i
  {
    if i < |input| {
      Advance(input, lo, i, t);
      if EffectOf(input[i]) == Proceed {
        ReadFromSpec(input, lo, i + 1, Apply(t, Classify(input[i])));
      }
    }
  }

  /** The outcome of a read of input[start..next] that yields `t` and `err`:
      `t` is what the consumed lines accumulate; EOF comes only at the end of
      the input, with no line having stopped the read; any other outcome is
      that of the last consumed line, the first to stop the read; and a
      completed transaction ends with its `End` line. */
  predicate ReadOutcome(input: seq<string>, start: nat, t: Transaction, err: Option<Error>, next: nat) {
    start <= next <= |input| && t == Accumulated(input, start, next)
    && (err == Some(EOF) ==> next == |input| && Continues(input, start, next))
    && (err != Some(EOF) ==> StoppedAt(input, start, next, err))
    && (err == None ==> |t.Lines| > 0 && t.Lines[|t.Lines| - 1].Tag == "End")
  }

  /** A read from `start` with nothing accumulated has that outcome. */
  lemma ReadFromStart(input: seq<string>, start: nat)
    requires start <= |input|
    ensures var r := ReadFrom(input, start, Empty); ReadOutcome(input, start, r.0, r.1, r.2)
  {
    assert Accumulated(input, start, start) == Empty;
    ReadFromSpec(input, start, start, Empty);
    var (t, err, next) := ReadFrom(input, start, Empty);
    if err == None {
      CompletedRead(input, start, next);
    }
  }

  /** Read the next transaction from `input`, starting at `start`. The read
      stops just after the first line that stops it: an `End` line completes
      the transaction, a line that cannot be parsed aborts it with that
      error, and EOF is reported when the input runs out first. */
  method ParseTransaction(input: seq<string>, start: nat) returns (t: Transaction, err: Option<Error>, next: nat)
    requires start <= |input|
    ensures (t, err, next) == ReadFrom(input, start, Empty)
    ensures ReadOutcome(input, start, t, err, next)
  {
    ReadFromStart(input, start);
    t := Empty;
    var i := start;
    while i < |input|
      invariant start <= i <= |input|
      invariant ReadFrom(input, i, t) == ReadFrom(input, start, Empty)
    {
      var effect;
      t, effect := ReadLine(t, input[i]);
      if effect.Stop? {
        err, next := effect.err, i + 1;
        return;
      }
      i := i + 1;
    }
    err, next := Some(EOF), |input|;
  }

  // ---------------------------------------------------------------------------
  // Properties of successive reads and of what a read accumulates

  /** The entries of adjacent stretches of input concatenate. */
  lemma {:induction false} EntriesSplit(input: seq<string>, a: nat, b: nat, c: nat)
    requires a <= b <= c <= |input|
    ensures Entries(input, a, c) == Entries(input, a, b) + Entries(input, b, c)
    decreases c
  {
    if c > b {
      EntriesSplit(input, a, b, c - 1);
    }
  }

  /** Two successive reads: the second starts where the first stopped, and
      the lines of the two transactions are, in order, the entries of all
      the input both consumed; no line is lost or shared between them. */
  lemma SuccessiveReads(input: seq<string>, start: nat)
    requires start <= |input|
    ensures var first := ReadFrom(input, start, Empty);
      var second := ReadFrom(input, first.2, Empty);
      first.0.Lines + second.0.Lines == Entries(input, start, second.2)
  {
    assert Accumulated(input, start, start) == Empty;
    ReadFromSpec(input, start, start, Empty);
    var mid := ReadFrom(input, start, Empty).2;
    assert Accumulated(input, mid, mid) == Empty;
    ReadFromSpec(input, mid, mid, Empty);
    EntriesSplit(input, start, mid, ReadFrom(input, mid, Empty).2);
  }

  /** When the rest of the input is blank, the read changes nothing and
      reports EOF at the end of the input; from the zero transaction this
      yields the zero transaction. */
  lemma {:induction false} BlankRead(input: seq<string>, i: nat, t: Transaction)
    requires i <= |input|
    requires forall k :: i <= k < |input| ==> IsBlank(input[k])
    ensures ReadFrom(input, i, t) == (t, Some(EOF), |input|)
    decreases |input| - i
  {
    if i < |input| {
      ClassifyBlank(input[i]);
      BlankRead(input, i + 1, t);
    }
  }

  /** A boundary line sets the id and leaves the lines and the reference. */
  lemma BoundaryKeeps(input: seq<string>, lo: nat, hi: nat, v: nat)
    requires lo <= hi < |input| && Classify(input[hi]) == Boundary(Some(v))
    ensures Accumulated(input, lo, hi + 1) == Accumulated(input, lo, hi).(VXID := v)
  {
  }

  /** With no `Begin` line whose value parses, the reference stays zero. */
  lemma {:induction false} LastBeginNone(input: seq<string>, lo: nat, hi: nat)
    requires lo <= hi <= |input|
    requires forall k :: lo <= k < hi ==> BeginRef(input[k]).None?
    ensures LastBegin(input, lo, hi) == NoReference
    decreases hi
  {
    if hi > lo {
      LastBeginNone(input, lo, hi - 1);
    }
  }

  /** The last `Begin` line whose value parses decides the reference: it
      wins over every earlier one. */
  lemma {:induction false} LastBeginAt(input: seq<string>, lo: nat, hi: nat, k: nat)
    requires lo <= k < hi <= |input|
    requires BeginRef(input[k]).Some?
    requires forall j :: k < j < hi ==> BeginRef(input[j]).None?
    ensures LastBegin(input, lo, hi) == BeginRef(input[k]).value
    decreases hi
  {
    if hi - 1 > k {
      LastBeginAt(input, lo, hi - 1, k);
    }
  }
}
