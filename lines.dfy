/** One varnishlog content line: a tag and the value after it, and the
    scanner for the fixed pattern `^\-+\s+(\w+)\s*(.*)$` that reads it. */
module Lines {
  import opened Errors

  /** A tag and its value, as read from one content line. */
  datatype Line = Line(Tag: string, Value: string) {
    /** The tag, one space, then the value. Behind a `-` and a space this is
        a content line that ParseLine reads back, whenever the tag is a word
        and the value has no newline and does not start with whitespace. */
    function String(): (r: string)
      ensures |Tag| > 0 && (forall x :: 0 <= x < |Tag| ==> IsWord(Tag[x]))
        && '\n' !in Value && (Value == [] || !IsSpace(Value[0]))
        ==> ParseLine("- " + r) == Ok(this)
    {
      if |Tag| > 0 && (forall x :: 0 <= x < |Tag| ==> IsWord(Tag[x]))
        && '\n' !in Value && (Value == [] || !IsSpace(Value[0]))
      then
        PrintedParses(Tag, Value);
        Tag + " " + Value
      else Tag + " " + Value
    }
  }

  predicate IsDash(c: char) { c == '-' }

  /** `\s` of the regular expression syntax: tab, newline, form feed,
      carriage return and space (vertical tab is not one of them). */
  predicate IsSpace(c: char) {
    c == '\t' || c == '\n' || c == '\U{C}' || c == '\r' || c == ' '
  }

  /** `\w`: an ASCII letter, digit or underscore. */
  predicate IsWord(c: char) {
    ('0' <= c <= '9') || ('A' <= c <= 'Z') || ('a' <= c <= 'z') || c == '_'
  }

  /** The end of the longest run of characters satisfying `p` from index `i`. */
  function Span(s: string, i: nat, p: char -> bool): (e: nat)
    requires i <= |s|
    ensures i <= e <= |s|
    decreases |s| - i
  {
    if i < |s| && p(s[i]) then Span(s, i + 1, p) else i
  }

  /** Every character Span passes over satisfies `p`, and the one it stops at
      (if any) does not. */
  lemma {:induction false} SpanRun(s: string, i: nat, p: char -> bool)
    requires i <= |s|
    ensures forall x :: i <= x < Span(s, i, p) ==> p(s[x])
    ensures Span(s, i, p) == |s| || !p(s[Span(s, i, p)])
    decreases |s| - i
  {
    if i < |s| && p(s[i]) {
      SpanRun(s, i + 1, p);
    }
  }

  /** Match `s` against `^\-+\s+(\w+)\s*(.*)$`. Every quantifier of the pattern
      is greedy, so the tag is the longest run of word characters and the
      value starts after the longest run of whitespace that follows it; the
      whole of `s` must be matched, and `.` does not match a newline. */
  function ParseLine(s: string): (r: Result<Line>)
    ensures r.Err? ==> r.error == MalformedLine
  {
    var i := Span(s, 0, IsDash);
    var j := Span(s, i, IsSpace);
    var k := Span(s, j, IsWord);
    var m := Span(s, k, IsSpace);
    if 0 < i < j < k && '\n' !in s[m..] then Ok(Line(s[j..k], s[m..]))
    else Err(MalformedLine)
  }

  /** `s` splits at `i <= j <= k <= m` into dashes, whitespace, a tag of word
      characters, whitespace and a value without newlines, each of the first
      three non-empty: one way for `s` to match the pattern. */
  predicate Shape(s: string, i: nat, j: nat, k: nat, m: nat) {
    0 < i < j < k <= m <= |s|
    && (forall x :: 0 <= x < i ==> IsDash(s[x]))
    && (forall x :: i <= x < j ==> IsSpace(s[x]))
    && (forall x :: j <= x < k ==> IsWord(s[x]))
    && (forall x :: k <= x < m ==> IsSpace(s[x]))
    && (forall x :: m <= x < |s| ==> s[x] != '\n')
  }

  /** The split the greedy quantifiers choose: the tag and the whitespace
      after it are as long as they can be. */
  predicate GreedyShape(s: string, i: nat, j: nat, k: nat, m: nat) {
    Shape(s, i, j, k, m) && (k == |s| || !IsWord(s[k])) && (m == |s| || !IsSpace(s[m]))
  }

  /** ParseLine succeeds exactly on the strings the pattern matches, and then
      returns the tag and value of the greedy split. */
  lemma ParseLineSpec(s: string)
    ensures ParseLine(s).Ok? <==> exists i: nat, j: nat, k: nat, m: nat :: Shape(s, i, j, k, m)
    ensures ParseLine(s).Ok? ==>
      exists i: nat, j: nat, k: nat, m: nat :: GreedyShape(s, i, j, k, m) && ParseLine(s).value == Line(s[j..k], s[m..])
  {
    if ParseLine(s).Ok? {
      ParseLineGreedy(s);
    }
    if i: nat, j: nat, k: nat, m: nat :| Shape(s, i, j, k, m) {
      ParseLineMatches(s, i, j, k, m);
    }
  }

  /** A greedy split of `s` is the one ParseLine finds. */
  lemma ParseLineOfGreedy(s: string, i: nat, j: nat, k: nat, m: nat)
    requires GreedyShape(s, i, j, k, m)
    ensures ParseLine(s) == Ok(Line(s[j..k], s[m..]))
  {
    SpanAt(s, 0, i, IsDash);
    SpanAt(s, i, j, IsSpace);
    SpanAt(s, j, k, IsWord);
    SpanAt(s, k, m, IsSpace);
    assert '\n' !in s[m..] by {
      assert forall y :: 0 <= y < |s[m..]| ==> s[m..][y] == s[m + y];
    }
    ParseLineAt(s, i, j, k, m);
  }

  /** A successful parse comes from the greedy split. */
  lemma ParseLineGreedy(s: string)
    requires ParseLine(s).Ok?
    ensures var i, j := Span(s, 0, IsDash), Span(s, Span(s, 0, IsDash), IsSpace);
            var k := Span(s, j, IsWord);
            var m := Span(s, k, IsSpace);
            GreedyShape(s, i, j, k, m) && ParseLine(s).value == Line(s[j..k], s[m..])
  {
    var i := Span(s, 0, IsDash);
    var j := Span(s, i, IsSpace);
    var k := Span(s, j, IsWord);
    var m := Span(s, k, IsSpace);
    SpanRun(s, 0, IsDash);
    SpanRun(s, i, IsSpace);
    SpanRun(s, j, IsWord);
    SpanRun(s, k, IsSpace);
    assert forall x :: m <= x < |s| ==> s[x] == s[m..][x - m];
  }

  /** Any way of matching the pattern makes the parse succeed. */
  lemma ParseLineMatches(s: string, i': nat, j': nat, k': nat, m': nat)
    requires Shape(s, i', j', k', m')
    ensures ParseLine(s).Ok?
  {
    ForcedRuns(s, i', j', k', m');
    var m := Span(s, Span(s, j', IsWord), IsSpace);
    assert '\n' !in s[m..] by {
      assert forall y :: 0 <= y < |s[m..]| ==> s[m..][y] == s[m + y];
    }
  }

  /** Against any match of the pattern, the dashes and the first whitespace
      run ParseLine finds are the same, and the tag and the whitespace after
      it reach at least as far. */
  lemma ForcedRuns(s: string, i': nat, j': nat, k': nat, m': nat)
    requires Shape(s, i', j', k', m')
    ensures Span(s, 0, IsDash) == i' && Span(s, i', IsSpace) == j'
    ensures k' <= Span(s, j', IsWord) && m' <= Span(s, Span(s, j', IsWord), IsSpace)
  {
    SpanAt(s, 0, i', IsDash);
    SpanAt(s, i', j', IsSpace);
    SpanCovers(s, j', k', IsWord);
    var k := Span(s, j', IsWord);
    SpanRun(s, j', IsWord);
    if k' < k {
      assert IsWord(s[k']);
    } else {
      SpanCovers(s, k, m', IsSpace);
    }
  }

  /** Span runs at least as far as any run of `p` from `i`. */
  lemma SpanCovers(s: string, i: nat, e: nat, p: char -> bool)
    requires i <= e <= |s|
    requires forall x :: i <= x < e ==> p(s[x])
    ensures e <= Span(s, i, p)
  {
    SpanRun(s, i, p);
  }

  /** A run of `p` from `i` that stops at `e` is what Span finds. */
  lemma SpanAt(s: string, i: nat, e: nat, p: char -> bool)
    requires i <= e <= |s|
    requires forall x :: i <= x < e ==> p(s[x])
    requires e == |s| || !p(s[e])
    ensures Span(s, i, p) == e
  {
    SpanRun(s, i, p);
  }

  /** In `s` made of `pre`, a run of `p` and `rest`, Span from the end of
      `pre` stops where the run ends. */
  lemma SpanConcat(s: string, pre: string, run: string, rest: string, p: char -> bool)
    requires s == pre + run + rest
    requires forall x :: 0 <= x < |run| ==> p(run[x])
    requires rest == [] || !p(rest[0])
    ensures Span(s, |pre|, p) == |pre| + |run|
  {
    assert forall x :: |pre| <= x < |pre| + |run| ==> s[x] == run[x - |pre|];
    assert |pre| + |run| < |s| ==> s[|pre| + |run|] == rest[0];
    SpanAt(s, |pre|, |pre| + |run|, p);
  }

  /** ParseLine returns the tag and value that the four runs delimit. */
  lemma ParseLineAt(s: string, i: nat, j: nat, k: nat, m: nat)
    requires i == Span(s, 0, IsDash) && j == Span(s, i, IsSpace)
    requires k == Span(s, j, IsWord) && m == Span(s, k, IsSpace)
    requires 0 < i < j < k && '\n' !in s[m..]
    ensures ParseLine(s) == Ok(Line(s[j..k], s[m..]))
  {
  }

  /** A content line made of its five parts: dashes, whitespace, the tag,
      the whitespace after it and the value, grouped as the runs need. */
  lemma LineParts(dashes: string, gap: string, tag: string, sep: string, value: string)
    ensures var s := dashes + gap + tag + sep + value;
      s == [] + dashes + (gap + tag + sep + value) &&
      s == dashes + gap + (tag + sep + value) &&
      s == (dashes + gap) + tag + (sep + value)
  {
    var s := dashes + gap + tag + sep + value;
    assert s == (dashes + gap) + tag + (sep + value);
    assert s == dashes + gap + (tag + sep + value);
    assert s == [] + dashes + (gap + tag + sep + value);
  }

  /** Where the tag and the value sit in a content line made of its parts. */
  lemma LineSlices(dashes: string, gap: string, tag: string, sep: string, value: string)
    ensures var s, j := dashes + gap + tag + sep + value, |dashes| + |gap|;
      s[j..j + |tag|] == tag && s[j + |tag| + |sep|..] == value
  {
    var s := dashes + gap + tag + sep + value;
    assert s == (dashes + gap) + tag + (sep + value);
  }

  /** The dashes and the whitespace before the tag are the first two runs
      ParseLine finds. */
  lemma PrefixRuns(dashes: string, gap: string, tag: string, sep: string, value: string)
    requires |dashes| > 0 && forall x :: 0 <= x < |dashes| ==> IsDash(dashes[x])
    requires |gap| > 0 && forall x :: 0 <= x < |gap| ==> IsSpace(gap[x])
    requires |tag| > 0 && IsWord(tag[0])
    ensures var s := dashes + gap + tag + sep + value;
      Span(s, 0, IsDash) == |dashes| && Span(s, |dashes|, IsSpace) == |dashes| + |gap|
  {
    var s := dashes + gap + tag + sep + value;
    LineParts(dashes, gap, tag, sep, value);
    SpanConcat(s, [], dashes, gap + tag + sep + value, IsDash);
    SpanConcat(s, dashes, gap, tag + sep + value, IsSpace);
  }

  /** The tag and the whitespace after it are the last two runs ParseLine
      finds. */
  lemma TagRuns(dashes: string, gap: string, tag: string, sep: string, value: string)
    requires |tag| > 0 && forall x :: 0 <= x < |tag| ==> IsWord(tag[x])
    requires forall x :: 0 <= x < |sep| ==> IsSpace(sep[x])
    requires |sep| > 0 || value == []
    requires value == [] || !IsSpace(value[0])
    ensures var s, j := dashes + gap + tag + sep + value, |dashes| + |gap|;
      Span(s, j, IsWord) == j + |tag| && Span(s, j + |tag|, IsSpace) == j + |tag| + |sep|
  {
    var s := dashes + gap + tag + sep + value;
    LineParts(dashes, gap, tag, sep, value);
    SpanConcat(s, dashes + gap, tag, sep + value, IsWord);
    SpanConcat(s, dashes + gap + tag, sep, value, IsSpace);
  }

  /** A content line assembled from dashes, whitespace, a word tag, whitespace
      and a value without newline that does not start with whitespace parses
      to that tag and value. */
  lemma ParseParts(dashes: string, gap: string, tag: string, sep: string, value: string)
    requires |dashes| > 0 && forall x :: 0 <= x < |dashes| ==> IsDash(dashes[x])
    requires |gap| > 0 && forall x :: 0 <= x < |gap| ==> IsSpace(gap[x])
    requires |tag| > 0 && forall x :: 0 <= x < |tag| ==> IsWord(tag[x])
    requires forall x :: 0 <= x < |sep| ==> IsSpace(sep[x])
    requires |sep| > 0 || value == []
    requires '\n' !in value && (value == [] || !IsSpace(value[0]))
    ensures ParseLine(dashes + gap + tag + sep + value) == Ok(Line(tag, value))
  {
    var j := |dashes| + |gap|;
    LineSlices(dashes, gap, tag, sep, value);
    PrefixRuns(dashes, gap, tag, sep, value);
    TagRuns(dashes, gap, tag, sep, value);
    ParseLineAt(dashes + gap + tag + sep + value, |dashes|, j, j + |tag|, j + |tag| + |sep|);
  }

  /** A line with a word tag and a value without newline that does not start
      with whitespace parses back from its printed form behind any run of
      dashes and whitespace. */
  /** The printed form of a tag and value, behind `- `, parses back. */
  lemma PrintedParses(tag: string, value: string)
    requires |tag| > 0 && forall x :: 0 <= x < |tag| ==> IsWord(tag[x])
    requires '\n' !in value && (value == [] || !IsSpace(value[0]))
    ensures ParseLine("- " + (tag + " " + value)) == Ok(Line(tag, value))
  {
    var dash, gap := "-", " ";
    assert "- " + (tag + " " + value) == dash + gap + tag + " " + value;
    ParseParts(dash, gap, tag, " ", value);
  }

  lemma LineRoundTrip(l: Line, dashes: string, gap: string)
    requires |l.Tag| > 0 && forall x :: 0 <= x < |l.Tag| ==> IsWord(l.Tag[x])
    requires '\n' !in l.Value && (l.Value == [] || !IsSpace(l.Value[0]))
    requires |dashes| > 0 && forall x :: 0 <= x < |dashes| ==> IsDash(dashes[x])
    requires |gap| > 0 && forall x :: 0 <= x < |gap| ==> IsSpace(gap[x])
    ensures ParseLine(dashes + gap + l.String()) == Ok(l)
  {
    assert dashes + gap + l.String() == dashes + gap + l.Tag + " " + l.Value;
    ParseParts(dashes, gap, l.Tag, " ", l.Value);
  }
}
