/** The pieces of Go's `strings` and `strconv` packages that the parser relies on,
    restricted to what the parser uses them for. */
module Strings {
  import opened Errors

  /** The largest value of a 64-bit unsigned integer. */
  const MaxUint64: nat := 0xFFFF_FFFF_FFFF_FFFF

  /** Whitespace removed by `strings.TrimSpace`, restricted to ASCII. */
  predicate IsAsciiSpace(c: char) {
    c == ' ' || c == '\t' || c == '\n' || c == '\U{B}' || c == '\U{C}' || c == '\r'
  }

  // ---------------------------------------------------------------------------
  // strings.TrimSpace

  /** `s` without its leading whitespace (see TrimLeftSpec). */
  function TrimLeft(s: string): string
    decreases |s|
  {
    if s != [] && IsAsciiSpace(s[0]) then TrimLeft(s[1..]) else s
  }

  /** `s` without its trailing whitespace (see TrimRightSpec). */
  function TrimRight(s: string): string
    decreases |s|
  {
    if s != [] && IsAsciiSpace(s[|s| - 1]) then TrimRight(s[..|s| - 1]) else s
  }

  /** TrimLeft drops the leading whitespace of `s` and nothing else. */
  lemma {:induction false} TrimLeftSpec(s: string)
    ensures var r := TrimLeft(s);
      |r| <= |s| && r == s[|s| - |r|..]
      && (forall i :: 0 <= i < |s| - |r| ==> IsAsciiSpace(s[i]))
      && (r == [] || !IsAsciiSpace(r[0]))
    decreases |s|
  {
    if s != [] && IsAsciiSpace(s[0]) {
      TrimLeftSpec(s[1..]);
    }
  }

  /** TrimRight drops the trailing whitespace of `s` and nothing else. */
  lemma {:induction false} TrimRightSpec(s: string)
    ensures var r := TrimRight(s);
      |r| <= |s| && r == s[..|r|]
      && (forall i :: |r| <= i < |s| ==> IsAsciiSpace(s[i]))
      && (r == [] || !IsAsciiSpace(r[|r| - 1]))
    decreases |s|
  {
    if s != [] && IsAsciiSpace(s[|s| - 1]) {
      TrimRightSpec(s[..|s| - 1]);
    }
  }

  /** `r` is the slice of `s` starting at `a`, and everything of `s` outside
      that slice is whitespace. */
  predicate TrimmedAt(s: string, a: nat, r: string) {
    a + |r| <= |s| && r == s[a..a + |r|]
    && (forall i :: 0 <= i < a ==> IsAsciiSpace(s[i]))
    && (forall i :: a + |r| <= i < |s| ==> IsAsciiSpace(s[i]))
  }

  /** `strings.TrimSpace`: `s` without its leading and trailing whitespace. */
  function TrimSpace(s: string): (r: string)
    ensures |r| <= |s|
    ensures r == [] || (!IsAsciiSpace(r[0]) && !IsAsciiSpace(r[|r| - 1]))
  {
    TrimLeftSpec(s);
    TrimRightSpec(TrimLeft(s));
    TrimRight(TrimLeft(s))
  }

  /** TrimSpace keeps a slice of `s` that neither starts nor ends with
      whitespace, and drops only whitespace around it. */
  lemma TrimSpaceSpec(s: string)
    ensures exists a: nat :: TrimmedAt(s, a, TrimSpace(s))
  {
    var l := TrimLeft(s);
    var r := TrimRight(l);
    var a := |s| - |l|;
    TrimLeftSpec(s);
    TrimRightSpec(l);
    TrimmedAtSlices(s, a, l, r);
    assert TrimSpace(s) == r;
  }

  /** Trimming the suffix `l` of `s` from index `a` down to its prefix `r`
      leaves `r` at index `a`, with only whitespace around it. */
  lemma TrimmedAtSlices(s: string, a: nat, l: string, r: string)
    requires a + |l| == |s| && l == s[a..] && |r| <= |l| && r == l[..|r|]
    requires forall i :: 0 <= i < a ==> IsAsciiSpace(s[i])
    requires forall i :: |r| <= i < |l| ==> IsAsciiSpace(l[i])
    ensures TrimmedAt(s, a, r)
  {
    forall i | a + |r| <= i < |s|
      ensures IsAsciiSpace(s[i])
    {
      assert s[i] == l[i - a];
    }
  }

  /** A string trims to nothing exactly when it is all whitespace. */
  lemma TrimSpaceEmpty(s: string)
    ensures TrimSpace(s) == [] <==> forall i :: 0 <= i < |s| ==> IsAsciiSpace(s[i])
  {
    TrimSpaceSpec(s);
    var r := TrimSpace(s);
    var a: nat :| TrimmedAt(s, a, r);
    if r != [] {
      assert r[0] == s[a];
    }
  }

  /** The first character of `s` that is not whitespace is `c`. */
  predicate LeadsWith(s: string, c: char) {
    exists a :: 0 <= a < |s| && s[a] == c && forall i :: 0 <= i < a ==> IsAsciiSpace(s[i])
  }

  /** TrimSpace starts with the first character of `s` that is not whitespace. */
  lemma TrimSpaceLeads(s: string, c: char)
    requires !IsAsciiSpace(c)
    ensures LeadsWith(s, c) <==> TrimSpace(s) != [] && TrimSpace(s)[0] == c
  {
    TrimSpaceSpec(s);
    var r := TrimSpace(s);
    var a: nat :| TrimmedAt(s, a, r);
    if r != [] && r[0] == c {
      assert s[a] == c;
    }
    if LeadsWith(s, c) {
      var b :| 0 <= b < |s| && s[b] == c && forall i :: 0 <= i < b ==> IsAsciiSpace(s[i]);
      if r != [] {
        assert r[0] == s[a];
        assert !(b < a);
        assert !(a < b);
      }
    }
  }

  /** A string that neither starts nor ends with whitespace is kept whole. */
  lemma TrimSpaceKeeps(s: string)
    requires s != [] && !IsAsciiSpace(s[0]) && !IsAsciiSpace(s[|s| - 1])
    ensures TrimSpace(s) == s
  {
  }

  // ---------------------------------------------------------------------------
  // strings.Split with a one-character separator

  /** Number of occurrences of `c` in `s`. */
  function Count(s: string, c: char): nat {
    if s == [] then 0 else (if s[0] == c then 1 else 0) + Count(s[1..], c)
  }

  /** The parts separated by `sep`, put back together (`strings.Join`). */
  function Join(parts: seq<string>, sep: char): string {
    if parts == [] then []
    else if |parts| == 1 then parts[0]
    else parts[0] + [sep] + Join(parts[1..], sep)
  }

  /** `strings.Split(s, sep)`: the pieces of `s` around every `sep`; always at
      least one piece, so an empty `s` gives one empty piece. */
  function Split(s: string, sep: char): (parts: seq<string>)
    ensures |parts| > 0
    decreases |s|
  {
    if s == [] then [[]]
    else
      var rest := Split(s[1..], sep);
      if s[0] == sep then [[]] + rest
      else [[s[0]] + rest[0]] + rest[1..]
  }

  /** Split cuts `s` at each separator and nowhere else: one more piece than
      there are separators, no piece holds one, and joining the pieces with
      the separator gives `s` back. */
  lemma {:induction false} SplitSpec(s: string, sep: char)
    ensures var parts := Split(s, sep);
      |parts| == Count(s, sep) + 1
      && (forall i :: 0 <= i < |parts| ==> sep !in parts[i])
      && Join(parts, sep) == s
    decreases |s|
  {
    if s != [] {
      var rest := Split(s[1..], sep);
      SplitSpec(s[1..], sep);
      if s[0] == sep {
        assert [sep] + Join(rest, sep) == s;
      } else {
        var parts := [[s[0]] + rest[0]] + rest[1..];
        JoinPrepend(s[0], rest, sep);
        assert forall i :: 1 <= i < |parts| ==> parts[i] == rest[i];
        assert [s[0]] + s[1..] == s;
      }
    }
  }

  /** Splitting a string whose first piece is `a` peels `a` off. */
  /** Putting a character in front of the first piece puts it in front of
      the joined string. */
  lemma JoinPrepend(c: char, rest: seq<string>, sep: char)
    requires |rest| > 0
    ensures Join([[c] + rest[0]] + rest[1..], sep) == [c] + Join(rest, sep)
  {
    var parts := [[c] + rest[0]] + rest[1..];
    assert parts[1..] == rest[1..];
    if |rest| > 1 {
      assert Join(rest, sep) == rest[0] + [sep] + Join(rest[1..], sep);
    }
  }

  lemma {:induction false} SplitPrefix(a: string, b: string, sep: char)
    requires sep !in a
    ensures Split(a + b, sep) == [a + Split(b, sep)[0]] + Split(b, sep)[1..]
    decreases |a|
  {
    if a != [] {
      assert (a + b)[1..] == a[1..] + b;
      SplitPrefix(a[1..], b, sep);
      assert [a[0]] + (a[1..] + Split(b, sep)[0]) == a + Split(b, sep)[0];
    } else {
      assert a + b == b;
      assert Split(b, sep) == [Split(b, sep)[0]] + Split(b, sep)[1..];
      assert a + Split(b, sep)[0] == Split(b, sep)[0];
    }
  }

  /** The last piece of Split is what follows the last separator. */
  lemma {:induction false} SplitLast(s: string, sep: char, b: string)
    requires |b| < |s| && s[|s| - |b| - 1] == sep && s[|s| - |b|..] == b && sep !in b
    ensures var parts := Split(s, sep); |parts| >= 2 && parts[|parts| - 1] == b
    decreases |s|
  {
    if |s| == |b| + 1 {
      assert s[1..] == b + [];
      SplitPrefix(b, [], sep);
    } else {
      assert s[1..][|s[1..]| - |b|..] == b;
      SplitLast(s[1..], sep, b);
    }
  }

  /** Split undoes Join when no part contains the separator. */
  lemma {:induction false} SplitJoin(parts: seq<string>, sep: char)
    requires |parts| > 0
    requires forall i :: 0 <= i < |parts| ==> sep !in parts[i]
    ensures Split(Join(parts, sep), sep) == parts
    decreases |parts|
  {
    if |parts| == 1 {
      SplitSpec(parts[0], sep);
      SplitPrefix(parts[0], [], sep);
      assert parts[0] + [] == parts[0];
    } else {
      var rest := parts[1..];
      SplitJoin(rest, sep);
      var tail := [sep] + Join(rest, sep);
      assert Join(parts, sep) == parts[0] + tail;
      SplitPrefix(parts[0], tail, sep);
      assert tail[1..] == Join(rest, sep);
      assert Split(tail, sep) == [[]] + rest;
      assert parts[0] + [] == parts[0];
      assert parts == [parts[0]] + rest;
    }
  }

  // ---------------------------------------------------------------------------
  // strconv.ParseUint(s, 10, 64) and its inverse

  predicate IsDigit(c: char) { '0' <= c <= '9' }

  predicate AllDigits(s: string) { forall i :: 0 <= i < |s| ==> IsDigit(s[i]) }

  function DigitValue(c: char): nat
    requires IsDigit(c)
  {
    (c as int) - ('0' as int)
  }

  /** The number a string of decimal digits denotes (leading zeros allowed). */
  function DecimalValue(s: string): nat
    requires AllDigits(s)
  {
    if s == [] then 0 else DecimalValue(s[..|s| - 1]) * 10 + DigitValue(s[|s| - 1])
  }

  /** What `strconv.ParseUint(s, 10, 64)` accepts: one or more ASCII digits,
      no sign, no underscore, no base prefix, and a value that fits 64 bits. */
  predicate ValidUint(s: string) {
    |s| > 0 && AllDigits(s) && DecimalValue(s) <= MaxUint64
  }

  /** A digit string denotes at least as much as any of its prefixes. */
  lemma {:induction false} DecimalValuePrefix(s: string, j: nat)
    requires AllDigits(s) && j <= |s|
    ensures DecimalValue(s[..j]) <= DecimalValue(s)
    decreases |s|
  {
    if j < |s| {
      assert s[..|s| - 1][..j] == s[..j];
      DecimalValuePrefix(s[..|s| - 1], j);
    } else {
      assert s[..j] == s;
    }
  }

  /** The digit loop of `strconv.ParseUint`: `n` is the value read so far;
      each further digit is multiplied in, and the scan fails on a non-digit
      or as soon as the value leaves the 64-bit range. */
  function Accumulate(s: string, i: nat, n: nat): Option<nat>
    requires i <= |s|
    decreases |s| - i
  {
    if i == |s| then Some(n)
    else if !IsDigit(s[i]) then None
    else
      var n' := n * 10 + DigitValue(s[i]);
      if n' > MaxUint64 then None else Accumulate(s, i + 1, n')
  }

  /** Started on the value of a prefix, the digit loop accepts exactly the
      digit strings whose value fits 64 bits, and yields that value. */
  lemma {:induction false} AccumulateSpec(s: string, i: nat, n: nat)
    requires i <= |s| && AllDigits(s[..i]) && n == DecimalValue(s[..i]) && n <= MaxUint64
    ensures var r := Accumulate(s, i, n);
      (r.Some? <==> AllDigits(s) && DecimalValue(s) <= MaxUint64)
      && (r.Some? ==> r.value == DecimalValue(s))
    decreases |s| - i
  {
    if i == |s| {
      assert s[..i] == s;
    } else if IsDigit(s[i]) {
      var n' := n * 10 + DigitValue(s[i]);
      assert s[..i + 1][..i] == s[..i];
      assert n' == DecimalValue(s[..i + 1]);
      if n' > MaxUint64 {
        if AllDigits(s) { DecimalValuePrefix(s, i + 1); }
      } else {
        AccumulateSpec(s, i + 1, n');
      }
    }
  }

  /** `strconv.ParseUint(s, 10, 64)`; every error it reports is `None` here. */
  function ParseUint(s: string): (r: Option<nat>)
    ensures r.Some? ==> ValidUint(s) && r.value == DecimalValue(s)
  {
    if s == [] then None else AccumulateSpec(s, 0, 0); Accumulate(s, 0, 0)
  }

  /** ParseUint accepts exactly one or more ASCII digits whose value fits 64
      bits, and returns that value. */
  lemma ParseUintSpec(s: string)
    ensures ParseUint(s).Some? <==> ValidUint(s)
    ensures ParseUint(s).Some? ==> ParseUint(s).value == DecimalValue(s) <= MaxUint64
  {
    if s != [] {
      AccumulateSpec(s, 0, 0);
    }
  }

  function DigitChar(d: nat): (c: char)
    requires d < 10
    ensures IsDigit(c) && DigitValue(c) == d
  {
    ('0' as int + d) as char
  }

  /** The decimal form of `n` (`strconv.FormatUint(n, 10)`): digits only, no
      leading zero, and denoting `n`. */
  function Decimal(n: nat): (s: string)
    ensures |s| > 0 && AllDigits(s) && DecimalValue(s) == n
    ensures s[0] == '0' ==> s == "0"
  {
    if n < 10 then [DigitChar(n)]
    else
      var s := Decimal(n / 10) + [DigitChar(n % 10)];
      assert s[..|s| - 1] == Decimal(n / 10);
      s
  }

  /** Formatting a 64-bit value and parsing it back gives the value. */
  lemma DecimalRoundTrip(n: nat)
    requires n <= MaxUint64
    ensures ParseUint(Decimal(n)) == Some(n)
  {
    ParseUintSpec(Decimal(n));
  }
}
