# varnishlog reader, modelled in Dafny

This project models the Go package `varnishlog`. The package parses the text
output of Varnish's `varnishlog` tool into transactions. It has three layers,
and the model has one module for each, plus a module for the Go standard
library pieces they rely on:

- `Strings` (`strings.dfy`) holds the parts of `strings.TrimSpace`,
  `strings.Split` and `strconv.ParseUint(s, 10, 64)` that the parser uses.
  It also holds `Decimal`, the decimal printing of a number, which is the
  inverse that the parsing is checked against.
- `Lines` (`lines.dfy`) holds `Line`, `Line.String` and `ParseLine`.
  `ParseLine` is a hand-written scanner for the fixed pattern
  `^\-+\s+(\w+)\s*(.*)$`, with the pattern's greedy, leftmost-first choices.
- `References` (`references.dfy`) holds `Reference` and `ParseReference`.
  A `Begin` value is split on single spaces into exactly three fields. The
  middle field is an unsigned 64-bit decimal.
- `Transactions` (`transactions.dfy`) holds `Transaction` and the reader
  `ParseTransaction`. The Go function pulls lines from a channel. The model
  reads from a sequence of raw lines and a cursor, and returns:
  - the transaction;
  - the error (`None` when an `End` line completed the transaction);
  - the cursor just past the last line it consumed, so successive calls
    return successive transactions.
- `Errors` (`errors.dfy`) holds the error kinds: `MalformedLine`,
  `MalformedBoundary`, `MalformedReference` and `EOF`.
- `Scenario` (`scenario.dfy`) reads one shortened request block end to
  end, written as varnishlog prints it.

`ParseTransaction` is a loop. Its body, `ReadLine`, is the `switch` of the Go
`for` loop. Both are specified against two things:
- `ReadFrom`, a tail-recursive function over the remaining input;
- an independent description of what a read accumulates from the lines
  `input[lo..hi]` it consumed:
  - `Entries`: the parsed content lines, in order;
  - `LastVxid`: the id of the last boundary line;
  - `LastBegin`: the reference of the last `Begin` line;
  - `Continues`: no line stops the read;
  - `StoppedAt`: the last line stopped it, with the given error.

The model follows the code as written in these places:
- A `*` boundary line only overwrites the id. The lines and the reference
  accumulated so far are kept (`BoundaryKeeps`).
- Every `Begin` line whose value parses overwrites the reference, so the
  last one wins (`LastBeginAt`).
- At the end of the input the reader returns EOF together with whatever it
  has accumulated. That is the zero transaction when the rest of the input
  is blank (`BlankRead`).
- A boundary line is split on single spaces, and the id is the last piece.
  Surrounding whitespace is trimmed first, but a tab between fields (as in
  `*\t32770`) makes the line malformed.

## Model

| member | source | states |
|---|---|---|
| Strings.TrimLeftSpec | varnishlog.go:72 | TrimLeft removes exactly the leading whitespace. The result is a suffix of the input, everything removed is whitespace, and the result does not start with whitespace. |
| Strings.TrimRightSpec | varnishlog.go:72 | TrimRight removes exactly the trailing whitespace. The result is a prefix, everything removed is whitespace, and the result does not end with whitespace. |
| Strings.TrimSpace | varnishlog.go:72 | The trimmed line is no longer than the raw line and neither starts nor ends with whitespace. |
| Strings.TrimSpaceSpec | varnishlog.go:72 | TrimSpace returns a slice of its input. Only whitespace lies outside the slice, and the slice neither starts nor ends with whitespace. |
| Strings.TrimSpaceEmpty | varnishlog.go:72-76 | A line trims to the empty string exactly when every character of it is whitespace. These are the blank lines the reader skips. |
| Strings.TrimSpaceKeeps | varnishlog.go:72 | A line that neither starts nor ends with whitespace is left unchanged. |
| Strings.TrimSpaceLeads | varnishlog.go:72-78 | For a character `c` that is not whitespace, the trimmed line starts with `c` exactly when `c` is the first character of the raw line that is not whitespace. |
| Strings.Split | varnishlog.go:80 | Split always yields at least one piece, so the last field of a boundary line always exists. |
| Strings.SplitSpec | varnishlog.go:44 | Split yields one more piece than there are separators. No piece contains the separator, and joining the pieces with it gives the input back. |
| Strings.SplitJoin | varnishlog.go:44 | Splitting a join of separator-free pieces gives back exactly those pieces. |
| Strings.SplitLast | varnishlog.go:80-82 | The last piece of Split is the text after the last separator. |
| Strings.ParseUint | varnishlog.go:82 | A number is returned only for a non-empty string of ASCII digits whose value fits in 64 bits, and it is that value. |
| Strings.AccumulateSpec | varnishlog.go:50 | The digit loop, started on the value of a digit prefix, accepts exactly the digit strings whose value fits in 64 bits and yields that value. |
| Strings.ParseUintSpec | varnishlog.go:50-53 | ParseUint succeeds exactly on non-empty strings of ASCII digits whose value fits in 64 bits. Its value is the decimal value of the digits. |
| Strings.Decimal | varnishlog.go:50 | The decimal form of a number is a non-empty string of digits whose value is that number, with no leading zero. |
| Strings.DecimalRoundTrip | varnishlog.go:50-53 | ParseUint reads back the decimal form of any 64-bit number. |
| Lines.Line.String | varnishlog.go:19-21 | The printed line is the tag, one space and the value. Behind `- ` it parses back to the same line when the tag is a word and the value has no newline and does not start with whitespace. |
| Lines.PrintedParses | varnishlog.go:19-33 | `- ` followed by a word tag, one space and a value without newline or leading whitespace parses to that tag and value. |
| Lines.SpanRun | varnishlog.go:11 | A scan of the pattern's repeated character class covers only characters of the class, and stops at one outside it or at the end. |
| Lines.ParseLine | varnishlog.go:24-33 | ParseLine fails only with MalformedLine. |
| Lines.ParseLineSpec | varnishlog.go:24-33 | ParseLine succeeds exactly on the lines that match the pattern in some way: dashes, whitespace, a word tag, whitespace, then a value without newline. On success it returns the tag and value of the greedy split. |
| Lines.ParseLineGreedy | varnishlog.go:11 | A successful parse uses the greedy split: maximal runs of dashes, whitespace, word characters and whitespace. |
| Lines.ParseLineMatches | varnishlog.go:11 | Any split that matches the pattern makes the parse succeed. |
| Lines.ForcedRuns | varnishlog.go:11 | Against any match, the dashes and first whitespace run of the scanner are the same, and its tag and following whitespace reach at least as far. So the value never contains a newline when some match exists. |
| Lines.ParseLineOfGreedy | varnishlog.go:24-33 | A greedy split of a line determines the parse result: its tag and its value. |
| Lines.ParseParts | varnishlog.go:24-33 | A line assembled from dashes, whitespace, a word tag, whitespace and a value without newline parses to that tag and value. |
| Lines.LineRoundTrip | varnishlog.go:19-21 | ParseLine reads back the printed form of a line (tag, a space, value) behind any dashes and whitespace. This holds when the tag is a word and the value has no newline and does not start with whitespace. |
| References.ParseReference | varnishlog.go:43-59 | ParseReference fails only with MalformedReference. |
| References.ParseReferenceSpec | varnishlog.go:44-48 | A value without exactly two spaces is rejected. An accepted reference has a space-free type and reason and a 64-bit id. |
| References.ParseReferenceFields | varnishlog.go:43-59 | A value of three space-free fields is accepted exactly when the middle field is a valid 64-bit decimal. The fields are then returned verbatim, with the id as the middle field's decimal value. |
| References.ReferenceRoundTrip | varnishlog.go:43-59 | A reference with space-free type and reason, written as `type id reason`, parses back to itself. |
| References.SessionReference | varnishlog_test.go:59 | `sess 0 HTTP/1` parses to the session reference. |
| Transactions.Classify | varnishlog.go:72-91 | A raw line is a boundary line exactly when its first character that is not whitespace is `*`. |
| Transactions.ClassifyBlank | varnishlog.go:72-76 | A raw line is blank to the reader exactly when every character of it is whitespace. |
| Transactions.EffectOfKind | varnishlog.go:83-107 | No single line reports EOF. |
| Transactions.EffectOf | varnishlog.go:106-107 | A line completes the read with no error exactly when it is a parsed content line tagged `End`. |
| Transactions.Apply | varnishlog.go:86-104 | One line only appends: the lines grow by at most one at the end. A blank line changes nothing. A boundary line keeps the lines and the reference. Every other line keeps the id. Only a `Begin` content line can change the reference. |
| Transactions.AccumulatedStep | varnishlog.go:86-104 | Consuming one more line applies that line to what was accumulated. |
| Transactions.Advance | varnishlog.go:71-108 | After a read that went on, reading the next line either goes on with the accumulation extended, or stops with that line's error. |
| Transactions.CompletedRead | varnishlog.go:95-107 | A completed read ends at an `End` line and has no earlier `End` line. Its last entry is that `End` line. |
| Transactions.AbortedRead | varnishlog.go:80-104 | A read stopped by an error never reports EOF. A bad boundary line or a bad content line changes nothing. A `Begin` line with a bad value has already been appended, with the reference unchanged. |
| Transactions.ReadLine | varnishlog.go:72-108 | One pass of the loop applies the line to the transaction and yields the line's effect. |
| Transactions.ReadFrom | varnishlog.go:70-114 | The read ends at a position between its start and the end of the input. |
| Transactions.ReadFromSpec | varnishlog.go:70-114 | A read ends with exactly what the consumed lines accumulate. Either it reaches the end of the input with EOF and no line stopped it, or it ends just after the first line that stopped it, with that line's error. |
| Transactions.ReadFromStart | varnishlog.go:70-114 | A read from a start position with nothing accumulated has the outcome `ReadOutcome` describes. |
| Transactions.ParseTransaction | varnishlog.go:70-114 | The method computes `ReadFrom`, with the outcome `ReadOutcome` describes. Its transaction holds the id, the reference and the entries of the consumed lines. EOF comes only at the end of the input. Any other outcome is the first stopping line's, and a complete transaction ends with its `End` line. |
| Transactions.EntriesSplit | varnishlog.go:95 | The entries of adjacent stretches of input concatenate. |
| Transactions.SuccessiveReads | varnishlog_test.go:48-59 | Two successive reads share no line and lose no line. Together their lines are the entries of all the input they consumed, in order. |
| Transactions.BlankRead | varnishlog_test.go:61-63 | On input that is blank to the end, the read changes nothing and reports EOF at the end of the input. From the zero transaction it returns the zero transaction. |
| Transactions.BoundaryKeeps | varnishlog.go:86 | A boundary line sets the id and keeps the lines and the reference. |
| Transactions.LastBeginNone | varnishlog.go:97-104 | With no `Begin` line whose value parses, the reference stays the zero reference. |
| Transactions.LastBeginAt | varnishlog.go:104 | The reference is that of the last `Begin` line whose value parses. It wins over every earlier one. |
| Scenario.PlainStep | varnishlog.go:88-107 | A content line that is neither `Begin` nor `End` is appended, and the read goes on. |
| Scenario.FiveLines | varnishlog.go:70-114 | A boundary line, a `Begin` line, two more content lines and an `End` line make one complete transaction with that id, that reference and the four lines. |
| Scenario.RequestTransaction | varnishlog_test.go:51-52 | A shortened request block is read as a whole: transaction `32770`, reference `req 32769 rxreq`, and the lines `Begin`, `ReqURL`, `Link bereq 32771 fetch` and `End`. The read stops after the `End` line. |

## Left out

- Unicode whitespace: `strings.TrimSpace` also removes non-ASCII spaces. The model removes only ASCII whitespace (space, tab, newline, vertical tab, form feed, carriage return).
- Error messages: the `fmt.Errorf` texts are not modelled. Only the error kind is kept.
- Lines.ParseLine, References.ParseReference: on failure Go returns a zero `Line` or `Reference` together with the error. The model's `Err` carries no value, and no caller reads the value on failure.
- Channels and goroutines: the Go reader blocks on a channel that a goroutine fills. The model reads a sequence with a cursor, and a closed channel is the end of the sequence.
- Integer width: Go's `uint` is platform-sized. Ids are modelled as naturals up to 2^64-1, the bound `strconv.ParseUint(s, 10, 64)` enforces.
- The general regular-expression engine: only the one fixed pattern is modelled, as a scanner.
- `testdata/generate_test.go` is not part of this model. It is fixture plumbing that starts Varnish and writes log files.
- The testify helpers of `varnishlog_test.go` are not part of this model. `assertHasLine` is only a membership check on `Lines`.
