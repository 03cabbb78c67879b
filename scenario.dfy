/** A request transaction as varnishlog prints it, read end to end. */
module Scenario {
  import opened Errors
  import opened Strings
  import opened Lines
  import opened References
  import opened Transactions

  const Request: seq<string> := [
    "*   << Request  >> 32770",
    "-   Begin   req 32769 rxreq",
    "-   ReqURL   /200",
    "-   Link   bereq 32771 fetch",
    "-   End"
  ]

  /** The ids of the scenario, written out digit by digit. */
  lemma Decimals()
    ensures Decimal(32770) == "32770" && Decimal(32769) == "32769"
  {
    assert Decimal(3) == "3";
    assert Decimal(32) == "32";
    assert Decimal(327) == "327";
    assert Decimal(3277) == "3277" && Decimal(3276) == "3276";
  }

  lemma BoundaryLine(input: seq<string>)
    requires input == Request
    ensures Classify(input[0]) == Boundary(Some(32770))
  {
    var raw := input[0];
    assert raw == "*   << Request  >> " + "32770";
    TrimSpaceKeeps(raw);
    SplitLast(raw, ' ', "32770");
    Decimals();
    DecimalRoundTrip(32770);
  }

  lemma BeginLine(input: seq<string>)
    requires input == Request
    ensures Classify(input[1]) == Content(Ok(Line("Begin", "req 32769 rxreq")))
  {
    var raw := input[1];
    assert raw == "-" + "   " + "Begin" + "   " + "req 32769 rxreq";
    TrimSpaceKeeps(raw);
    ParseParts("-", "   ", "Begin", "   ", "req 32769 rxreq");
  }

  lemma BeginReference(value: string)
    requires value == "req 32769 rxreq"
    ensures ParseReference(value) == Ok(Reference("req", 32769, "rxreq"))
  {
    Decimals();
    assert value == "req" + " " + "32769" + " " + "rxreq";
    ReferenceRoundTrip(Reference("req", 32769, "rxreq"));
  }

  lemma UrlLine(input: seq<string>)
    requires input == Request
    ensures Classify(input[2]) == Content(Ok(Line("ReqURL", "/200")))
  {
    var raw := input[2];
    assert raw == "-" + "   " + "ReqURL" + "   " + "/200";
    TrimSpaceKeeps(raw);
    ParseParts("-", "   ", "ReqURL", "   ", "/200");
  }

  lemma LinkLine(input: seq<string>)
    requires input == Request
    ensures Classify(input[3]) == Content(Ok(Line("Link", "bereq 32771 fetch")))
  {
    var raw := input[3];
    assert raw == "-" + "   " + "Link" + "   " + "bereq 32771 fetch";
    TrimSpaceKeeps(raw);
    ParseParts("-", "   ", "Link", "   ", "bereq 32771 fetch");
  }

  lemma EndLineParses(input: seq<string>)
    requires input == Request
    ensures Classify(input[4]) == Content(Ok(Line("End", "")))
  {
    var raw := input[4];
    assert raw == "-" + "   " + "End" + "" + "";
    TrimSpaceKeeps(raw);
    ParseParts("-", "   ", "End", "", "");
  }

  /** A content line that is neither `Begin` nor `End` is appended and the
      read goes on. */
  lemma PlainStep(input: seq<string>, i: nat, t: Transaction, l: Line)
    requires i < |input| && Classify(input[i]) == Content(Ok(l)) && l.Tag != "Begin" && l.Tag != "End"
    ensures ReadFrom(input, i, t) == ReadFrom(input, i + 1, t.(Lines := t.Lines + [l]))
  {
  }

  /** A boundary line, a `Begin` line, two more content lines and an `End`
      line make one complete transaction. */
  lemma {:induction false} FiveLines(input: seq<string>, v: nat, ref: Reference, l1: Line, l2: Line, l3: Line, l4: Line)
    requires |input| == 5
    requires Classify(input[0]) == Boundary(Some(v))
    requires Classify(input[1]) == Content(Ok(l1)) && l1.Tag == "Begin" && ParseReference(l1.Value) == Ok(ref)
    requires Classify(input[2]) == Content(Ok(l2)) && l2.Tag != "Begin" && l2.Tag != "End"
    requires Classify(input[3]) == Content(Ok(l3)) && l3.Tag != "Begin" && l3.Tag != "End"
    requires Classify(input[4]) == Content(Ok(l4)) && l4.Tag == "End"
    ensures ReadFrom(input, 0, Empty) == (Transaction(v, ref, [l1, l2, l3, l4]), None, 5)
  {
    var t1 := Empty.(VXID := v);
    var t2 := t1.(Lines := t1.Lines + [l1], Begin := ref);
    assert ReadFrom(input, 0, Empty) == ReadFrom(input, 1, t1);
    assert ReadFrom(input, 1, t1) == ReadFrom(input, 2, t2);
    PlainStep(input, 2, t2, l2);
    var t3 := t2.(Lines := t2.Lines + [l2]);
    PlainStep(input, 3, t3, l3);
    var t4 := t3.(Lines := t3.Lines + [l3]);
    assert t4.Lines + [l4] == [l1, l2, l3, l4];
  }

  /** The reader returns the whole transaction, complete, with the id of its
      boundary line, the reference of its `Begin` line and its four content
      lines in order, and stops just after the `End` line. */
  lemma RequestTransaction(input: seq<string>)
    requires input == Request
    ensures ReadFrom(input, 0, Empty) ==
      (Transaction(32770, Reference("req", 32769, "rxreq"),
        [Line("Begin", "req 32769 rxreq"), Line("ReqURL", "/200"),
         Line("Link", "bereq 32771 fetch"), Line("End", "")]), None, 5)
  {
    BoundaryLine(input);
    BeginLine(input);
    BeginReference("req 32769 rxreq");
    UrlLine(input);
    LinkLine(input);
    EndLineParses(input);
    FiveLines(input, 32770, Reference("req", 32769, "rxreq"),
      Line("Begin", "req 32769 rxreq"), Line("ReqURL", "/200"),
      Line("Link", "bereq 32771 fetch"), Line("End", ""));
  }
}
