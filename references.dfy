/** The parent or child reference carried by a `Begin` (or `Link`) value:
    a type, a transaction id and a reason, separated by single spaces. */
module References {
  import opened Errors
  import opened Strings

  datatype Reference = Reference(Type: string, VXID: nat, Reason: string)

  /** The zero Reference: what a transaction holds before any `Begin`. */
  const NoReference := Reference("", 0, "")

  /** Split `s` on every space; exactly three pieces are accepted, the middle
      one must be a 64-bit decimal number, the outer two are kept verbatim. */
  function ParseReference(s: string): (r: Result<Reference>)
    ensures r.Err? ==> r.error == MalformedReference
  {
    var p := Split(s, ' ');
    if |p| != 3 then Err(MalformedReference)
    else match ParseUint(p[1])
      case None => Err(MalformedReference)
      case Some(vxid) => Ok(Reference(p[0], vxid, p[2]))
  }

  /** A value without exactly two spaces is rejected; an accepted one has
      space-free type and reason and a 64-bit id. */
  lemma ParseReferenceSpec(s: string)
    ensures Count(s, ' ') != 2 ==> ParseReference(s).Err?
    ensures var r := ParseReference(s);
      r.Ok? ==> ' ' !in r.value.Type && ' ' !in r.value.Reason && r.value.VXID <= MaxUint64
  {
    SplitSpec(s, ' ');
    if |Split(s, ' ')| == 3 {
      ParseUintSpec(Split(s, ' ')[1]);
    }
  }

  /** A value made of three space-free fields parses exactly when the middle
      field is what ParseUint accepts, and then yields the fields unchanged. */
  lemma ParseReferenceFields(a: string, m: string, b: string)
    requires ' ' !in a && ' ' !in m && ' ' !in b
    ensures ParseReference(a + " " + m + " " + b) ==
      if ValidUint(m) then Ok(Reference(a, DecimalValue(m), b)) else Err(MalformedReference)
  {
    var parts := [a, m, b];
    assert Join(parts, ' ') == a + " " + m + " " + b by {
      assert Join(parts[1..], ' ') == m + " " + b by {
        assert Join(parts[2..], ' ') == b;
      }
    }
    SplitJoin(parts, ' ');
    ParseUintSpec(m);
  }

  /** A reference with space-free type and reason and a 64-bit id, written
      as `type id reason`, parses back to itself. */
  lemma ReferenceRoundTrip(ref: Reference)
    requires ' ' !in ref.Type && ' ' !in ref.Reason && ref.VXID <= MaxUint64
    ensures ParseReference(ref.Type + " " + Decimal(ref.VXID) + " " + ref.Reason) == Ok(ref)
  {
    var d := Decimal(ref.VXID);
    assert ' ' !in d;
    ParseReferenceFields(ref.Type, d, ref.Reason);
  }

  /** The session reference of a client request: `sess 0 HTTP/1`. */
  lemma SessionReference()
    ensures ParseReference("sess 0 HTTP/1") == Ok(Reference("sess", 0, "HTTP/1"))
  {
    assert "sess 0 HTTP/1" == "sess" + " " + "0" + " " + "HTTP/1";
    assert DecimalValue("0") == 0;
    ParseReferenceFields("sess", "0", "HTTP/1");
  }
}
