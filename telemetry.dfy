/**
 * The status line a warehouse monitor publishes for each product, and the
 * inventory manager's handler that reads such lines back and logs them.
 */
module Telemetry {
  import opened Strings
  import opened Decimal

  /** The status line published for one product, given its weight as
      rendered text: `Product: <name> | Weight: <weight>`. */
  function StatusLine(product: string, weight: string): (line: string)
    ensures OccursAt(line, "Product:", 0)
  {
    var line := "Product: " + product + " | Weight: " + weight;
    assert line[..8] == "Product:";
    line
  }

  /** One row handed to the log sink (the timestamp is left to the sink). */
  datatype Record = Record(product: string, weight: real)

  /** What the handler does with one payload. */
  datatype Outcome =
    | Logged(record: Record)  // a status line: exactly one record is emitted
    | Malformed               // a status line that did not parse: dropped silently
    | ActionNoted             // an order line containing "refill": only reported
    | Ignored                 // anything else

  /** `segment.split(': ')[1].strip()`, or `None` where the index fails. */
  function Field(segment: string): (r: Option<string>)
    ensures r.Some? <==> Contains(segment, ": ")
  {
    SplitCount(segment, ": ");
    var fields := Split(segment, ": ");
    if |fields| < 2 then None else Some(Strip(fields[1]))
  }

  /** The parse inside the handler's `try`: the product is the field of the
      text before the first `'|'`, the weight the number in the field of the
      second `'|'`-segment; a missing segment or field, or a weight that is
      not a number, is a failure. */
  function ParseStatus(m: string): (r: Option<Record>)
    ensures r.Some? ==> Contains(m, "|")
  {
    SplitCount(m, "|");
    ParseSegments(Split(m, "|"))
  }

  /** The parse once the payload is cut at every `'|'`. */
  function ParseSegments(parts: seq<string>): (r: Option<Record>)
    ensures r.Some? ==> |parts| >= 2
  {
    if |parts| < 2 then None
    else
      match Field(parts[0])
      case None => None
      case Some(product) =>
        match Field(parts[1])
        case None => None
        case Some(text) =>
          match ParseFloat(text)
          case None => None
          case Some(w) => Some(Record(product, w))
  }

  /** The handler: a payload mentioning "Product:" goes to the status branch
      and is never treated as an order, even if it also says "refill"; the
      "refill" test is case-sensitive. */
  function OnMessage(m: string): (r: Outcome)
    ensures Contains(m, "Product:") ==> r.Logged? || r.Malformed?
    ensures !Contains(m, "Product:") ==> (r.ActionNoted? <==> Contains(m, "refill"))
    ensures r.Logged? ==> Contains(m, "|") && ParseStatus(m) == Some(r.record)
    ensures Contains(m, "Product:") ==> (r.Logged? <==> ParseStatus(m).Some?)
    ensures r.Ignored? <==> !Contains(m, "Product:") && !Contains(m, "refill")
  {
    if Contains(m, "Product:") then
      match ParseStatus(m)
      case None => Malformed
      case Some(rec) => Logged(rec)
    else if Contains(m, "refill") then ActionNoted
    else Ignored
  }

  /** Product names that survive the trip through a status line: no `'|'`, no
      `": "` (also not across the blank the line puts after the name), no
      surrounding white space. */
  predicate WellFormedName(name: string)
  {
    && '|' !in name
    && !Contains(name, ": ")
    && (name != [] ==> name[|name| - 1] != ':' && !IsSpace(name[0]) && !IsSpace(name[|name| - 1]))
  }

  lemma {:induction false} NameThenBlank(name: string)
    requires WellFormedName(name)
    ensures !Contains(name + " ", ": ")
  {
    var s := name + " ";
    forall j | 0 <= j
      ensures !OccursAt(s, ": ", j)
    {
      if j + 2 <= |name| {
        assert s[j..j + 2] == name[j..j + 2];
        assert !OccursAt(name, ": ", j);
      } else if j + 2 == |s| {
        assert s[j] == name[|name| - 1];
      }
    }
  }

  lemma {:induction false} NoCharIn(c: char, a: string, b: string)
    requires c !in a && c !in b
    ensures c !in a + b
  {
  }

  /** The two `'|'`-segments of a status line whose name and weight have no `'|'`. */
  lemma {:induction false} StatusSegments(name: string, f: string)
    requires '|' !in name && '|' !in f
    ensures Split("Product: " + name + " | Weight: " + f, "|")
         == ["Product: " + name + " ", " Weight: " + f]
  {
    var a := "Product: " + name + " ";
    var b := " Weight: " + f;
    assert "Product: " + name + " | Weight: " + f == a + "|" + b;
    NoCharIn('|', "Product: ", name);
    NoCharIn('|', "Product: " + name, " ");
    NoCharIn('|', " Weight: ", f);
    SplitAfterPrefix(a, "|", b);
    NotContainsFirstChar(b, "|");
    SplitWithout(b, "|");
  }

  /** The product segment yields the name once stripped. */
  lemma {:induction false} ProductField(name: string)
    requires WellFormedName(name)
    ensures Field("Product: " + name + " ") == Some(name)
  {
    assert "Product: " + name + " " == "Product" + ": " + (name + " ");
    SplitAfterPrefix("Product", ": ", name + " ");
    NameThenBlank(name);
    SplitWithout(name + " ", ": ");
    StripTrailingBlank(name, " ");
  }

  /** Text with no `'|'`, no `':'` and no white space. */
  predicate PlainText(f: string)
  {
    forall k :: 0 <= k < |f| ==> f[k] != '|' && f[k] != ':' && !IsSpace(f[k])
  }

  /** Weight text that survives a status line and reads back as `w`: plain
      text that parses to `w`. */
  predicate Rendered(f: string, w: real)
  {
    PlainText(f) && ParseFloat(f) == Some(w)
  }

  /** The weight segment of a status line yields plain weight text as is. */
  lemma {:induction false} WeightField(f: string)
    requires PlainText(f)
    ensures Field(" Weight: " + f) == Some(f)
  {
    assert ':' !in f;
    assert " Weight: " + f == " Weight" + ": " + f;
    SplitAfterPrefix(" Weight", ": ", f);
    NotContainsFirstChar(f, ": ");
    SplitWithout(f, ": ");
  }

  /** A weight rendered to two decimals is such text, reading back as the
      weight in hundredths. */
  lemma {:induction false} Fixed2Rendered(h: nat)
    ensures Rendered(Fixed2(h), h as real / 100.0)
  {
    Fixed2Shape(h);
    Fixed2RoundTrip(h);
  }

  /** The parse recovers the name and the weight of a status line whose
      name is well formed and whose weight text is rendered. */
  lemma {:induction false} ParseStatusLine(name: string, f: string, w: real)
    requires WellFormedName(name) && Rendered(f, w)
    ensures ParseStatus(StatusLine(name, f)) == Some(Record(name, w))
  {
    assert '|' !in f;
    assert StatusLine(name, f) == "Product: " + name + " | Weight: " + f;
    var parts := Split("Product: " + name + " | Weight: " + f, "|");
    StatusSegments(name, f);
    ProductField(name);
    WeightField(f);
    assert parts[0] == "Product: " + name + " " && parts[1] == " Weight: " + f;
    SegmentsOfStatusLine(parts, name, f, w);
  }

  lemma {:induction false} SegmentsOfStatusLine(parts: seq<string>, product: string, text: string, w: real)
    requires |parts| == 2 && Field(parts[0]) == Some(product) && Field(parts[1]) == Some(text)
    requires ParseFloat(text) == Some(w)
    ensures ParseSegments(parts) == Some(Record(product, w))
  {
  }

  /** Round trip: the handler logs exactly the name and the weight written
      into a status line. */
  lemma {:induction false} StatusRoundTrip(name: string, f: string, w: real)
    requires WellFormedName(name) && Rendered(f, w)
    ensures OnMessage(StatusLine(name, f)) == Logged(Record(name, w))
  {
    assert Contains(StatusLine(name, f), "Product:");
    ParseStatusLine(name, f, w);
  }

  /** A logged product name never contains `'|'`: the name is cut out of the
      text before the first `'|'`. */
  lemma {:induction false} LoggedNameHasNoBar(m: string)
    ensures ParseStatus(m).Some? ==> '|' !in ParseStatus(m).value.product
  {
    if ParseStatus(m).Some? {
      var parts := Split(m, "|");
      SplitPiecesFree(m, "|");
      CharNotContained(parts[0], '|');
      var fields := Split(parts[0], ": ");
      assert Field(parts[0]).Some? && ParseStatus(m).value.product == Strip(fields[1]);
      if '|' in Strip(fields[1]) {
        SplitPieceChars(parts[0], ": ", 1, '|');
      }
    }
  }

  /** So a name containing `'|'` does not survive the round trip: whatever the
      handler does with its status line, it does not log that name. */
  lemma {:induction false} BarInNameBreaksRoundTrip(name: string, weight: string)
    requires '|' in name
    ensures !OnMessage(StatusLine(name, weight)).Logged?
      || OnMessage(StatusLine(name, weight)).record.product != name
  {
    var line := StatusLine(name, weight);
    if OnMessage(line).Logged? {
      LoggedNameHasNoBar(line);
    }
  }

  /** A name ending in `':'` is cut short: the blank the line puts after it
      makes a second `": "`, and the handler logs only the text before it.
      So a status line for `"X:"` is logged under `"X"`. */
  lemma {:induction false} ColonNameCut(name: string, f: string, w: real)
    requires WellFormedName(name) && ':' !in name && Rendered(f, w)
    ensures OnMessage(StatusLine(name + ":", f)) == Logged(Record(name, w))
  {
    assert Contains(StatusLine(name + ":", f), "Product:");
    ColonNameParse(name, f, w);
  }

  lemma {:induction false} ColonNameParse(name: string, f: string, w: real)
    requires WellFormedName(name) && ':' !in name && Rendered(f, w)
    ensures ParseStatus(StatusLine(name + ":", f)) == Some(Record(name, w))
  {
    assert '|' !in f && '|' !in name + ":";
    assert StatusLine(name + ":", f) == "Product: " + (name + ":") + " | Weight: " + f;
    var parts := Split("Product: " + (name + ":") + " | Weight: " + f, "|");
    StatusSegments(name + ":", f);
    ColonField(name);
    WeightField(f);
    assert parts[0] == "Product: " + (name + ":") + " " && parts[1] == " Weight: " + f;
    SegmentsOfStatusLine(parts, name, f, w);
  }

  /** The product field of `"Product: <name>: "` is `name`. */
  lemma {:induction false} ColonField(name: string)
    requires WellFormedName(name) && ':' !in name
    ensures Field("Product: " + (name + ":") + " ") == Some(name)
  {
    assert "Product: " + (name + ":") + " " == "Product" + ": " + (name + ": " + "");
    SplitAfterPrefix(name, ": ", "");
    NotContainsFirstChar("", ": ");
    SplitWithout("", ": ");
    SplitAfterPrefix("Product", ": ", name + ": " + "");
    StripTrailingBlank(name, "");
  }

  /** A status line as the monitor writes it is logged with its numbers. */
  lemma {:induction false} ExampleStatusLogged()
    ensures OnMessage("Product: Apples | Weight: 33.50") == Logged(Record("Apples", 33.5))
  {
    NotContainsFirstChar("Apples", ": ");
    assert WellFormedName("Apples");
    assert Fixed2(3350) == "33.50";
    assert StatusLine("Apples", Fixed2(3350)) == "Product: Apples | Weight: 33.50";
    Fixed2Rendered(3350);
    StatusRoundTrip("Apples", Fixed2(3350), 33.5);
  }

  /** A status line without the weight segment is dropped. */
  lemma {:induction false} ExampleMissingSegment()
    ensures OnMessage("Product: Apples") == Malformed
  {
    var m := "Product: Apples";
    assert OccursAt(m, "Product:", 0);
    NotContainsFirstChar(m, "|");
  }

  /** Text that is neither a status line nor an order is ignored. */
  lemma {:induction false} ExampleGarbage()
    ensures OnMessage("garbage") == Ignored
  {
    var m := "garbage";
    NotContainsFirstChar(m, "Product:");
    forall i | 0 <= i <= |m| ensures !OccursAt(m, "refill", i) {
      if i + 6 <= |m| { assert m[i..i + 6][0] == m[i]; }
    }
  }

  /** The order test is case-sensitive: a capitalised "Refill" is ignored,
      while the monitor's own order lines are noted. */
  lemma {:induction false} ExampleRefillCase()
    ensures OnMessage("AUTO Refill for Apples") == Ignored
    ensures OnMessage("AUTO refill for Apples") == ActionNoted
  {
    NotContainsFirstChar("AUTO Refill for Apples", "Product:");
    NotContainsFirstChar("AUTO refill for Apples", "Product:");
    var m := "AUTO Refill for Apples";
    assert forall i | 0 <= i <= |m| :: !OccursAt(m, "refill", i) by {
      forall i | 0 <= i <= |m| ensures !OccursAt(m, "refill", i) {
        if i + 6 <= |m| { assert m[i..i + 6][0] == m[i]; assert m[i..i + 6][1] == m[i + 1]; }
      }
    }
    assert OccursAt("AUTO refill for Apples", "refill", 5);
  }
}
