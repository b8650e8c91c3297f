/**
 * Loading a rule list (`rules_load`): every line is stripped, blank lines and
 * `#` comments are skipped, and every other line is split at its first two
 * commas into the three fields `(style, value, option)`, missing trailing
 * fields being "".
 */
module Rules {
  import opened Optional
  import opened Text

  /** One rule line. `option` is only ever compared with "no-resolve". */
  datatype Rule = Rule(style: string, value: string, option: string)

  /** The record as the tuple of its three fields. */
  function Fields(r: Rule): seq<string> {
    [r.style, r.value, r.option]
  }

  /** A stripped line carries a rule unless it is empty or starts with `#`. */
  predicate IsRuleLine(t: string) {
    t != [] && t[0] != '#'
  }

  /** An input line carries a rule when its stripped form does. */
  predicate CarriesRule(line: string) {
    IsRuleLine(Strip(line))
  }

  /** `parts` right-padded with "" up to three fields. */
  function Padded(parts: seq<string>): (r: seq<string>)
    requires |parts| <= 3
    ensures |r| == 3 && r[..|parts|] == parts
    ensures forall i :: |parts| <= i < 3 ==> r[i] == ""
  {
    parts + seq(3 - |parts|, _ => "")
  }

  /** The record one input line yields, if any. */
  function ParseLine(line: string): (r: Option<Rule>)
    ensures r.Some? <==> CarriesRule(line)
  {
    var t := Strip(line);
    if !IsRuleLine(t) then None
    else
      var f := Padded(Split(t, ',', 2));
      Some(Rule(f[0], f[1], f[2]))
  }

  /** The records of a whole file, one per rule line, in file order. */
  function ParseLines(lines: seq<string>): seq<Rule> {
    if lines == [] then []
    else
      ParseLines(lines[..|lines| - 1])
      + match ParseLine(lines[|lines| - 1]) case None => [] case Some(r) => [r]
  }

  /** The padding loop of `rules_load`: append "" until there are three fields. */
  method PadFields(split: seq<string>) returns (parts: seq<string>)
    requires |split| <= 3
    ensures parts == Padded(split)
  {
    parts := split;
    while |parts| < 3
      invariant |split| <= |parts| <= 3
      invariant parts == Padded(split)[..|parts|]
    {
      parts := parts + [""];
    }
  }

  /** `rules_load`, on the file's text already cut into lines. */
  method LoadRules(lines: seq<string>) returns (ruleData: seq<Rule>)
    ensures ruleData == ParseLines(lines)
  {
    ruleData := [];
    for n := 0 to |lines|
      invariant ruleData == ParseLines(lines[..n])
    {
      assert lines[..n + 1][..n] == lines[..n];
      var line := Strip(lines[n]);
      if line == [] || line[0] == '#' {
        assert ParseLine(lines[n]) == None;
        continue;
      }
      var parts := PadFields(Split(line, ',', 2));
      assert ParseLine(lines[n]) == Some(Rule(parts[0], parts[1], parts[2]));
      ruleData := ruleData + [Rule(parts[0], parts[1], parts[2])];
    }
    assert lines[..|lines|] == lines;
  }

  /** For each line of a file, whether it carries a rule. */
  function RuleMarks(lines: seq<string>): (marks: seq<bool>)
    ensures |marks| == |lines|
    ensures forall i :: 0 <= i < |lines| ==> marks[i] == CarriesRule(lines[i])
  {
    seq(|lines|, i requires 0 <= i < |lines| => CarriesRule(lines[i]))
  }

  /** The positions holding `true`, in increasing order. */
  function Positions(marks: seq<bool>): seq<nat> {
    if marks == [] then []
    else
      Positions(marks[..|marks| - 1]) + if marks[|marks| - 1] then [|marks| - 1] else []
  }

  /** The positions of the rule lines of a file, in increasing order. */
  function RuleLineIndices(lines: seq<string>): seq<nat> {
    Positions(RuleMarks(lines))
  }

  /** The positions are in range, increasing, and are exactly those holding `true`. */
  lemma {:induction false} PositionsSpec(marks: seq<bool>)
    ensures var idx := Positions(marks);
      && (forall j :: 0 <= j < |idx| ==> idx[j] < |marks|)
      && (forall j, k :: 0 <= j < k < |idx| ==> idx[j] < idx[k])
      && (forall i :: 0 <= i < |marks| ==> (i in idx <==> marks[i]))
  {
    if marks != [] {
      var init := marks[..|marks| - 1];
      PositionsSpec(init);
      assert forall i :: 0 <= i < |init| ==> init[i] == marks[i];
    }
  }

  /** The rule-line positions are increasing, in range, and are exactly the lines that carry a rule. */
  lemma RuleLineIndicesSpec(lines: seq<string>)
    ensures var idx := RuleLineIndices(lines);
      && (forall j :: 0 <= j < |idx| ==> idx[j] < |lines|)
      && (forall j, k :: 0 <= j < k < |idx| ==> idx[j] < idx[k])
      && (forall i :: 0 <= i < |lines| ==> (i in idx <==> CarriesRule(lines[i])))
  {
    PositionsSpec(RuleMarks(lines));
  }

  /** The parse of each line of a file. */
  function Parses(lines: seq<string>): (ps: seq<Option<Rule>>)
    ensures |ps| == |lines|
    ensures forall i :: 0 <= i < |lines| ==> ps[i] == ParseLine(lines[i])
  {
    seq(|lines|, i requires 0 <= i < |lines| => ParseLine(lines[i]))
  }

  /** The records carried by a sequence of parses, in order. */
  function Somes(ps: seq<Option<Rule>>): seq<Rule> {
    if ps == [] then []
    else Somes(ps[..|ps| - 1]) + match ps[|ps| - 1] case None => [] case Some(r) => [r]
  }

  /** The records of a file are those its lines' parses carry. */
  lemma {:induction false} ParseLinesSomes(lines: seq<string>)
    ensures ParseLines(lines) == Somes(Parses(lines))
  {
    if lines != [] {
      ParseLinesSomes(lines[..|lines| - 1]);
      assert Parses(lines)[..|lines| - 1] == Parses(lines[..|lines| - 1]);
    }
  }

  /** The j-th carried record is the one at the j-th position whose parse carries one. */
  lemma {:induction false} SomesAt(ps: seq<Option<Rule>>, marks: seq<bool>)
    requires |marks| == |ps|
    requires forall i :: 0 <= i < |ps| ==> marks[i] == ps[i].Some?
    ensures var idx := Positions(marks);
      && |Somes(ps)| == |idx|
      && (forall j :: 0 <= j < |idx| ==> idx[j] < |ps| && ps[idx[j]] == Some(Somes(ps)[j]))
  {
    if ps != [] {
      var n := |ps| - 1;
      SomesAt(ps[..n], marks[..n]);
      PositionsSpec(marks[..n]);
    }
  }

  /** The j-th record is the parse of the line at the j-th rule-line position. */
  lemma ParseLinesAt(lines: seq<string>)
    ensures var idx := RuleLineIndices(lines);
      && |ParseLines(lines)| == |idx|
      && (forall j :: 0 <= j < |idx| ==> idx[j] < |lines| && ParseLine(lines[idx[j]]) == Some(ParseLines(lines)[j]))
  {
    ParseLinesSomes(lines);
    SomesAt(Parses(lines), RuleMarks(lines));
  }

  /**
   * Records and rule lines correspond one to one and in the same order: the
   * j-th record is the parse of the j-th rule line, and a line is a rule line
   * exactly when its stripped form is non-empty and not a comment.
   */
  lemma ParseLinesOrder(lines: seq<string>)
    ensures var idx := RuleLineIndices(lines);
      && |ParseLines(lines)| == |idx|
      && (forall j :: 0 <= j < |idx| ==> idx[j] < |lines| && ParseLine(lines[idx[j]]) == Some(ParseLines(lines)[j]))
      && (forall j, k :: 0 <= j < k < |idx| ==> idx[j] < idx[k])
      && (forall i :: 0 <= i < |lines| ==> (i in idx <==> CarriesRule(lines[i])))
  {
    RuleLineIndicesSpec(lines);
    ParseLinesAt(lines);
  }

  /** Parsing two pieces of a file separately gives the records of the whole file. */
  lemma {:induction false} ParseLinesAppend(a: seq<string>, b: seq<string>)
    ensures ParseLines(a + b) == ParseLines(a) + ParseLines(b)
  {
    if b == [] {
      assert a + b == a;
    } else {
      var init := b[..|b| - 1];
      assert (a + b)[..|a + b| - 1] == a + init;
      ParseLinesAppend(a, init);
    }
  }

  /**
   * The split/join round trip: with k = min(#commas, 2) + 1, joining the first
   * k fields with "," rebuilds the stripped line, the padded fields are "",
   * the style never holds a comma, and the value holds one only when it is
   * the last field (the option keeps every comma after the second).
   */
  lemma ParseLineRoundTrip(line: string)
    requires ParseLine(line).Some?
    ensures var t := Strip(line);
            var r := ParseLine(line).value;
            var k := Min(CountChar(t, ','), 2) + 1;
      && Join(Fields(r)[..k], ',') == t
      && (forall i :: k <= i < 3 ==> Fields(r)[i] == "")
      && ',' !in r.style
      && (k == 3 ==> ',' !in r.value)
  {
    var t := Strip(line);
    var parts := Split(t, ',', 2);
    SplitCount(t, ',', 2);
    SplitJoin(t, ',', 2);
    SplitSeparators(t, ',', 2);
    assert Fields(ParseLine(line).value) == Padded(parts);
  }

  /** Every record comes from some line of the file. */
  lemma {:induction false} ParsedFrom(lines: seq<string>, r: Rule)
    requires r in ParseLines(lines)
    ensures exists i :: 0 <= i < |lines| && ParseLine(lines[i]) == Some(r)
  {
    var init := lines[..|lines| - 1];
    if r in ParseLines(init) {
      ParsedFrom(init, r);
      var i :| 0 <= i < |init| && ParseLine(init[i]) == Some(r);
      assert lines[i] == init[i];
    } else {
      assert ParseLine(lines[|lines| - 1]) == Some(r);
    }
  }

  /** A character that the split text does not hold is in no padded field. */
  lemma PaddedAvoid(t: string, c: char)
    requires c !in t
    ensures forall i :: 0 <= i < 3 ==> c !in Padded(Split(t, ',', 2))[i]
  {
    var parts := Split(t, ',', 2);
    SplitJoin(t, ',', 2);
    JoinAvoid(parts, ',', c);
  }

  /** A character that a line does not hold is in no field of the line's record. */
  lemma FieldsAvoid(line: string, c: char)
    requires ParseLine(line).Some? && c !in line
    ensures var r := ParseLine(line).value;
      c !in r.style && c !in r.value && c !in r.option
  {
    StripAvoid(line, c);
    PaddedAvoid(Strip(line), c);
    assert Fields(ParseLine(line).value) == Padded(Split(Strip(line), ',', 2));
  }

  /** A character that no line of the file holds occurs in no field of any record. */
  lemma ParsedFieldsAvoid(lines: seq<string>, c: char)
    requires forall i :: 0 <= i < |lines| ==> c !in lines[i]
    ensures forall r :: r in ParseLines(lines) ==> c !in r.style && c !in r.value && c !in r.option
  {
    forall r | r in ParseLines(lines)
      ensures c !in r.style && c !in r.value && c !in r.option
    {
      ParsedFrom(lines, r);
      var i :| 0 <= i < |lines| && ParseLine(lines[i]) == Some(r);
      FieldsAvoid(lines[i], c);
    }
  }
}
