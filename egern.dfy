/**
 * The Egern converter (`process_egern` and the Egern branch of
 * `rules_write`): recognised records are grouped by output key, wildcard
 * values are quoted, and the groups are laid out as a YAML-like list under a
 * two-line comment header giving the rule set's name and its number of rules.
 */
module Egern {
  import opened Text
  import opened Rules
  import opened Grouping
  import opened StyleMap

  /** `EGERN_RULE_MAP`: input style to Egern key. */
  const EgernRuleMap: StyleTable := map[
    "DOMAIN" := "domain_set",
    "DOMAIN-SUFFIX" := "domain_suffix_set",
    "DOMAIN-KEYWORD" := "domain_keyword_set",
    "DOMAIN-WILDCARD" := "domain_wildcard_set",
    "IP-CIDR" := "ip_cidr_set",
    "IP-CIDR6" := "ip_cidr6_set"
  ]

  /** `EGERN_RULE_QUOTE`: the keys whose values are written inside double quotes. */
  const EgernRuleQuote: set<string> := {"domain_wildcard_set"}

  /** The line that opens the output when some recognised record asks for no-resolve. */
  const NoResolveLine := "no_resolve: true"

  /** The prefix of every list-item line; `rule_count` counts the lines that start with it. */
  const ItemPrefix := "  - "

  /** `f'"{value}"' if rule_type in EGERN_RULE_QUOTE else value`. */
  function FormatValue(key: string, value: string): string {
    if key in EgernRuleQuote then "\"" + value + "\"" else value
  }

  /**
   * Only `domain_wildcard_set` values are quoted, every other value is kept
   * as it is, and the quoted key is one the table produces.
   */
  lemma EgernQuoting(key: string, value: string)
    ensures FormatValue(key, value) == "\"" + value + "\"" <==> key == "domain_wildcard_set"
    ensures FormatValue(key, value) == value <==> key != "domain_wildcard_set"
    ensures forall k :: k in EgernRuleQuote ==> k in EgernRuleMap.Values
  {
    assert EgernRuleMap["DOMAIN-WILDCARD"] == "domain_wildcard_set";
  }

  /** The final value of the `no_resolve` flag: some recognised record has option exactly "no-resolve". */
  predicate NoResolve(rules: seq<Rule>) {
    exists r :: r in rules && r.style in EgernRuleMap && r.option == "no-resolve"
  }

  /** The `rule_data` dictionary after the first loop. */
  function EgernGroups(rules: seq<Rule>): seq<Group> {
    StyleGroups(rules, EgernRuleMap, FormatValue)
  }

  /** The first lines of `output`: the no-resolve marker, if the flag is set. */
  function Marker(noResolve: bool): seq<string> {
    if noResolve then [NoResolveLine] else []
  }

  /** `f"  - {value}"` for each value. */
  function ItemLines(values: seq<string>): seq<string> {
    seq(|values|, i requires 0 <= i < |values| => ItemPrefix + values[i])
  }

  /** Each group as its `key:` line followed by its item lines, groups in dictionary order. */
  function RenderGroups(groups: seq<Group>): seq<string> {
    if groups == [] then []
    else
      var g := groups[|groups| - 1];
      RenderGroups(groups[..|groups| - 1]) + [g.key + ":"] + ItemLines(g.values)
  }

  /** The `output` lines `process_egern` writes for a list of records. */
  function EgernLines(rules: seq<Rule>): seq<string> {
    Marker(NoResolve(rules)) + RenderGroups(EgernGroups(rules))
  }

  predicate StartsWith(s: string, prefix: string) {
    |prefix| <= |s| && s[..|prefix|] == prefix
  }

  /** `sum(line.startswith("  - ") for line in output)`. */
  function CountItems(lines: seq<string>): nat {
    if lines == [] then 0
    else CountItems(lines[..|lines| - 1]) + if StartsWith(lines[|lines| - 1], ItemPrefix) then 1 else 0
  }

  /** The first header line of the Egern file. */
  function NameLine(name: string): string {
    "# 规则名称: " + name
  }

  /** The second header line of the Egern file. */
  function CountLine(count: nat): string {
    "# 规则统计: " + NatToString(count)
  }

  /** The text `rules_write` writes for Egern: two header lines, a blank line, then every output line, each ended by "\n". */
  function EgernText(name: string, count: nat, output: seq<string>): string {
    NameLine(name) + "\n" + CountLine(count) + "\n\n" + Terminated(output)
  }

  /**
   * The first loop of `process_egern`: fill the dictionary with the rendered
   * values of the recognised records and OR together their no-resolve options.
   */
  method CollectEgern(parsed: seq<Rule>) returns (ruleData: seq<Group>, noResolve: bool)
    ensures ruleData == EgernGroups(parsed)
    ensures noResolve == NoResolve(parsed)
  {
    ruleData, noResolve := [], false;
    for n := 0 to |parsed|
      invariant ruleData == EgernGroups(parsed[..n])
      invariant noResolve == NoResolve(parsed[..n])
    {
      var rule := parsed[n];
      EgernStep(parsed, n);
      if rule.style in EgernRuleMap {
        noResolve := noResolve || rule.option == "no-resolve";
        var ruleType := EgernRuleMap[rule.style];
        var ruleValue := if ruleType in EgernRuleQuote then "\"" + rule.value + "\"" else rule.value;
        ruleData := Append(ruleData, ruleType, ruleValue);
      }
    }
    assert parsed[..|parsed|] == parsed;
  }

  /**
   * The second loop of `process_egern`: the marker line if the flag is set,
   * then each group's `key:` line followed by one item line per value.
   */
  method RenderEgern(ruleData: seq<Group>, noResolve: bool) returns (output: seq<string>)
    ensures output == Marker(noResolve) + RenderGroups(ruleData)
  {
    output := if noResolve then [NoResolveLine] else [];
    for n := 0 to |ruleData|
      invariant output == Marker(noResolve) + RenderGroups(ruleData[..n])
    {
      RenderStep(Marker(noResolve), ruleData, n);
      output := output + [ruleData[n].key + ":"];
      output := output + ItemLines(ruleData[n].values);
    }
    assert ruleData[..|ruleData|] == ruleData;
  }

  /**
   * `process_egern` on the file's lines and its stem `name`, returning the
   * text it writes and the count in its header.
   */
  method ProcessEgern(name: string, lines: seq<string>) returns (text: string, ruleCount: nat)
    ensures ruleCount == |Recognised(ParseLines(lines), EgernRuleMap)|
    ensures text == EgernText(name, ruleCount, EgernLines(ParseLines(lines)))
  {
    var parsed := LoadRules(lines);
    var ruleData, noResolve := CollectEgern(parsed);
    var output := RenderEgern(ruleData, noResolve);
    ruleCount := CountItems(output);
    EgernRuleCount(parsed);
    text := EgernText(name, ruleCount, output);
  }

  lemma {:induction false} CountItemsAppend(a: seq<string>, b: seq<string>)
    ensures CountItems(a + b) == CountItems(a) + CountItems(b)
  {
    if b == [] {
      assert a + b == a;
    } else {
      assert (a + b)[..|a + b| - 1] == a + b[..|b| - 1];
      CountItemsAppend(a, b[..|b| - 1]);
    }
  }

  /** Every item line is counted. */
  lemma {:induction false} CountItemLines(values: seq<string>)
    ensures CountItems(ItemLines(values)) == |values|
  {
    if values != [] {
      var init := values[..|values| - 1];
      CountItemLines(init);
      assert ItemLines(values)[..|values| - 1] == ItemLines(init);
      assert StartsWith(ItemLines(values)[|values| - 1], ItemPrefix);
    }
  }

  /** A key line is not counted when the key does not start with a space. */
  lemma {:induction false} CountRendered(groups: seq<Group>)
    requires forall i :: 0 <= i < |groups| ==> groups[i].key == [] || groups[i].key[0] != ' '
    ensures CountItems(RenderGroups(groups)) == TotalValues(groups)
  {
    if groups != [] {
      var init := groups[..|groups| - 1];
      var g := groups[|groups| - 1];
      CountRendered(init);
      CountItemsAppend(RenderGroups(init) + [g.key + ":"], ItemLines(g.values));
      CountItemsAppend(RenderGroups(init), [g.key + ":"]);
      assert !StartsWith(g.key + ":", ItemPrefix) by {
        assert (g.key + ":")[0] != ' ';
      }
      assert CountItems([g.key + ":"]) == 0 by {
        assert [g.key + ":"][..0] == [];
      }
      CountItemLines(g.values);
    }
  }

  /** One step of the second loop of `process_egern`. */
  lemma RenderStep(pre: seq<string>, groups: seq<Group>, n: nat)
    requires n < |groups|
    ensures pre + RenderGroups(groups[..n + 1]) == pre + RenderGroups(groups[..n]) + [groups[n].key + ":"] + ItemLines(groups[n].values)
  {
    assert groups[..n + 1][..n] == groups[..n];
  }

  /** The marker line is not an item line. */
  lemma MarkerCount(noResolve: bool)
    ensures CountItems(Marker(noResolve)) == 0
  {
    if noResolve {
      assert [NoResolveLine][..0] == [];
      assert NoResolveLine[0] != ItemPrefix[0];
    }
  }

  /** The Egern keys are six fixed names, none starting with a space. */
  lemma EgernKeys()
    ensures forall k :: k in EgernRuleMap.Values ==> k != [] && k[0] != ' ' && '\n' !in k
  {
    forall k | k in EgernRuleMap.Values
      ensures k != [] && k[0] != ' ' && '\n' !in k
    {
      var s :| s in EgernRuleMap && EgernRuleMap[s] == k;
    }
  }

  /** Every Egern group's key is one of the table's keys. */
  lemma EgernGroupKeys(rules: seq<Rule>)
    ensures forall i :: 0 <= i < |EgernGroups(rules)| ==> EgernGroups(rules)[i].key in EgernRuleMap.Values
  {
    var gs := EgernGroups(rules);
    StyleGroupsSpec(rules, EgernRuleMap, FormatValue);
    FirstSeenSpec(MappedKeys(rules, EgernRuleMap));
    assert forall i :: 0 <= i < |gs| ==> gs[i].key in Keys(gs);
  }

  /** One step of the first loop of `process_egern`. */
  lemma EgernStep(rules: seq<Rule>, n: nat)
    requires n < |rules|
    ensures var r := rules[n];
      && NoResolve(rules[..n + 1]) == (NoResolve(rules[..n]) || (r.style in EgernRuleMap && r.option == "no-resolve"))
      && EgernGroups(rules[..n + 1])
         == if r.style in EgernRuleMap
            then Append(EgernGroups(rules[..n]), EgernRuleMap[r.style], FormatValue(EgernRuleMap[r.style], r.value))
            else EgernGroups(rules[..n])
  {
    var r := rules[n];
    assert rules[..n + 1] == rules[..n] + [r];
    assert rules[..n + 1][..n] == rules[..n];
    if r.style in EgernRuleMap {
      var pairs := KeyedPairs(rules[..n], EgernRuleMap, FormatValue);
      var k := EgernRuleMap[r.style];
      var pairs' := KeyedPairs(rules[..n + 1], EgernRuleMap, FormatValue);
      assert pairs' == pairs + [(k, FormatValue(k, r.value))];
      assert pairs'[..|pairs|] == pairs;
      assert EgernGroups(rules[..n + 1]) == Append(GroupBy(pairs), k, FormatValue(k, r.value));
      assert EgernGroups(rules[..n]) == GroupBy(pairs);
    } else {
      assert KeyedPairs(rules[..n + 1], EgernRuleMap, FormatValue) == KeyedPairs(rules[..n], EgernRuleMap, FormatValue);
    }
  }

  /** `rule_count`, the number of item lines, is the number of recognised records. */
  lemma EgernRuleCount(rules: seq<Rule>)
    ensures CountItems(EgernLines(rules)) == |Recognised(rules, EgernRuleMap)|
  {
    var gs := EgernGroups(rules);
    StyleGroupsSpec(rules, EgernRuleMap, FormatValue);
    EgernGroupKeys(rules);
    EgernKeys();
    CountRendered(gs);
    CountItemsAppend(Marker(NoResolve(rules)), RenderGroups(gs));
    MarkerCount(NoResolve(rules));
  }

  /** Every rendered line is a `key:` line, ending in ':', or an item line, starting with a space. */
  lemma {:induction false} RenderedLineShape(groups: seq<Group>, l: string)
    requires l in RenderGroups(groups)
    ensures |l| > 0 && (l[|l| - 1] == ':' || l[0] == ' ')
  {
    var init := groups[..|groups| - 1];
    var g := groups[|groups| - 1];
    if l in RenderGroups(init) {
      RenderedLineShape(init, l);
    } else if l != g.key + ":" {
      var j :| 0 <= j < |ItemLines(g.values)| && ItemLines(g.values)[j] == l;
      assert l == ItemPrefix + g.values[j];
    }
  }

  /** A character that no key or value holds, and that is not ':', ' ' or '-', is in no rendered line. */
  lemma {:induction false} RenderedAvoid(groups: seq<Group>, c: char)
    requires c != ':' && c != ' ' && c != '-'
    requires forall i :: 0 <= i < |groups| ==> c !in groups[i].key
    requires forall i, v :: 0 <= i < |groups| && v in groups[i].values ==> c !in v
    ensures forall l :: l in RenderGroups(groups) ==> c !in l
  {
    if groups != [] {
      var init := groups[..|groups| - 1];
      var g := groups[|groups| - 1];
      RenderedAvoid(init, c);
      forall l | l in [g.key + ":"] + ItemLines(g.values)
        ensures c !in l
      {
        if l != g.key + ":" {
          var j :| 0 <= j < |ItemLines(g.values)| && ItemLines(g.values)[j] == l;
          assert g.values[j] in g.values;
        }
      }
    }
  }

  /**
   * The output starts with `no_resolve: true` exactly when some recognised
   * record has option "no-resolve"; otherwise that line appears nowhere.
   */
  lemma EgernMarker(rules: seq<Rule>)
    ensures var out := EgernLines(rules);
      && (NoResolve(rules) <==> |out| > 0 && out[0] == NoResolveLine)
      && (!NoResolve(rules) ==> NoResolveLine !in out)
  {
    var gs := EgernGroups(rules);
    forall l | l in RenderGroups(gs)
      ensures l != NoResolveLine
    {
      RenderedLineShape(gs, l);
    }
    if !NoResolve(rules) {
      var out := EgernLines(rules);
      assert out == RenderGroups(gs);
      assert |out| > 0 ==> out[0] in RenderGroups(gs);
    }
  }

  /** The rendered form of the raw values of one key: quoted for the wildcard key, unchanged otherwise. */
  predicate QuotedAs(key: string, raw: seq<string>, values: seq<string>) {
    && |values| == |raw|
    && forall j :: 0 <= j < |raw| ==>
         values[j] == if key == "domain_wildcard_set" then "\"" + raw[j] + "\"" else raw[j]
  }

  /**
   * The Egern groups: one per Egern key, in order of the key's first use;
   * each holds, in input order, the values of the recognised records mapped
   * to it, in double quotes for `domain_wildcard_set` and as they are for
   * every other key.
   */
  lemma EgernGrouping(rules: seq<Rule>)
    ensures var gs := EgernGroups(rules);
      && Keys(gs) == FirstSeen(MappedKeys(rules, EgernRuleMap))
      && Distinct(Keys(gs))
      && forall i :: 0 <= i < |gs| ==> QuotedAs(gs[i].key, MappedValues(rules, EgernRuleMap, gs[i].key), gs[i].values)
  {
    StyleGroupsSpec(rules, EgernRuleMap, FormatValue);
    var gs := EgernGroups(rules);
    forall i | 0 <= i < |gs|
      ensures QuotedAs(gs[i].key, MappedValues(rules, EgernRuleMap, gs[i].key), gs[i].values)
    {
      var raw := MappedValues(rules, EgernRuleMap, gs[i].key);
      assert forall j :: 0 <= j < |raw| ==> gs[i].values[j] == FormatValue(gs[i].key, raw[j]);
    }
  }

  /**
   * A record with an unknown style changes nothing: neither the lines nor the
   * no-resolve flag, wherever it stands in the input.
   */
  lemma EgernIgnoresUnknown(a: seq<Rule>, r: Rule, b: seq<Rule>)
    requires r.style !in EgernRuleMap
    ensures NoResolve(a + [r] + b) == NoResolve(a + b)
    ensures EgernLines(a + [r] + b) == EgernLines(a + b)
  {
    UnrecognisedIgnored(a, r, b, EgernRuleMap, FormatValue);
    assert forall x :: x in a + [r] + b <==> x in a + b || x == r;
  }

  /** A character that no recognised record's value holds, other than '"', is in no Egern value. */
  lemma EgernValuesAvoid(rules: seq<Rule>, c: char, i: nat, v: string)
    requires c != '"'
    requires forall r :: r in rules ==> c !in r.value
    requires i < |EgernGroups(rules)| && v in EgernGroups(rules)[i].values
    ensures c !in v
  {
    var gs := EgernGroups(rules);
    StyleGroupsSpec(rules, EgernRuleMap, FormatValue);
    var raw := MappedValues(rules, EgernRuleMap, gs[i].key);
    var j :| 0 <= j < |gs[i].values| && gs[i].values[j] == v;
    assert raw[j] in raw;
    assert v == FormatValue(gs[i].key, raw[j]);
  }

  /** No output line holds a newline when no recognised record's value does. */
  lemma EgernRulesAvoidNewline(rules: seq<Rule>)
    requires forall r :: r in rules ==> '\n' !in r.value
    ensures forall l :: l in EgernLines(rules) ==> '\n' !in l
  {
    var gs := EgernGroups(rules);
    EgernGroupKeys(rules);
    EgernKeys();
    forall i, v | 0 <= i < |gs| && v in gs[i].values
      ensures '\n' !in v
    {
      EgernValuesAvoid(rules, '\n', i, v);
    }
    RenderedAvoid(gs, '\n');
  }

  /** No line of the output holds a newline when no input line does. */
  lemma EgernLinesAvoidNewline(lines: seq<string>)
    requires forall i :: 0 <= i < |lines| ==> '\n' !in lines[i]
    ensures forall l :: l in EgernLines(ParseLines(lines)) ==> '\n' !in l
  {
    ParsedFieldsAvoid(lines, '\n');
    EgernRulesAvoidNewline(ParseLines(lines));
  }

  /**
   * The Egern file read back line by line: the name line, the count line, a
   * blank line, then the output lines, as long as neither the name nor any
   * output line holds a newline.
   */
  lemma EgernTextLines(name: string, count: nat, output: seq<string>)
    requires '\n' !in name
    requires forall i :: 0 <= i < |output| ==> '\n' !in output[i]
    ensures SplitLines(EgernText(name, count, output)) == [NameLine(name), CountLine(count), ""] + output
  {
    var all := [NameLine(name), CountLine(count), ""] + output;
    assert all[1..] == [CountLine(count), ""] + output;
    assert all[1..][1..] == [""] + output;
    assert all[1..][1..][1..] == output;
    assert Terminated(all[1..][1..]) == "" + "\n" + Terminated(output);
    assert Terminated(all[1..]) == CountLine(count) + "\n" + Terminated(all[1..][1..]);
    assert Terminated(all) == NameLine(name) + "\n" + Terminated(all[1..]);
    assert EgernText(name, count, output) == Terminated(all);
    SplitTerminated(all);
  }

  /**
   * What `process_egern` writes, read back line by line, is its header (the
   * rule set's name, and the number of recognised records in decimal) and a
   * blank line, followed by the output lines.
   */
  lemma EgernFileLayout(name: string, lines: seq<string>)
    requires '\n' !in name
    requires forall i :: 0 <= i < |lines| ==> '\n' !in lines[i]
    ensures var rules := ParseLines(lines);
            var count := |Recognised(rules, EgernRuleMap)|;
            var text := EgernText(name, count, EgernLines(rules));
      && SplitLines(text) == [NameLine(name), CountLine(count), ""] + EgernLines(rules)
      && DecimalValue(NatToString(count)) == count
  {
    var rules := ParseLines(lines);
    var count := |Recognised(rules, EgernRuleMap)|;
    EgernLinesAvoidNewline(lines);
    EgernTextLines(name, count, EgernLines(rules));
    DecimalRoundTrip(count);
  }

  /** The grouped values do not depend on the option field; only the no-resolve flag reads it. */
  lemma EgernGroupsIgnoreOption(rs: seq<Rule>, rs': seq<Rule>)
    requires |rs| == |rs'|
    requires forall i :: 0 <= i < |rs| ==> rs[i].style == rs'[i].style && rs[i].value == rs'[i].value
    ensures EgernGroups(rs) == EgernGroups(rs')
  {
    KeyedPairsIgnoreOption(rs, rs', EgernRuleMap, FormatValue);
  }

  lemma RenderTwo(g: Group, h: Group)
    ensures RenderGroups([g, h]) == [g.key + ":"] + ItemLines(g.values) + [h.key + ":"] + ItemLines(h.values)
  {
    assert [g, h][..1] == [g];
    assert [g][..0] == [];
    assert RenderGroups([g]) == [g.key + ":"] + ItemLines(g.values);
  }

  lemma ItemLinesOne(v: string)
    ensures ItemLines([v]) == [ItemPrefix + v]
  {
    assert ItemLines([v])[0] == ItemPrefix + v;
  }

  /** The groups of the worked case below. */
  lemma EgernExampleGroups(v: string, w: string, opt: string)
    ensures EgernGroups([Rule("DOMAIN", v, opt), Rule("DOMAIN-SUFFIX", w, "no-resolve")])
         == [Group("domain_set", [v]), Group("domain_suffix_set", [w])]
  {
    var a, b := Rule("DOMAIN", v, opt), Rule("DOMAIN-SUFFIX", w, "no-resolve");
    KeyedPairsTwo(a, b, EgernRuleMap, FormatValue);
    assert EgernRuleMap[a.style] == "domain_set" && EgernRuleMap[b.style] == "domain_suffix_set";
    assert FormatValue("domain_set", v) == v && FormatValue("domain_suffix_set", w) == w;
    GroupByTwo(("domain_set", v), ("domain_suffix_set", w));
  }

  /**
   * A worked case: a DOMAIN record with any option and a DOMAIN-SUFFIX
   * record with no-resolve give the marker line and two groups of one item,
   * the values unquoted.
   */
  lemma EgernExample(v: string, w: string, opt: string)
    ensures EgernLines([Rule("DOMAIN", v, opt), Rule("DOMAIN-SUFFIX", w, "no-resolve")])
         == [NoResolveLine, "domain_set" + ":", ItemPrefix + v, "domain_suffix_set" + ":", ItemPrefix + w]
  {
    var a, b := Rule("DOMAIN", v, opt), Rule("DOMAIN-SUFFIX", w, "no-resolve");
    var g, h := Group("domain_set", [v]), Group("domain_suffix_set", [w]);
    calc {
      EgernLines([a, b]);
      { assert b in [a, b]; }
      [NoResolveLine] + RenderGroups(EgernGroups([a, b]));
      { EgernExampleGroups(v, w, opt); }
      [NoResolveLine] + RenderGroups([g, h]);
      { RenderTwo(g, h); ItemLinesOne(v); ItemLinesOne(w); }
      [NoResolveLine, g.key + ":", ItemPrefix + v, h.key + ":", ItemPrefix + w];
    }
  }
}
