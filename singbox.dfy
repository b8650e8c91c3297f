/**
 * The Sing-box converter (`process_singbox`): recognised records are grouped
 * by output key, values kept as they are, into the rule-set document
 * `{"version": 3, "rules": [{key: [values...]}, ...]}`.
 */
module Singbox {
  import opened Rules
  import opened Grouping
  import opened StyleMap
  import Egern

  /**
   * `SINGBOX_RULE_MAP`: input style to Sing-box key. There is no entry for
   * DOMAIN-WILDCARD, and both CIDR styles share `ip_cidr`.
   */
  const SingboxRuleMap: StyleTable := map[
    "DOMAIN" := "domain",
    "DOMAIN-SUFFIX" := "domain_suffix",
    "DOMAIN-KEYWORD" := "domain_keyword",
    "IP-CIDR" := "ip_cidr",
    "IP-CIDR6" := "ip_cidr"
  ]

  /** The rule-set format version written into every document. */
  const RuleSetVersion := 3

  /**
   * The document `process_singbox` hands to `json.dump`. Each group stands
   * for one single-key object `{key: values}` of the "rules" array.
   */
  datatype RuleSet = RuleSet(version: int, rules: seq<Group>)

  /** Sing-box keeps values as they are. */
  function Raw(key: string, value: string): string {
    value
  }

  /** The `rule_data` dictionary after the loop. */
  function SingboxGroups(rules: seq<Rule>): seq<Group> {
    StyleGroups(rules, SingboxRuleMap, Raw)
  }

  /** The document `process_singbox` builds for a list of records. */
  function SingboxOutput(rules: seq<Rule>): RuleSet {
    RuleSet(RuleSetVersion, SingboxGroups(rules))
  }

  /** The values of the IPv4 and IPv6 CIDR records, in input order. */
  function CidrValues(rules: seq<Rule>): seq<string> {
    if rules == [] then []
    else
      var r := rules[|rules| - 1];
      CidrValues(rules[..|rules| - 1]) + if r.style == "IP-CIDR" || r.style == "IP-CIDR6" then [r.value] else []
  }

  /** One step of the loop of `process_singbox`. */
  lemma SingboxStep(rules: seq<Rule>, n: nat)
    requires n < |rules|
    ensures var r := rules[n];
      SingboxGroups(rules[..n + 1])
      == if r.style in SingboxRuleMap
         then Append(SingboxGroups(rules[..n]), SingboxRuleMap[r.style], r.value)
         else SingboxGroups(rules[..n])
  {
    var r := rules[n];
    assert rules[..n + 1][..n] == rules[..n];
    var pairs := KeyedPairs(rules[..n], SingboxRuleMap, Raw);
    if r.style in SingboxRuleMap {
      var k := SingboxRuleMap[r.style];
      var pairs' := KeyedPairs(rules[..n + 1], SingboxRuleMap, Raw);
      assert pairs' == pairs + [(k, r.value)];
      assert pairs'[..|pairs|] == pairs;
      assert SingboxGroups(rules[..n + 1]) == Append(GroupBy(pairs), k, r.value);
    } else {
      assert KeyedPairs(rules[..n + 1], SingboxRuleMap, Raw) == pairs;
    }
  }

  /** The loop of `process_singbox`: append each recognised record's value under its key. */
  method CollectSingbox(parsed: seq<Rule>) returns (ruleData: seq<Group>)
    ensures ruleData == SingboxGroups(parsed)
  {
    ruleData := [];
    for n := 0 to |parsed|
      invariant ruleData == SingboxGroups(parsed[..n])
    {
      var rule := parsed[n];
      SingboxStep(parsed, n);
      if rule.style in SingboxRuleMap {
        var ruleType := SingboxRuleMap[rule.style];
        ruleData := Append(ruleData, ruleType, rule.value);
      }
    }
    assert parsed[..|parsed|] == parsed;
  }

  /** `process_singbox` on the file's lines, returning the document it serialises. */
  method ProcessSingbox(lines: seq<string>) returns (output: RuleSet)
    ensures output.version == 3
    ensures output == SingboxOutput(ParseLines(lines))
  {
    var parsed := LoadRules(lines);
    var ruleData := CollectSingbox(parsed);
    var ruleList := seq(|ruleData|, i requires 0 <= i < |ruleData| => Group(ruleData[i].key, ruleData[i].values));
    assert ruleList == ruleData;
    output := RuleSet(3, ruleList);
  }

  lemma RawValues(key: string, values: seq<string>)
    ensures Formatted(Raw, key, values) == values
  {
    assert forall i :: 0 <= i < |values| ==> Formatted(Raw, key, values)[i] == Raw(key, values[i]);
  }

  /**
   * The document: version 3, and one single-key object per Sing-box key, in
   * order of the key's first use, holding in input order the raw values of
   * the recognised records mapped to it; as many values in all as there are
   * recognised records.
   */
  lemma SingboxStructure(rules: seq<Rule>)
    ensures var out := SingboxOutput(rules);
      && out.version == 3
      && Keys(out.rules) == FirstSeen(MappedKeys(rules, SingboxRuleMap))
      && Distinct(Keys(out.rules))
      && (forall i :: 0 <= i < |out.rules| ==> out.rules[i].values == MappedValues(rules, SingboxRuleMap, out.rules[i].key))
      && TotalValues(out.rules) == |Recognised(rules, SingboxRuleMap)|
  {
    StyleGroupsSpec(rules, SingboxRuleMap, Raw);
    var gs := SingboxGroups(rules);
    forall i | 0 <= i < |gs|
      ensures gs[i].values == MappedValues(rules, SingboxRuleMap, gs[i].key)
    {
      RawValues(gs[i].key, MappedValues(rules, SingboxRuleMap, gs[i].key));
    }
  }

  /** Sing-box recognises every style Egern does except DOMAIN-WILDCARD. */
  lemma SingboxStyles()
    ensures SingboxRuleMap.Keys == Egern.EgernRuleMap.Keys - {"DOMAIN-WILDCARD"}
  {
  }

  /** Exactly the two CIDR styles map to `ip_cidr`. */
  lemma CidrStyles(style: string)
    ensures (style in SingboxRuleMap && SingboxRuleMap[style] == "ip_cidr") <==> (style == "IP-CIDR" || style == "IP-CIDR6")
  {
  }

  lemma {:induction false} CidrMapped(rules: seq<Rule>)
    ensures MappedValues(rules, SingboxRuleMap, "ip_cidr") == CidrValues(rules)
  {
    if rules != [] {
      CidrMapped(rules[..|rules| - 1]);
      CidrStyles(rules[|rules| - 1].style);
    }
  }

  /**
   * IPv4 and IPv6 CIDR values are merged into the one `ip_cidr` list, in
   * input order; that object is present exactly when some CIDR record is.
   */
  lemma SingboxCidrMerge(rules: seq<Rule>)
    ensures var out := SingboxOutput(rules);
      && (forall i :: 0 <= i < |out.rules| && out.rules[i].key == "ip_cidr" ==> out.rules[i].values == CidrValues(rules))
      && ("ip_cidr" in Keys(out.rules) <==> CidrValues(rules) != [])
  {
    SingboxStructure(rules);
    CidrMapped(rules);
    MappedKeysValues(rules, SingboxRuleMap, "ip_cidr");
    FirstSeenSpec(MappedKeys(rules, SingboxRuleMap));
  }

  /**
   * DOMAIN-WILDCARD has no Sing-box key, and a record whose style has none
   * changes nothing in the document, wherever it stands in the input.
   */
  lemma SingboxDropsUnknown(a: seq<Rule>, r: Rule, b: seq<Rule>)
    requires r.style !in SingboxRuleMap
    ensures "DOMAIN-WILDCARD" !in SingboxRuleMap
    ensures SingboxOutput(a + [r] + b) == SingboxOutput(a + b)
  {
    UnrecognisedIgnored(a, r, b, SingboxRuleMap, Raw);
  }

  /** The option field is ignored: records that agree on style and value give the same document. */
  lemma SingboxIgnoresOption(rs: seq<Rule>, rs': seq<Rule>)
    requires |rs| == |rs'|
    requires forall i :: 0 <= i < |rs| ==> rs[i].style == rs'[i].style && rs[i].value == rs'[i].value
    ensures SingboxOutput(rs) == SingboxOutput(rs')
  {
    KeyedPairsIgnoreOption(rs, rs', SingboxRuleMap, Raw);
  }

  /**
   * A worked case: a DOMAIN line with an empty option and a DOMAIN-SUFFIX
   * line with no-resolve give two single-key objects with the raw values
   * and nothing about no-resolve.
   */
  lemma SingboxExample()
    ensures SingboxOutput([Rule("DOMAIN", "example.com", ""), Rule("DOMAIN-SUFFIX", "example.org", "no-resolve")])
         == RuleSet(3, [Group("domain", ["example.com"]), Group("domain_suffix", ["example.org"])])
  {
    var a, b := Rule("DOMAIN", "example.com", ""), Rule("DOMAIN-SUFFIX", "example.org", "no-resolve");
    KeyedPairsTwo(a, b, SingboxRuleMap, Raw);
    GroupByTwo(("domain", "example.com"), ("domain_suffix", "example.org"));
  }
}
