/**
 * Filtering records through a converter's style table (`EGERN_RULE_MAP` or
 * `SINGBOX_RULE_MAP`): a record whose style is a key of the table is
 * recognised and contributes one value, under the key the table maps its
 * style to; any other record contributes nothing. Only the exact style
 * string is looked up: fields are not stripped again, so "DOMAIN " is not
 * recognised.
 */
module StyleMap {
  import opened Rules
  import opened Grouping

  /** A converter's table from input style to output key. */
  type StyleTable = map<string, string>

  /** How a converter renders a recognised record's value, given its output key. */
  type Formatter = (string, string) -> string

  /** The recognised records, in input order. */
  function Recognised(rules: seq<Rule>, table: StyleTable): (rec: seq<Rule>)
    ensures |rec| <= |rules|
    ensures forall r :: r in rec <==> r in rules && r.style in table
  {
    if rules == [] then []
    else
      var init, r := rules[..|rules| - 1], rules[|rules| - 1];
      assert rules == init + [r];
      Recognised(init, table) + if r.style in table then [r] else []
  }

  /** The (key, rendered value) pair every recognised record contributes, in input order. */
  function KeyedPairs(rules: seq<Rule>, table: StyleTable, format: Formatter): seq<Pair> {
    if rules == [] then []
    else
      var r := rules[|rules| - 1];
      KeyedPairs(rules[..|rules| - 1], table, format)
      + if r.style in table then [(table[r.style], format(table[r.style], r.value))] else []
  }

  /** The output keys of the recognised records, in input order, repeats included. */
  function MappedKeys(rules: seq<Rule>, table: StyleTable): (ks: seq<string>)
    ensures forall k :: k in ks ==> k in table.Values
  {
    if rules == [] then []
    else
      var r := rules[|rules| - 1];
      MappedKeys(rules[..|rules| - 1], table) + if r.style in table then [table[r.style]] else []
  }

  /** The raw values of the recognised records whose style maps to `key`, in input order. */
  function MappedValues(rules: seq<Rule>, table: StyleTable, key: string): (vs: seq<string>)
    ensures forall v :: v in vs ==> exists r :: r in rules && r.style in table && table[r.style] == key && r.value == v
  {
    if rules == [] then []
    else
      var init, r := rules[..|rules| - 1], rules[|rules| - 1];
      assert rules == init + [r];
      MappedValues(init, table, key) + if r.style in table && table[r.style] == key then [r.value] else []
  }

  /** Each of `values`, rendered under `key`. */
  function Formatted(format: Formatter, key: string, values: seq<string>): seq<string> {
    seq(|values|, i requires 0 <= i < |values| => format(key, values[i]))
  }

  /** Two recognised records give their two pairs, in order. */
  lemma KeyedPairsTwo(a: Rule, b: Rule, table: StyleTable, format: Formatter)
    requires a.style in table && b.style in table
    ensures KeyedPairs([a, b], table, format)
         == [(table[a.style], format(table[a.style], a.value)), (table[b.style], format(table[b.style], b.value))]
  {
    assert [a, b][..1] == [a];
    assert [a][..0] == [];
    assert KeyedPairs([a], table, format) == [(table[a.style], format(table[a.style], a.value))];
  }

  lemma FormattedAppend(format: Formatter, key: string, values: seq<string>, v: string)
    ensures Formatted(format, key, values + [v]) == Formatted(format, key, values) + [format(key, v)]
  {
  }

  /** The dictionary a converter builds: the rendered values of the recognised records, grouped by output key. */
  function StyleGroups(rules: seq<Rule>, table: StyleTable, format: Formatter): seq<Group> {
    GroupBy(KeyedPairs(rules, table, format))
  }

  /** One pair per recognised record, carrying that record's output key. */
  lemma {:induction false} KeyedPairsKeys(rules: seq<Rule>, table: StyleTable, format: Formatter)
    ensures |KeyedPairs(rules, table, format)| == |Recognised(rules, table)|
    ensures PairKeys(KeyedPairs(rules, table, format)) == MappedKeys(rules, table)
  {
    if rules != [] {
      KeyedPairsKeys(rules[..|rules| - 1], table, format);
    }
  }

  /** The pairs under one key are that key's raw values, rendered, in input order. */
  lemma {:induction false} SelectKeyedPairs(rules: seq<Rule>, table: StyleTable, format: Formatter, key: string)
    ensures Select(KeyedPairs(rules, table, format), key) == Formatted(format, key, MappedValues(rules, table, key))
  {
    if rules != [] {
      var init := rules[..|rules| - 1];
      SelectKeyedPairs(init, table, format, key);
      var r := rules[|rules| - 1];
      var pairs := KeyedPairs(rules, table, format);
      if r.style in table {
        assert pairs[..|pairs| - 1] == KeyedPairs(init, table, format);
        if table[r.style] == key {
          FormattedAppend(format, key, MappedValues(init, table, key), r.value);
        }
      } else {
        assert pairs == KeyedPairs(init, table, format);
      }
    }
  }

  /** Pairs of a concatenation are the concatenation of the pairs. */
  lemma {:induction false} KeyedPairsAppend(a: seq<Rule>, b: seq<Rule>, table: StyleTable, format: Formatter)
    ensures KeyedPairs(a + b, table, format) == KeyedPairs(a, table, format) + KeyedPairs(b, table, format)
  {
    if b == [] {
      assert a + b == a;
    } else {
      assert (a + b)[..|a + b| - 1] == a + b[..|b| - 1];
      KeyedPairsAppend(a, b[..|b| - 1], table, format);
    }
  }

  /** A record whose style the table does not know contributes nothing, wherever it stands. */
  lemma UnrecognisedIgnored(a: seq<Rule>, r: Rule, b: seq<Rule>, table: StyleTable, format: Formatter)
    requires r.style !in table
    ensures KeyedPairs(a + [r] + b, table, format) == KeyedPairs(a + b, table, format)
  {
    KeyedPairsAppend(a + [r], b, table, format);
    KeyedPairsAppend(a, [r], table, format);
    KeyedPairsAppend(a, b, table, format);
    assert [r][..0] == [];
  }

  /** Records that agree on style and value give the same pairs: the option field is never read. */
  lemma {:induction false} KeyedPairsIgnoreOption(rs: seq<Rule>, rs': seq<Rule>, table: StyleTable, format: Formatter)
    requires |rs| == |rs'|
    requires forall i :: 0 <= i < |rs| ==> rs[i].style == rs'[i].style && rs[i].value == rs'[i].value
    ensures KeyedPairs(rs, table, format) == KeyedPairs(rs', table, format)
  {
    if rs != [] {
      KeyedPairsIgnoreOption(rs[..|rs| - 1], rs'[..|rs'| - 1], table, format);
    }
  }

  /** A key is used by some recognised record exactly when it has some value. */
  lemma {:induction false} MappedKeysValues(rules: seq<Rule>, table: StyleTable, key: string)
    ensures key in MappedKeys(rules, table) <==> MappedValues(rules, table, key) != []
  {
    if rules != [] {
      MappedKeysValues(rules[..|rules| - 1], table, key);
    }
  }

  /**
   * The grouping a converter builds: one group per output key, in order of
   * first use, each holding the rendered values of the records mapped to it
   * in input order, and as many values in all as there are recognised records.
   */
  lemma StyleGroupsSpec(rules: seq<Rule>, table: StyleTable, format: Formatter)
    ensures var gs := StyleGroups(rules, table, format);
      && Keys(gs) == FirstSeen(MappedKeys(rules, table))
      && Distinct(Keys(gs))
      && (forall i :: 0 <= i < |gs| ==> gs[i].values == Formatted(format, gs[i].key, MappedValues(rules, table, gs[i].key)))
      && TotalValues(gs) == |Recognised(rules, table)|
  {
    var pairs := KeyedPairs(rules, table, format);
    KeyedPairsKeys(rules, table, format);
    GroupByKeys(pairs);
    GroupByValues(pairs);
    GroupByTotal(pairs);
    var gs := StyleGroups(rules, table, format);
    forall i | 0 <= i < |gs|
      ensures gs[i].values == Formatted(format, gs[i].key, MappedValues(rules, table, gs[i].key))
    {
      SelectKeyedPairs(rules, table, format, gs[i].key);
    }
  }

  /** A key has a group exactly when some recognised record is mapped to it. */
  lemma StyleGroupKeys(rules: seq<Rule>, table: StyleTable, format: Formatter, key: string)
    ensures key in Keys(StyleGroups(rules, table, format)) <==> MappedValues(rules, table, key) != []
  {
    StyleGroupsSpec(rules, table, format);
    FirstSeenSpec(MappedKeys(rules, table));
    MappedKeysValues(rules, table, key);
  }
}
