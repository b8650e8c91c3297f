# Ruleset converter, modelled in Dafny

`Build.py` turns Clash-style rule lists into two proxy-client formats. A rule
list is a text file with one directive per line: `STYLE,value[,option]`.
Blank lines and `#` comments are allowed.

- **Loading** (`rules_load`). Each line is stripped. Blank and comment lines
  are dropped. Every other line is split at its first two commas and padded
  with `""` to the three fields (style, value, option).
- **Egern** (`process_egern`, and the Egern branch of `rules_write`).
  - Records whose style is in `EGERN_RULE_MAP` are grouped by their Egern key,
    in order of the key's first use.
  - `domain_wildcard_set` values are put in double quotes.
  - Any recognised record with option `no-resolve` adds a leading
    `no_resolve: true` line.
  - Each group becomes a `key:` line followed by `  - value` item lines.
  - The file starts with a header giving the rule set's name and the number
    of item lines.
- **Sing-box** (`process_singbox`). Records whose style is in
  `SINGBOX_RULE_MAP` are grouped the same way, with raw values. DOMAIN-WILDCARD
  has no entry, and both CIDR styles merge into `ip_cidr`. The result is the
  document `{"version": 3, "rules": [{key: [values]}, ...]}`.

Modules:

| file | module | contents |
|---|---|---|
| `optional.dfy` | `Optional` | the `Option` datatype |
| `text.dfy` | `Text` | the Python string operations the converter uses: `strip`, `split` with a limit, decimal rendering of an int, newline-terminated writing; plus `Join` and `SplitLines`, the inverses of `split` and of the writing, which the code never calls and which serve only to state the round trips |
| `rules.dfy` | `Rules` | the `Rule` record, the line parser, and the loading loop `LoadRules` |
| `grouping.dfy` | `Grouping` | the insertion-ordered `defaultdict(list)`, as a sequence of groups, and its laws |
| `stylemap.dfy` | `StyleMap` | grouping recognised records through a style table and a value formatter, shared by both converters |
| `egern.dfy` | `Egern` | the Egern table, its loops as methods, the file text, and their properties |
| `singbox.dfy` | `Singbox` | the Sing-box table, its loop as a method, the rule-set document, and its properties |

Each loop of the source is a method whose `ensures` ties its result to a
specification function:
- `LoadRules` to `ParseLines`;
- `CollectEgern` to `EgernGroups` and `NoResolve`;
- `RenderEgern` to `Marker` and `RenderGroups`;
- `CollectSingbox` to `SingboxGroups`.

Lemmas then prove what those functions mean: the groups are the first-seen
keys, each holding its records' values in input order, and so on.

The dictionary is modelled as a value (`seq<Group>`) that the loops
reassign, since `defaultdict` is local to each function. `Append` is
`d[key].append(value)`.

## Model

| member | source | states |
|---|---|---|
| `Text.Strip` | Build.py:46 | Definition of `strip()`; characterised by `Text.StripSpec`, `Text.StripIdempotent` and `Text.StripAvoid`. |
| `Text.StripSpec` | Build.py:46 | `strip()` returns the slice left once the whitespace runs at both ends are cut off. Everything outside the slice is whitespace (Python's `isspace` set), and the slice neither starts nor ends with whitespace. |
| `Text.StripIdempotent` | Build.py:46 | Stripping an already stripped line changes nothing. |
| `Text.StripAvoid` | Build.py:46 | Stripping never introduces a character the line did not hold. |
| `Text.Split` | Build.py:49 | Definition of `split(",", 2)`; characterised by `Text.SplitCount`, `Text.SplitJoin` and `Text.SplitSeparators`. |
| `Text.SplitCount` | Build.py:49 | `split(",", 2)` yields min(#commas, 2) + 1 parts. |
| `Text.SplitJoin` | Build.py:49 | The parts, joined with the separator, give back the line. |
| `Text.SplitSeparators` | Build.py:49 | Only the last part can hold a separator, and it holds none when the line had at most two. |
| `Text.DecimalRoundTrip` | Build.py:62 | The decimal numeral written for the count reads back as the count. |
| `Text.SplitTerminated` | Build.py:63 | Lines without newlines, written each followed by `\n`, read back as the same lines. |
| `Rules.Padded` | Build.py:50-51 | Padding gives exactly three fields. The given parts come first and the rest are `""`. |
| `Rules.PadFields` | Build.py:50-51 | The `while len(parts) < 3` loop produces the padded triple. |
| `Rules.ParseLine` | Build.py:46-52 | A line yields a record exactly when its stripped form is non-empty and does not start with `#`. |
| `Rules.ParseLines` | Build.py:45-52 | Definition of the records of a file; characterised by `Rules.ParseLinesOrder` and `Rules.ParseLinesAppend`. |
| `Rules.LoadRules` | Build.py:43-53 | The loading loop returns exactly `ParseLines(lines)`, the per-line parses in file order. |
| `Rules.ParseLinesOrder` | Build.py:45-52 | Records and rule lines correspond one to one, in the same order. The j-th record is the parse of the j-th line that carries a rule, and a line carries one iff its stripped form is non-empty and not a comment. |
| `Rules.ParseLinesAppend` | Build.py:45-52 | Loading two pieces of a file and concatenating the records gives the records of the whole file. |
| `Rules.ParseLineRoundTrip` | Build.py:49-52 | With k = min(#commas, 2) + 1, the first k fields joined by `,` rebuild the stripped line and the rest are `""`. The style never holds a comma. The value holds one only when it is the last field. |
| `Rules.FieldsAvoid` | Build.py:46-52 | A character that a line does not hold is in none of the three fields of its record. |
| `Rules.ParsedFieldsAvoid` | Build.py:45-52 | A character that no input line holds appears in no field of any record. |
| `Grouping.Find` | Build.py:77 | The lookup finds the first position holding the key, or reports that there is none. Positions are unique only because `Grouping.GroupByKeys` proves the dictionary's keys distinct. |
| `Grouping.Append` | Build.py:77 | Definition of `d[key].append(value)` on a `defaultdict(list)`; characterised by `Grouping.GroupByKeys`, `Grouping.GroupByValues` and `Grouping.GroupByTotal`. |
| `Grouping.FirstSeenSpec` | Build.py:79 | First-seen order holds each key exactly once and adds none. |
| `Grouping.GroupByKeys` | Build.py:70-79 | The dictionary's keys, in iteration order, are the appended keys in order of first use, each once. |
| `Grouping.GroupByValues` | Build.py:77 | Each key's list holds exactly the values appended under it, in append order. |
| `Grouping.GroupByTotal` | Build.py:77 | The lists hold as many values in all as there were appends. |
| `StyleMap.Recognised` | Build.py:73 | The recognised records are those whose style is in the table. |
| `StyleMap.StyleGroupsSpec` | Build.py:72-79 | The groups built from a table are its keys in order of first use, without repeats. Each holds its records' formatted values in input order. Total size = number of recognised records. |
| `StyleMap.UnrecognisedIgnored` | Build.py:73 | A record whose style is not in the table, inserted anywhere, changes neither the pairs nor the groups. |
| `StyleMap.KeyedPairsIgnoreOption` | Build.py:95-98 | The grouping never reads the option field. |
| `StyleMap.MappedKeysValues` | Build.py:73-77 | A key is used by some recognised record exactly when the values mapped to it are non-empty. |
| `StyleMap.StyleGroupKeys` | Build.py:77-79 | A key has a group in the dictionary exactly when some recognised record maps to it. |
| `Egern.FormatValue` | Build.py:76 | Definition of the quoting conditional; characterised by `Egern.EgernQuoting` and `Egern.EgernGrouping`. |
| `Egern.EgernQuoting` | Build.py:18 | `EGERN_RULE_QUOTE`: a value is put in double quotes exactly when its key is `domain_wildcard_set`, and is kept unchanged otherwise; that key is one the Egern table produces. |
| `Egern.CollectEgern` | Build.py:70-77 | The first loop yields the Egern groups and the OR of `option == "no-resolve"` over the recognised records. |
| `Egern.RenderEgern` | Build.py:78-81 | The second loop yields the marker line (if the flag is set), then each group's `key:` line and its item lines, in dictionary order. |
| `Egern.ProcessEgern` | Build.py:67-83 | The text written is the two header lines, a blank line and the output lines. The header count equals the number of recognised records. |
| `Egern.EgernKeys` | Build.py:10-17 | Every Egern key is non-empty, does not start with a space and has no newline. |
| `Egern.CountItemLines` | Build.py:81-82 | Every item line is counted by `rule_count`. |
| `Egern.CountItems` | Build.py:82 | Definition of the `rule_count` sum; characterised by `Egern.CountItemLines` and `Egern.EgernRuleCount`. |
| `Egern.EgernRuleCount` | Build.py:82 | `rule_count` (lines starting with `"  - "`) equals the number of recognised records, whatever the marker and the `key:` lines. |
| `Egern.RenderedLineShape` | Build.py:79-81 | Every rendered line is non-empty and either ends in `:` (a `key:` line) or starts with a space (an item line), so none is the `no_resolve: true` marker. |
| `Egern.EgernMarker` | Build.py:71-78 | The output starts with `no_resolve: true` iff some recognised record has option exactly `no-resolve`; otherwise that line appears nowhere. |
| `Egern.EgernGrouping` | Build.py:72-79 | Egern groups are the Egern keys in order of first use, without repeats. Each holds the values of its records in input order, quoted for `domain_wildcard_set` and unchanged otherwise. |
| `Egern.EgernIgnoresUnknown` | Build.py:73-78 | A record with an unknown style, inserted anywhere, changes neither the output lines nor the flag. |
| `Egern.EgernGroupsIgnoreOption` | Build.py:72-77 | The grouped values do not depend on the option field. |
| `Egern.EgernLinesAvoidNewline` | Build.py:72-81 | No output line holds a newline when no input line does. |
| `Egern.EgernText` | Build.py:61-63 | Definition of the Egern text `rules_write` writes; characterised by `Egern.EgernTextLines` and `Egern.EgernFileLayout`. |
| `Egern.EgernTextLines` | Build.py:61-63 | The Egern text, read back line by line, is the name line, the count line, a blank line and the output lines. |
| `Egern.EgernFileLayout` | Build.py:61-83 | The file written for a rule list reads back as `# 规则名称: name`, `# 规则统计: count`, a blank line and the Egern lines, and the decimal count reads back as the count. |
| `Egern.EgernExample` | Build.py:67-81 | A `DOMAIN` record (any option) and a `DOMAIN-SUFFIX` record with `no-resolve` give the `no_resolve: true` line, then `domain_set:` with the first value and `domain_suffix_set:` with the second, unquoted. |
| `Singbox.CollectSingbox` | Build.py:94-98 | The loop yields the Sing-box groups of the records. |
| `Singbox.ProcessSingbox` | Build.py:91-100 | The document built from the file's lines has version 3 and the Sing-box groups of its records. |
| `Singbox.SingboxStructure` | Build.py:94-100 | The document has version 3 and one single-key object per Sing-box key, in order of first use and without repeats. Each holds its records' raw values in input order. Total values = number of recognised records. |
| `Singbox.SingboxStyles` | Build.py:10-26 | `SINGBOX_RULE_MAP` recognises exactly the styles of `EGERN_RULE_MAP` except DOMAIN-WILDCARD. |
| `Singbox.CidrStyles` | Build.py:20-26 | Exactly IP-CIDR and IP-CIDR6 map to `ip_cidr`. |
| `Singbox.SingboxCidrMerge` | Build.py:20-26 | The `ip_cidr` object holds the values of all IP-CIDR and IP-CIDR6 records, in input order. It is present iff there is such a record. |
| `Singbox.SingboxDropsUnknown` | Build.py:96 | DOMAIN-WILDCARD has no Sing-box key. A record with an unmapped style, inserted anywhere, leaves the document unchanged. |
| `Singbox.SingboxIgnoresOption` | Build.py:95 | Records that agree on style and value give the same document, whatever their options. |
| `Singbox.SingboxExample` | Build.py:91-100 | `DOMAIN,example.com,` and `DOMAIN-SUFFIX,example.org,no-resolve` give `domain` and `domain_suffix` objects with the raw values. |

## Left out

- `rules_copy` is not modelled: it only clears and copies directory trees on the filesystem.
- Reading the file and Python's `splitlines()` are not modelled. Lines are given as a sequence of strings. `splitlines` also splits at `\r`, `\v`, `\f`, `\x1c`–`\x1e`, `\x85`, `\u2028` and `\u2029`, which this model does not capture.
- `file_path.stem` is not modelled. The rule set's name is a parameter of `Egern.ProcessEgern`.
- Opening and writing files, `json.dump` (its indentation, `ensure_ascii=False` and trailing newline) and the progress `print` are not modelled.
  - `Egern.ProcessEgern` returns the text that would be written.
  - `Singbox.ProcessSingbox` returns the document as a `RuleSet` value, not as JSON text.
- The `readme.md` files and their download URLs are not modelled. Nor is the `file_path.parents` search for the platform directory, which raises `StopIteration` when no such directory exists. All of this is file-system path handling and I/O.
- `main` and its argparse dispatch are not modelled: they are command-line handling, directory walking and exception reporting.
- `Egern.EgernFileLayout` requires that the name and the input lines hold no `\n`. A name or line containing one would write extra lines, and lines coming out of `splitlines()` never contain one.
- `process_egern` is split into three methods: `Egern.CollectEgern` (first loop), `Egern.RenderEgern` (second loop) and `Egern.ProcessEgern` (the count and the text). The order of operations is unchanged.
