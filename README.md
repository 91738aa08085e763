# gen_process_config, modelled in Dafny

This project models `scripts/gen_process_config.py` of the aggregator repository.
The script reads a crawled YAML document of subscription candidates. It extracts
every URL that starts with `http`, without repeats and in first-seen order. It
keeps at most ten of them, reads the `username/gistid` destination from the
`GIST_LINK` environment value, and assembles the process config. That config
pushes one domain per URL to the group `main` and stores its outputs in a gist.

Files, one module each:

- `outcomes.dfy` (`Outcomes`): `Option`, `Result` and the four ways the script
  exits (`MissingInput`, `EmptyExtraction`, `MissingGistLink`, `MalformedGistLink`).
- `yaml.dfy` (`Yaml`): the decoded document as a datatype (null, bool, int,
  string, list, and a mapping as an ordered sequence of key/value entries). It
  also defines Python truthiness, `dict.get` and Python's `or`.
- `text.dfy` (`Text`): `str.strip`, `str.split` with its inverse `Join`, and the
  decimal rendering of the domain index.
- `extract.dfy` (`Extraction`): `extract_urls`. The spec functions are
  `ItemCandidates`, `ListCandidates`, `Gathered` (the `urls` list of one level),
  `Clean` (the filter-and-dedup loop as a left fold) and `Extract`. `Flatten`
  collects every candidate with no filtering on the way. The methods `ExtractUrls`,
  `ListUrls` and `KeepFirstHttp` do the same work with loops, as the script does.
  `Gathered` has no contract of its own; `ExtractSubsOnly` and `ExtractDictAppend`
  state what it is at a mapping level.
- `gist.dfy` (`GistLink`): the `GIST_LINK` strip/split validation.
- `config.dfy` (`ProcessConfig`): the selection of at most ten URLs, the loop
  that builds the domains, the config value and the whole of `main` without I/O.

Behaviour of the script that the model keeps as written:

- For a mapping inside a list, the script takes the first *truthy* value among
  `url`, `sub` and `link`. It then keeps that value only if it is a string. A truthy
  non-string `url` (say `123`) is therefore not skipped in favour of a string
  `sub`: the element contributes nothing. When no key is truthy, Python's `or`
  yields the `link` value itself, which may be the empty string. It is stripped,
  appended, and then dropped by the `http` filter
  (`Extraction.DictItemNoneTruthy`).
- The filter and dedup run at every level of the recursion, not once after the
  traversal. `Extraction.ExtractIsGlobalClean` proves the two agree.
- The `GIST_LINK` value as a whole is stripped before it is split. The two parts
  are not stripped.
- An unset and a blank `GIST_LINK` both give `MissingGistLink`. Any other shape
  that is not two non-empty parts around one `/` gives `MalformedGistLink`.

## Model

| member | source | states |
|---|---|---|
| `Yaml.Get` | scripts/gen_process_config.py:21 | `dict.get`: None when the key is absent, otherwise a value stored under that key |
| `Yaml.FalsyValues` | scripts/gen_process_config.py:21 | Python truthiness (`Truthy`): the falsy values are exactly None, False, 0, the empty string, list and dict |
| `Yaml.Or` | scripts/gen_process_config.py:21 | Python `or`: the left operand when truthy, else the right; the result is truthy iff either operand is |
| `Yaml.GetFindsEntry` | scripts/gen_process_config.py:26 | with distinct keys, as in a Python dict, `get` returns exactly the value bound to the key |
| `Text.Strip` | scripts/gen_process_config.py:19 | the result is a contiguous part of the input, surrounded by all-whitespace margins, with no whitespace at either end |
| `Text.StripEmpty` | scripts/gen_process_config.py:67-68 | a string strips to empty iff it is all whitespace |
| `Text.StripIdempotent` | scripts/gen_process_config.py:67 | stripping twice is stripping once |
| `Text.Split` | scripts/gen_process_config.py:71 | one more part than separators, no part holds the separator, and joining the parts with it gives back the input |
| `Text.SplitJoin` | scripts/gen_process_config.py:71 | splitting undoes joining separator-free parts |
| `Text.DecimalString` | scripts/gen_process_config.py:80 | `str(i)`: at least one decimal digit, no leading zero; `DecimalRoundTrip` proves it denotes `i` |
| `Text.DecimalRoundTrip` | scripts/gen_process_config.py:80 | reading the decimal rendering of `i` back gives `i` |
| `Text.DecimalStringInjective` | scripts/gen_process_config.py:80 | distinct indices render to distinct strings |
| `Extraction.ItemCandidates` | scripts/gen_process_config.py:16-23 | a list element contributes at most one candidate, only when it is a string (then that string stripped) or a mapping |
| `Extraction.DictCandidate` | scripts/gen_process_config.py:21 | the value offered is that of `url`, `sub` or `link` (`DictItemFirstTruthy` says which) |
| `Extraction.ListCandidates` | scripts/gen_process_config.py:16-23 | a list contributes at most one candidate per element |
| `Extraction.ItemScalarOrList` | scripts/gen_process_config.py:16-23 | scalars, nulls and nested lists inside a list contribute nothing |
| `Extraction.DictItemFirstTruthy` | scripts/gen_process_config.py:20-23 | a mapping in a list offers the first truthy of `url`, `sub`, `link`, stripped, and nothing when that value is not a string |
| `Extraction.DictItemNoneTruthy` | scripts/gen_process_config.py:20-23 | when none of the three keys is truthy, nothing the mapping offers survives the filter |
| `Extraction.KeepStep` | scripts/gen_process_config.py:37-42 | one turn of the loop (`Keep`) appends `u` or nothing, and appends it exactly when it qualifies and was not seen |
| `Extraction.CleanFromAppend` | scripts/gen_process_config.py:36-42 | running the loop over `a + b` is running it over `a` and then over `b` |
| `Extraction.CleanFromMembers` | scripts/gen_process_config.py:36-42 | after the loop, a URL is kept iff it was kept before or is a candidate that is non-empty and starts with `http` |
| `Extraction.CleanFrom` | scripts/gen_process_config.py:34-42 | the loop run with `deduped` already holding `acc` only appends: `acc` stays a prefix of the result |
| `Extraction.CleanFromDistinct` | scripts/gen_process_config.py:39-42 | the loop never appends a URL already kept |
| `Extraction.CleanFromAbsorbs` | scripts/gen_process_config.py:28-42 | feeding the loop an already deduplicated list gives the same result as feeding it the raw one |
| `Extraction.Clean` | scripts/gen_process_config.py:33-44 | the filter-and-dedup result has no repeats and holds exactly the qualifying candidates (order: `CleanFirstSeenOrder`) |
| `Extraction.CleanIdempotent` | scripts/gen_process_config.py:33-44 | deduplicating twice is deduplicating once |
| `Extraction.CleanFirstSeenOrder` | scripts/gen_process_config.py:36-42 | the kept URLs are candidates, listed in the order of their first occurrence |
| `Extraction.ExtractValues` | scripts/gen_process_config.py:29-31 | the concatenated results for the mapping's values hold only qualifying URLs |
| `Extraction.Extract` | scripts/gen_process_config.py:12-44 | the value `extract_urls` returns: no repeats, every URL non-empty and starting with `http`; membership, order and the global-dedup form are in `ExtractMembers`, `ExtractFirstSeenOrder`, `ExtractIsGlobalClean` |
| `Extraction.ListUrls` | scripts/gen_process_config.py:17-23 | the loop over a list's elements collects exactly `ListCandidates(items)` |
| `Extraction.KeepFirstHttp` | scripts/gen_process_config.py:33-44 | the loop with its `seen` set computes the filter-and-dedup `Clean` of `urls` |
| `Extraction.ExtractUrls` | scripts/gen_process_config.py:12-44 | the recursive procedure returns `Extract(obj)` |
| `Extraction.ExtractWellFormed` | scripts/gen_process_config.py:36-42 | every returned URL is non-empty and starts with `http`, and none repeats |
| `Extraction.ExtractMembers` | scripts/gen_process_config.py:14-44 | a URL is returned iff it is a stripped candidate somewhere in the walk and qualifies |
| `Extraction.ExtractFirstSeenOrder` | scripts/gen_process_config.py:14-44 | the result is ordered by first occurrence among all candidates of the walk |
| `Extraction.ExtractIsGlobalClean` | scripts/gen_process_config.py:24-44 | dedup at every recursion level equals one dedup of the flattened candidates |
| `Extraction.ExtractSubsOnly` | scripts/gen_process_config.py:26-28 | a mapping whose `subs` is a list yields exactly what that list yields; sibling keys are ignored |
| `Extraction.ExtractDictAppend` | scripts/gen_process_config.py:29-31 | without a `subs` list, a mapping yields the dedup of its values' results concatenated in iteration order |
| `GistLink.ParseGistLink` | scripts/gen_process_config.py:67-74 | unset or all-whitespace gives `MissingGistLink`, exactly; on success the stripped value is `username/gistid`, both non-empty, neither holding `/`; other failures are `MalformedGistLink` |
| `GistLink.ParseGistLinkAccepts` | scripts/gen_process_config.py:71-74 | a value that strips to two non-empty `/`-free parts around `/` is accepted with those parts unmodified |
| `ProcessConfig.Select` | scripts/gen_process_config.py:59-62 | at most ten URLs are kept whole and in order; otherwise exactly ten, each from the input, distinct when the input is |
| `ProcessConfig.BuildDomains` | scripts/gen_process_config.py:77-85 | domain `i` (from 1) is `auto-i`, enabled, with an empty domain, subscribes to the `i`-th URL alone and pushes to `main` |
| `ProcessConfig.DomainNamesDistinct` | scripts/gen_process_config.py:78-80 | no two generated domains share a name |
| `ProcessConfig.DomainsSubscribe` | scripts/gen_process_config.py:77-85 | one domain per selected URL, in selection order |
| `ProcessConfig.AssembleConfig` | scripts/gen_process_config.py:87-129 | crawl disabled; group `main` maps `clash`, `singbox`, `v2ray` to `main-<target>`, each an item of `storage.items`; all items carry the parsed username and gistid; filenames `clash.yaml`, `singbox.json`, `v2ray.txt`, pairwise distinct |
| `ProcessConfig.Loaded` | scripts/gen_process_config.py:52 | the document is the parsed one or `[]`, and the substitution does not change what is extracted |
| `ProcessConfig.GenerateProcessConfig` | scripts/gen_process_config.py:47-129 | fails exactly as the script exits, in its order; on success the domains come from a valid selection of distinct extracted URLs and the config is the fixed-shape value for the parsed gist |
| `ProcessConfig.CleanRepeat` | scripts/gen_process_config.py:36-42 | filtering `[a, a, b]` keeps `a` and `b` once each |
| `ProcessConfig.ExampleCandidates` | scripts/gen_process_config.py:17-19 | a list of already stripped strings offers each item as it stands, repeats included |
| `ProcessConfig.ExampleExtract` | scripts/gen_process_config.py:24-44 | `{"subs": [a, a, b]}` yields `[a, b]` |
| `ProcessConfig.ExampleGistLink` | scripts/gen_process_config.py:67-74 | `alice/gid1` parses to user `alice`, gist `gid1` |

## Left out

- Reading and parsing `data/crawledsubs.yaml`: file I/O and a foreign parser. The
  parsed document is a parameter, `None` when the file does not exist.
- Writing `generated-process.json` and `json.dumps` (indentation, `ensure_ascii`,
  key order): the config is modelled as a value. Its mappings are Dafny maps, so
  the order of keys in the written JSON is not modelled.
- The two `print` lines: console output only.
- `os.environ`: the `GIST_LINK` value is a parameter, `None` when unset.
- `SystemExit`: modelled as the `Failure` values of a `Result`. The diagnostic texts are not modelled.
- Extraction.ExtractUrls: cyclic documents built with YAML anchors and aliases, and nesting deeper than Python's recursion limit, are not modelled. On those the script dies with `RecursionError` instead of one of the four exits, while `Yaml.Value` is finite and `Extract` is total.
- ProcessConfig.Select: the uniform distribution of `random.sample` is not stated. Only the size, membership and distinctness of the sample are.
- `Text.IsSpace` covers ASCII whitespace only. The non-ASCII characters that
  Python's `str.strip` also removes are not modelled.
- Float, date and other YAML scalars, and non-string mapping keys, are not part
  of the document type.
- Mappings are assumed to have distinct keys. `Yaml.Get` returns the first entry
  with the key, which is Python's behaviour when keys are distinct.
- Python's `bool` being a subclass of `int` plays no role here: no `isinstance`
  test in the script asks for `int`.
