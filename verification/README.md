# STAR dataset loader — a Dafny model

This project models the dataset loader of the STAR package
(`star/starloader.py`). The loader reads a few fixed CSV tables of
`(title, score, topic)` records and narrows them for training and
evaluation. It has a length guard, a prefix slice for the unlabeled data,
and a shared subsetting routine. That routine resolves topic names through
the `topic_to_ix` dictionary, takes a balanced or unbalanced per-topic
block of rows, and concatenates the blocks in the requested order. It then
optionally rewrites the topic column into one-hot "soft" labels, shuffles
with a fixed seed, and truncates to the requested count.

Tables are `seq<Row>`, and each row's topic is a `Label`: either the
integer index read from disk or a one-hot vector. Each exception is a
`Failure` value of `Loader.Error`. The shuffle is a parameter that may be
any reordering of the rows (`Loader.IsShuffle`).

Python's `s[:n]` is modelled exactly by `Slicing.PySlice`, negative bounds
included. The loader passes `-1` as a "no limit" sentinel, which Python
reads as "drop the last element". For that reason two places take a
`Slicing.Variant`:

- `AsWritten` is the behaviour of the code.
- `Intended` reads `-1` as "everything" and relabels topics by their
  position.

Properties are proved for `AsWritten` unless a row or clause says "as
intended". Those rows and clauses are about the corrected `Intended`
variant: `Labels.PositionalRelabel`, `Labels.SoftLabelIntended`,
`Loader.UnlabeledIntendedKeepsAll`, and the intended clauses of
`Slicing.LimitLength`, `Loader.BlockShape` and `Loader.LoadSubsetResult`
(see "## Findings").

Modules: `Wrappers` (result types), `Slicing` (Python slices),
`Table` (rows, topic filter), `Labels` (`set_label_type`), `Loader`
(guard, loaders, `_load_subset`).

## Model

Helpers that model a source construct but are described by the lemmas
about them: `Slicing.PySlice` (Python's `s[:n]`) by `Slicing.PySliceLength`,
`Slicing.PySliceKeepsAll` and `Slicing.PySliceSentinel`;
`Slicing.Limit` (the final `[:num_samples]`, either reading) by
`Slicing.LimitLength`; `Loader.Block` (one topic's `[:samples_per_topic]`)
by `Loader.BlockShape`; `Labels.Encode` (an `np.eye` row, squeezed to `1`
when there is one topic) by `Labels.EncodeInjective`, `Labels.OneHotDecodes`
and `Labels.SetLabelType`; `Loader.WouldWarn` (the balancing warning) by
`Loader.WarnIffQuotaOvershoots`; `Loader.LoadLabeled` and `Loader.LoadGold`
(`_load_subset` without and with balancing) by `Loader.LabeledDefaultsKeepAll`,
`Loader.GoldBalanced` and the `Loader.LoadSubset` rows, which hold for either
`balanced` flag; `Labels.ReplaceAll` (one `Series.replace`) and
`Labels.ReplaceFrom` with `Labels.Chase` (the replace loop, whole column and
one value at a time) by `Labels.ReplaceFromPointwise`, `Labels.ChaseInRange`
and `Labels.SequentialRelabel`; `Labels.OneHot` (a row of `np.eye(u)`) by
`Labels.OneHotDecodes` and `Labels.DecodeEncodes`; `Loader.TopicIndex.Values`
(`topic_to_ix.values()`) by `Loader.ResolveSubtopics`.

| member | source | states |
|---|---|---|
| `Slicing.PySliceLength` | star/starloader.py:39 | `data[:n]` keeps `min(n, len)` rows for `n >= 0` and `max(0, len + n)` for negative `n`; for `0 <= n <= len` it is exactly the first `n` rows |
| `Slicing.PySliceKeepsAll` | star/starloader.py:108 | `s[:n]` is all of `s` if and only if `s` is empty or `n >= len(s)`, so no negative bound keeps a non-empty table whole |
| `Slicing.PySliceSentinel` | star/starloader.py:39 | the bound `-1` removes exactly the last element (and leaves an empty table empty) |
| `Slicing.LimitLength` | star/starloader.py:105-108 | a non-negative count keeps the first `min(n, len)` rows under either reading; the sentinel keeps everything exactly when read as "no limit" or when nothing is there |
| `Table.Filter` | star/starloader.py:105 | `data[data["topic"] == t]` holds exactly the rows of the data labelled `t` |
| `Table.FilterAppend` | star/starloader.py:105 | filtering keeps table order: filtering `a + b` gives the rows of `a`, then those of `b` |
| `Table.FilterSubMultiset` | star/starloader.py:105-108 | a table drawn from another (as a multiset) has no more rows of any topic |
| `Labels.Unique` | star/starloader.py:113 | `unique()` lists each topic once, exactly the topics present |
| `Labels.UniqueFirstSeenOrder` | star/starloader.py:113 | `unique()` lists topics in order of first appearance in the column |
| `Labels.ReplaceFromPointwise` | star/starloader.py:114-115 | the replacement loop rewrites the column value by value: each value ends where its own chain of replacements takes it |
| `Labels.ChaseInRange` | star/starloader.py:114-115 | a topic still to be visited, or an index already handed out, ends as an index in `[0, u)` |
| `Labels.SequentialRelabel` | star/starloader.py:113-115 | after the loop every topic value lies in `[0, u)`, `u` the number of unique topics |
| `Labels.ChaseNoCollision` | star/starloader.py:114-115 | when no topic equals an earlier-assigned index, the `j`-th unique topic ends as `j` |
| `Labels.ChaseCollision` | star/starloader.py:114-115 | when the `i`-th unique topic equals an earlier index `j`, topics `u[j]` and `u[i]` end on the same index |
| `Labels.RelabelInjectiveIff` | star/starloader.py:114-115 | the loop keeps distinct topics apart if and only if no topic equals an index assigned before it is visited |
| `Labels.SequentialIsPositional` | star/starloader.py:113-115 | without such a collision the loop is the same as relabelling each topic by its position among the unique topics |
| `Labels.SequentialRelabelMerges` | star/starloader.py:113-115 | on the column `[1, 0]` the loop yields `[1, 1]` where positions give `[0, 1]` |
| `Labels.PositionalRelabel` | star/starloader.py:113-115 | as intended: the positional relabelling maps each topic into `[0, u)` at the place where `unique()` lists it |
| `Labels.OneHotDecodes` | star/starloader.py:117-118 | a row of `np.eye(u)` for an index in range is a 0/1 vector of length `u` with exactly one 1, and decodes back to the index |
| `Labels.DecodeEncodes` | star/starloader.py:117-118 | every one-hot vector of length `u` is the `np.eye(u)` row of the index it decodes to |
| `Labels.EncodeInjective` | star/starloader.py:117-118 | two in-range indices get the same label only if they are equal (this includes the squeezed single-topic case) |
| `Labels.SetLabelType` | star/starloader.py:111-118 | any label type other than "soft" leaves the table unchanged; "soft" keeps titles, scores and row count. With two or more topics every row becomes a one-hot vector of length `u`; with one topic every row becomes `1` |
| `Labels.SoftLabelDecodesAsWritten` | star/starloader.py:113-118 | with two or more topics, decoding a row's soft label as written gives the index the replacement loop chases its topic to, not necessarily its first-seen position |
| `Labels.SoftLabelSeparatesIff` | star/starloader.py:111-118 | soft labelling as written gives rows with different topics different labels if and only if no topic equals an earlier-assigned index |
| `Labels.SoftLabelIntended` | star/starloader.py:111-118 | as intended: positional soft labelling always keeps different topics apart; decoding a row's vector recovers its topic's position among the unique topics |
| `Labels.MergeExampleColumn` | star/starloader.py:113-115 | for topics 1 then 0, as written both relabel to 1, as intended to 0 and 1 |
| `Labels.SoftLabelMergesExample` | star/starloader.py:111-118 | two rows with topics 1 and 0 both receive `[0, 1]` as written, and receive `[1, 0]` and `[0, 1]` as intended |
| `Loader.VerifyLength` | star/starloader.py:69-75 | the guard fails, carrying both numbers, exactly when more samples are requested than there are rows |
| `Loader.LoadUnlabeled` | star/starloader.py:31-39 | fails exactly when `n > len(data)`; every success is a prefix of the data; for `0 <= n <= len` it is the first `n` rows |
| `Loader.UnlabeledSentinelDropsLast` | star/starloader.py:31-39 | with the default `-1` a non-empty table comes back without its last row, never whole |
| `Loader.UnlabeledIntendedKeepsAll` | star/starloader.py:31-39 | as intended: reading `-1` as "no limit" returns the whole table |
| `Loader.LookupAll` | star/starloader.py:94 | succeeds if and only if every name is a key, and then maps each name, in order, to its index; otherwise it raises on the first unknown name |
| `Loader.ResolveSubtopics` | star/starloader.py:89-94 | when omitted, the indices are the map's values in dictionary order; for a list, the `i`-th index is the `i`-th name's index. It fails exactly for a non-list argument or a list with an unknown name |
| `Loader.CeilDiv` | star/starloader.py:101 | `ceil(n / k)` is the least `q` with `k * q >= n` |
| `Loader.Quota` | star/starloader.py:100-103 | the balanced quota with a count is the least `q` with `k * q >= n` (non-negative for `n >= 0`); otherwise it is the sentinel `-1` |
| `Loader.WarnIffQuotaOvershoots` | star/starloader.py:96-101 | the divisibility warning fires exactly when the `k` balanced quotas add up to more than the requested count |
| `Loader.BlockShape` | star/starloader.py:105 | each topic's block is a leading part of that topic's rows in table order. A quota `q >= 0` gives `min(q, rows)` rows; quota `-1` gives all but the last as written, and all as intended |
| `Loader.Concat` | star/starloader.py:105 | every row of the combined table is a data row whose topic is one of the selected indices |
| `Loader.ConcatAppend` | star/starloader.py:105 | blocks follow the order of the selected topics: the table for `t1 + t2` is the table for `t1` followed by that for `t2` |
| `Loader.ConcatBlocks` | star/starloader.py:105 | the block of the `i`-th selected topic sits, contiguous, between the blocks of the topics before and after it |
| `Loader.FilterConcat` | star/starloader.py:105 | with each topic selected once, a selected topic's rows in the combined table are exactly its block, and an unselected topic has none |
| `Loader.ConcatLengthBound` | star/starloader.py:100-105 | with a non-negative quota the combined table has at most `k * quota` rows |
| `Loader.ConcatLengthFull` | star/starloader.py:100-105 | when every selected topic has at least `quota` rows, the combined table has exactly `k * quota` rows |
| `Loader.Selection` | star/starloader.py:105-106 | the labelled combined table has the combined table's rows, with the same titles and scores; with hard labels it is the combined table itself, and with "soft" it is the combined table (all hard labels) passed through `set_label_type`, so its labels are as `Labels.SetLabelType` states: one-hot vectors for two or more topics, `1` for a single topic |
| `Loader.LoadSubset` | star/starloader.py:78-108 | fails with the guard's error exactly when `n > len(data)`. With no count and no topics it returns the whole table passed through `set_label_type` (unchanged for hard labels). A non-list `subtopics` is rejected, and any failure to resolve the topics, such as an unknown name, aborts the call with that error; an unknown-topic failure names a listed name that is not a key. The empty-selection failure happens exactly when the guard passes, the shortcut does not apply and topic resolution yields no index |
| `Loader.LoadSubsetResult` | star/starloader.py:105-108 | past the shortcut and the failures, the result is a sub-multiset of the labelled combined table. For `n >= 0` it has `min(n, len)` rows. For `-1` it is one row short as written and the whole table (as a multiset) as intended |
| `Loader.LabeledDefaultsKeepAll` | star/starloader.py:20-28 | `load_labeled()` with all defaults returns the labeled table as read |
| `Loader.GoldBalanced` | star/starloader.py:42-51 | balanced gold sampling, hard labels, topics selected once: no topic gives more than `ceil(n / k)` rows and the quotas cover `n`. If every topic has a full quota of rows, exactly `n` rows come back |
| `Loader.SubsetSentinelExample` | star/starloader.py:100-108 | two rows of one topic, selected by name with no count: nothing comes back as written, both rows as intended |

## Left out

- Reading files (`_read`, `pd.read_csv`, `load_test`, the import-time load of `topic_to_ix.json`) is file I/O. Tables and the topic dictionary are parameters, and `load_test` is just the file's contents.
- The topic dictionary is `Loader.TopicIndex`: its names in insertion order plus the name-to-index map. `topic_to_ix.values()` follows that order, as a Python dictionary loaded from JSON does.
- `np.random.seed(GLOBAL_SEED)` and sklearn's `shuffle` are library randomness. The shuffle is a function parameter, assumed only to reorder rows. Calls with equal arguments give equal results, because the model's functions are deterministic.
- `logger.warning` is a logging side effect. Only its condition is modelled, as `Loader.WouldWarn`.
- pandas details are not modelled: dtypes, the index, `ignore_index`, and any columns besides title, score and topic. The score is a `real` carried along untouched.
- The topic replacement assumes a pandas version where `data['topic'].replace(..., inplace=True)` writes through to the table. Under copy-on-write pandas the replacement would be lost and `np.eye` would be indexed by the raw topic values.
- `Labels.SetLabelType` requires integer topics. pandas cannot take `unique()` of a column of lists, and the loader always passes tables as read.
- An empty topic selection raises `ZeroDivisionError` at line 96 or pandas' "no objects to concatenate" at line 105. Both are modelled as the single error `NoTopicsSelected`.
- `Loader.CeilDiv` computes `ceil(n / k)` exactly on integers. Python divides in floating point, which agrees for counts below 2^53.
- Loader.GoldBalanced: states the per-topic bound for hard labels only. Soft labels replace the topic by a vector, so a row's topic can no longer be counted. It also requires each topic to be selected once. The code breaks the bound when a name is repeated or two names map to one index. For example, `load_gold(num_samples=10, subtopics=["sports", "sports"])` has `k = 2` and quota 5, and concatenates the same 5 sports rows twice, giving 10 rows of one topic.
- A later revision of the loader (case-insensitive names, alphabetical topic order) is not part of this model. An omitted `subtopics` follows the dictionary's value order, as the code does.
- The code reads `-1` as a Python slice bound, not as "all rows". The model follows the code, and the "all rows" reading is the `Intended` variant.

## Findings

| source | as written | input that shows it | evidently intended | confidence | as-written member | corrected member |
|---|---|---|---|---|---|---|
| star/starloader.py:31-39 | `data[:num_samples]` with the default `num_samples=-1` | any non-empty unlabeled table, called with the default count | the default returns every row | high; not executed | `Loader.UnlabeledSentinelDropsLast` | `Loader.UnlabeledIntendedKeepsAll` |
| star/starloader.py:100-108 | per-topic `[:samples_per_topic]` with `-1`, then `[:num_samples]` with `-1` | two rows of topic 0, `subtopics=["sports"]` with `sports` mapped to 0, no count: no rows come back | each selected topic contributes all its rows and the final slice keeps them all | high; not executed | `Loader.SubsetSentinelExample` | `Loader.LoadSubsetResult` |
| star/starloader.py:113-115 | `replace(topic, ix)` applied one unique topic after another | topics first seen as 1 then 0 (for instance `subtopics=["b", "a"]` with `a` mapped to 0 and `b` to 1): both rows get `[0, 1]` | each topic becomes its position among the unique topics, so different topics get different vectors | high (for pandas where the in-place replace takes effect); not executed | `Labels.SoftLabelMergesExample` | `Labels.SoftLabelIntended` |
