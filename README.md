# text-dedup pipeline in Dafny

This project models the exact-duplicate removal pipeline of `text_dedup/encoder.py`
(lovit/text-dedup) and proves properties of the model. It covers the following stages:

- **Fingerprinting.** Every line is reduced to its normal form by a `Normalizer`, which
  deletes every character outside an allowed class. An `Encoder` digests the UTF-8 bytes
  of the normal form into a hex code and returns the original line with it.
- **Batching.** `encode_a_file` strips each input line and skips blank ones. It collects
  the rest into batches of `n_processes * chunksize` lines, which it encodes and hands
  to `save_shards`.
- **Sharding.** `save_shards` groups a batch by code. It appends one record
  `"code line"` per line to the shard file of the code's prefix. `get_shard_path` turns
  that prefix into a path of two-character directories under the shard root.
- **Merging.** `task_merge` reads each shard and keeps the first text of every code. It
  appends the survivors to the current output block, opening a new block when a block
  budget would be exceeded. It can rewrite each shard grouped by code in ascending
  order. It counts what it read and what it kept.
- **Driving.** `task_dedup` refuses `sort` without `keep`, runs the encoding and then the
  merge, and removes the shard tree unless `keep` is set.

The file system is modelled as the `Disk` class. `shardFiles` maps paths to the
`(code, text)` records the shard holds. `outputs` maps block indices to the texts
written to them. Without a budget the single output file is block 0; with a budget
`output.k` is block `k`.

The model is of a POSIX platform. `os.path.sep` is "/", and a text-mode write of
`"\n"` appends exactly one byte, with no newline translation.

The functions that compute what the program computes, and the lemmas that specify
them in the table below:

- `get_shard_path` is `Shards.ShardPath`, and its slicing is `Shards.Segments`
  (`ShardPathExample`, `ShardPathInjective`, `SegmentsShape`).
- The shard of a code in `save_shards` is `Shards.Route` (`SameShardIffSamePrefix`).
- A record's text form is `Shards.FormatRecord`, and its parse in `task_merge` is
  `Shards.ParseRecord` (`RecordRoundTrip`).
- `line.strip()` is `Text.Strip` (`StripSpec`, `StripIdempotent`).
- The lines `encode_a_file` keeps are `Batching.CleanLines` (`CleanLinesClean`,
  `CleanLinesMembers`). The batches it flushes are `Batching.Batches` (`BatchesFlatten`,
  `BatchesSizes`, `BatchesCount`).
- The texts `task_merge` keeps from a shard are `Merge.Survivors` (`SurvivorsFirstSeen`,
  `SurvivorsCount`, `SurvivorsAllKept`). A shard's `texts_size` is `Merge.Contribution`
  (`ContributionIsWritten`).
- The block accumulator is `Merge.Push`, one shard at a time, and `Merge.Pack` over all
  shards (`PackJoin`, `PackBudget`, `PackGreedy`, `PackNonEmpty`). The output files are
  `Merge.BlockOutputs` of the packed blocks (`BlockOutputsAt`, `PushOutputs`).
- The sorted rewrite is `Merge.SortedRewrite` (`SortedRewritePermutation`,
  `SortedRewriteAscending`, `SortedRewriteKeepsOrder`).
- `n_duplicated` is `Merge.Seen` and `n_deduplicated` is `Merge.Kept` (`KeptSeen`).
- The paths the glob of `task_merge` matches are `Dedup.Globbed` (`RouteGlobbedIff`,
  `ListShards`).

The modules are:

| file | module | what it models |
|---|---|---|
| `results.dfy` | `Results` | `Option`, `Result`, the errors the program raises |
| `seqs.dfy` | `Seqs` | first-seen distinct lists, and grouping as a `defaultdict(list)` does it |
| `text.dfy` | `Text` | `str.strip`, UTF-8 encoding and decoding, string order, `sorted` |
| `encoding.dfy` | `Encoding` | `Normalizer`, `Encoder` |
| `disk.dfy` | `FileSystem` | shard files and output blocks |
| `shards.dfy` | `Shards` | `get_shard_path`, `save_shards`, the text form of a record |
| `batching.dfy` | `Batching` | `encode_a_file`, `task_encode` |
| `merge.dfy` | `Merge` | the loop of `task_merge` |
| `dedup.dfy` | `Dedup` | the glob of `task_merge`, `task_dedup` |

Where the code and its design notes disagree, the model follows the code:

- **The sort rewrite does not compact.** With `sort`, a shard is rewritten with every
  record it held, grouped by code. It is not cut down to one record per code
  (`SortedRewritePermutation`).
- **No records means a division by zero.** The code does not guard the case where no
  record is read. The final `100 * n_deduplicated / n_duplicated` raises
  `ZeroDivisionError`, modelled as `Failure(ZeroDivision)`. When this happens, the
  shard tree is not removed.
- **The prefix length is checked late.** A prefix length below 2 is only refused by the
  `assert` in `save_shards`, that is, once a non-blank line is written. It is not
  refused up front. The methods require it only in that case.

## Model

| member | source | states |
|---|---|---|
| Encoding.Normalize | text_dedup/encoder.py:16-17 | the normal form is no longer than the line and holds only allowed characters |
| Encoding.NormalizeKeepsAllowed | text_dedup/encoder.py:16-17 | every allowed character occurs in the normal form exactly as often as in the line |
| Encoding.NormalizeIsSubsequence | text_dedup/encoder.py:16-17 | the normal form is a subsequence of the line |
| Encoding.NormalizeAppend | text_dedup/encoder.py:16-17 | normalising distributes over concatenation |
| Encoding.NormalizeUnchanged | text_dedup/encoder.py:16-17 | a line is its own normal form if and only if all its characters are allowed |
| Encoding.NormalizeIdempotent | text_dedup/encoder.py:16-17 | normalising twice is normalising once |
| Encoding.NewEncoder | text_dedup/encoder.py:28-35 | construction succeeds exactly for a callable or the name "sha1"; otherwise it fails with UnsupportedHashType; the chosen digest and the normaliser are kept |
| Encoding.Encode | text_dedup/encoder.py:40-43 | the original line is returned unchanged alongside its code |
| Encoding.EncodeIgnoresDisallowed | text_dedup/encoder.py:40-43 | inserting a disallowed character anywhere leaves the code unchanged |
| Encoding.SameCodeIffSameNormalForm | text_dedup/encoder.py:40-43 | with a collision-free digest, two lines share a code exactly when their normal forms agree |
| Encoding.EncodeBatch | text_dedup/encoder.py:45-48 | the pool's imap pairs every line with its own code, in input order |
| Text.StripSpec | text_dedup/encoder.py:65 | `Text.Strip` yields a slice whose cut-off ends are whitespace and whose own ends are not; the result is empty exactly when the line is all whitespace |
| Text.StripIdempotent | text_dedup/encoder.py:65 | stripping twice is stripping once |
| Text.Utf8RoundTrip | text_dedup/encoder.py:42 | decoding the UTF-8 encoding of a string gives it back |
| Text.Utf8Injective | text_dedup/encoder.py:42 | distinct normal forms have distinct UTF-8 encodings |
| Batching.CleanLinesClean | text_dedup/encoder.py:65-68 | every line `Batching.CleanLines` keeps is stripped and non-empty |
| Batching.CleanLinesMembers | text_dedup/encoder.py:65-68 | a string is kept if and only if it is the strip of some input line and is non-empty |
| Batching.CleanLinesOfClean | text_dedup/encoder.py:65-68 | a file of already stripped non-blank lines is kept whole |
| Batching.BatchesFlatten | text_dedup/encoder.py:68-75 | the flushed batches, `Batching.Batches`, concatenate to the kept lines in order |
| Batching.BatchesSizes | text_dedup/encoder.py:68-75 | every batch but the last holds exactly the batch size; the last is non-empty and no larger |
| Batching.BatchesCount | text_dedup/encoder.py:68-75 | the number of batches is the kept line count divided by the batch size, rounded up |
| Batching.BatchSize | text_dedup/encoder.py:59-61 | positive worker count and chunk size give a positive batch size |
| Batching.EncodeAFile | text_dedup/encoder.py:59-75 | the loop leaves the shards as the ordered flushes of `Batches` of the kept lines; outputs are untouched |
| Batching.TaskEncode | text_dedup/encoder.py:94-103 | an unsupported hash type fails before anything is written; otherwise the files are encoded one after another |
| Shards.SegmentsShape | text_dedup/encoder.py:238-239 | `Shards.Segments` gives ceil(len/2) segments; segment i is code[2i..min(2i+2,len)]; they concatenate back to the code |
| Shards.ShardPathExample | text_dedup/encoder.py:233-236 | `Shards.ShardPath` of "path/to", "12345678" gives "path/to/12/34/56/78.shard" |
| Shards.ShardPathInjective | text_dedup/encoder.py:232-241 | codes without '/' get the same `Shards.ShardPath` only if they are equal |
| Shards.Prefix | text_dedup/encoder.py:221 | `code[:prefix_length]` is the first min(prefix_length, len) characters |
| Shards.SameShardIffSamePrefix | text_dedup/encoder.py:221-223 | two codes share a shard under `Shards.Route` if and only if their prefixes agree |
| Shards.SplitOnce | text_dedup/encoder.py:129 | a split re-joins to its input with a space-free head; there is no split exactly when there is no space |
| Shards.RecordRoundTrip | text_dedup/encoder.py:229 | a record written by `Shards.FormatRecord` as `f"{code} {line}"` reads back as `(code, line)` through `Shards.ParseRecord`, that is `strip().split(" ", 1)` |
| Shards.SaveShards | text_dedup/encoder.py:215-229 | the loop appends each code's group to its shard in first-seen order; outputs are untouched |
| Shards.SaveShardsAppendOnly | text_dedup/encoder.py:225-229 | every shard keeps its old records as a prefix and gains exactly its routed groups; a shard exists afterwards exactly when it existed or some line is routed to it |
| Shards.SaveShardsOneRecordPerLine | text_dedup/encoder.py:219-229 | the records appended to a shard are a permutation of the pairs routed to it: nothing is dropped or merged |
| Shards.SaveShardsKeepsLineOrder | text_dedup/encoder.py:221-229 | a code's records keep the batch order of its lines; a code routed elsewhere adds nothing |
| Seqs.DistinctFirstSeenOrder | text_dedup/encoder.py:133-136 | first-seen codes are listed in the order of their first appearance |
| Seqs.GroupInOrder | text_dedup/encoder.py:133-135 | the defaultdict's keys are the distinct codes in first-seen order, each mapped to its texts in order |
| Merge.SurvivorsFirstSeen | text_dedup/encoder.py:133-136 | each survivor in `Merge.Survivors` is the text at its code's first appearance, and survivors follow first appearances |
| Merge.SurvivorsCount | text_dedup/encoder.py:136-137 | there is one survivor per distinct code, and no more survivors than records |
| Merge.SurvivorsAllKept | text_dedup/encoder.py:136-137 | nothing is dropped from a shard if and only if its codes are all distinct |
| Merge.SurvivorsOfUnique | text_dedup/encoder.py:136 | a shard without repeated codes survives whole, in order |
| Merge.ContributionIsWritten | text_dedup/encoder.py:140-150 | `texts_size`, `Merge.Contribution`, is exactly the number of UTF-8 bytes the write appends |
| Merge.PackGrowth | text_dedup/encoder.py:141-145 | `block_index` rises by at most one per shard |
| Merge.PackJoin | text_dedup/encoder.py:141-150 | the blocks of `Merge.Pack`, built by `Merge.Push` one shard at a time, concatenated, are the shards' survivor lists in order |
| Merge.PackNonEmpty | text_dedup/encoder.py:141-143 | every block but block 0 holds a shard; block 0 is empty exactly when there are no shards or the first shard alone exceeds the budget |
| Merge.PackBudget | text_dedup/encoder.py:141-145 | with a budget, every block fits it or holds a single shard |
| Merge.PackGreedy | text_dedup/encoder.py:141-145 | a new block is started only when the shard would not fit in the previous one |
| Merge.PackNoBudget | text_dedup/encoder.py:141-142 | without a budget every shard goes to one block |
| Merge.NoBudgetSingleOutput | text_dedup/encoder.py:141-150 | without a budget the single output gains every survivor and nothing else changes |
| Merge.PushOutputs | text_dedup/encoder.py:147-150 | appending a shard's survivors to the current block keeps the outputs equal to `Merge.BlockOutputs` of the blocks so far |
| Merge.KeptSeen | text_dedup/encoder.py:130-137 | `n_deduplicated` (`Merge.Kept`) `<= n_duplicated` (`Merge.Seen`) after any number of shards, with equality exactly when no shard repeats a code |
| Merge.Percentage | text_dedup/encoder.py:159 | it fails with ZeroDivision exactly when nothing was read; otherwise value × seen = 100 × kept |
| Merge.PercentageBounds | text_dedup/encoder.py:159 | the percentage lies between 0 and 100 |
| Merge.SortedRewritePermutation | text_dedup/encoder.py:153-157 | the rewritten shard, `Merge.SortedRewrite`, holds the same records, duplicates included |
| Merge.SortedRewriteAscending | text_dedup/encoder.py:155 | the rewritten shard lists its codes in ascending order |
| Merge.SortedRewriteKeepsOrder | text_dedup/encoder.py:155-157 | each code keeps its texts in their original order |
| Merge.SortedRewriteSameSurvivors | text_dedup/encoder.py:136-157 | merging a rewritten shard again keeps the same text for each code |
| Merge.DedupShard | text_dedup/encoder.py:133-136 | the survivors are `Survivors` of the shard, with the grouping it was built from |
| Merge.SortShard | text_dedup/encoder.py:154-157 | the records written back are `SortedRewrite` of the shard |
| Merge.Place | text_dedup/encoder.py:140-145 | the accumulator stays the load and index of the last block of `Pack` |
| Merge.TaskMerge | text_dedup/encoder.py:118-159 | the outputs gain `Pack` of the survivors, the result is the percentage, and with `sort` every shard is rewritten |
| Seqs.GroupAdd | text_dedup/encoder.py:134-135 | one `d[key].append(value)`: a new key joins the iteration order at the end, every entry equals the values of its key in order, and a key without an entry has no values |
| Shards.WriteGroups | text_dedup/encoder.py:224-229 | the loop over the groups appends each code's records to the shard its prefix routes to, group after group; outputs are untouched |
| Shards.SaveShardsPaths | text_dedup/encoder.py:221-229 | a shard file exists after the call exactly when it existed before or the code of some line is routed to it |
| Merge.RewriteGroups | text_dedup/encoder.py:155-157 | writing the groups in the given code order gives those records regrouped by code in that order |
| Merge.BlockOutputsAt | text_dedup/encoder.py:147-150 | block file k exists exactly when it existed before or a shard was packed into block k, and holds its old contents followed by those shards' survivors in shard order |
| Merge.MergeShard | text_dedup/encoder.py:128-157 | one shard: the survivors and the record count, the accumulator for one more shard, the survivors appended to the current block, and the shard rewritten when `sort` is set |
| Merge.MergedStep | text_dedup/encoder.py:126-157 | after one more shard, the accumulator, outputs, counters and rewritten shards still follow the contents of the shards processed |
| Merge.MergeStep | text_dedup/encoder.py:126-157 | the loop body of `task_merge` keeps that state in step with one more shard |
| Batching.Absorb | text_dedup/encoder.py:64-72 | one line: the batches flushed so far followed by the open batch are the kept lines so far, every flushed batch is full, and the shards hold the flushes |
| Batching.AddLine | text_dedup/encoder.py:68-72 | a non-blank line joins the batch, and a full batch is flushed |
| Batching.FlushLast | text_dedup/encoder.py:73-75 | the last, partial batch is flushed when non-empty, leaving the shards as `encode_a_file` specifies |
| Dedup.MergeAndClean | text_dedup/encoder.py:203-212 | the listed shards are merged, then the shard tree is removed unless `keep` is set or the merge failed |
| Dedup.CheckSortKeep | text_dedup/encoder.py:176-177 | `sort` without `keep` is refused, and only that combination |
| Dedup.RoutedShardGlobbed | text_dedup/encoder.py:113-115 | the merge's glob finds every shard written for a code at least as long as the prefix |
| Dedup.ShortCodeShardMissed | text_dedup/encoder.py:113-115 | a code with fewer segments than the glob depth goes to a shard the glob does not match |
| Dedup.RouteGlobbedIff | text_dedup/encoder.py:113-115 | for a non-empty code without '/', the glob finds its shard exactly when its prefix has as many two-character segments as the glob has wildcards, ceil(prefix_length/2) |
| Dedup.ShortCodeExample | text_dedup/encoder.py:113-115 | with prefix length 4, code "ab" goes to "r/ab.shard", which the glob misses |
| Dedup.ListShards | text_dedup/encoder.py:113-115 | every shard `Dedup.Globbed` matches is listed once, in some order |
| Dedup.RemoveTree | text_dedup/encoder.py:211-212 | `rm -r` removes exactly the files under the shard root |
| Dedup.TaskDedup | text_dedup/encoder.py:176-212 | sort without keep fails before anything changes; a bad hash type fails before writing; otherwise the encoded shards the glob lists are merged and then removed unless kept or the merge failed |

## Left out

- Parallelism: `Encoder.encode_batch` runs a process pool. It is modelled as encoding the lines in order, which is what `imap` returns.
- SHA-1: the digest is an abstract function from bytes to a string. `Named("sha1")` selects a given function `sha1`.
- The regular expression: the allowed class is a character predicate. The default class is written out (`DefaultAllowed`).
- File access: reading and writing files, `os.makedirs`, and the `wc -l` line count are left out. The count only feeds a progress bar. Shards hold parsed records; `Shards.RecordRoundTrip` shows the text form reads back as written.
- Input globbing: the globs over input paths in `task_encode` and `task_dedup` are left out. The inputs are given as the files' lines, in order.
- Dedup.Globbed: the model of the shard glob does not exclude hidden names, and it treats the shard root as a literal path.
- Dedup.TaskDedup: `rm -r` is modelled as removing every shard file under the root; output files are not modelled as living there.
- Merge.Percentage: the quotient is an exact real. The program computes it as a double and only prints it, so `value × seen = 100 × kept` holds there only up to rounding.
- `tqdm` progress bars and the printed percentage, including its six-digit formatting, are left out.
- `humanized_to_number`: it works through floating point. The block budget is given as a number.
- `cpu_count`: the worker count is given by the caller.
- Batching.TaskEncode and Dedup.TaskDedup: both require a positive `chunksize` and `n_processes` even when there are no input files. The program asserts this per file, in `encode_a_file`.
- Output naming: output paths `output` and `output.k` are modelled as block indices.
- Record parsing: a record whose code holds a space would be misread by `split(" ", 1)`. Hex digests have none, so this is not modelled.
- `text_dedup/cli.py` and `setup.py` are not part of this model.
