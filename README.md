# Reduce phase of a MapReduce library, in Dafny

This project models the reduce task of a small MapReduce library (the Go
package `mapreduce`) together with the shared helpers it relies on.

A reduce task works on one partition. It goes through these steps:

1. It opens the intermediate file that each of the `nMap` map tasks wrote for
   that partition, named by `reduceName`. A missing file is fatal.
2. It decodes the records of every file in map-task order and appends them.
   Each file is read until its decoder reports an error or the end.
3. It sorts the records with `sort.Sort` through the `KeyValues` interface,
   whose `Less` compares the decimal value `strconv.Atoi` gives each key.
4. It walks the sorted records once. Each run of equal keys (string equality)
   becomes one group, and `reduceF` is called once per group.
5. It creates the output file, which is fatal if that fails. Then it encodes
   each result in order through one JSON encoder and reports each failed
   call. Encoding a record of two strings fails only when the write to the
   file fails. The encoder keeps that first write error and returns it from
   every later call without writing. So the file receives the results before
   the first failed write, and every result from there on is reported as a
   failure.

The model has three modules:

- `Common` (`common.dfy`) holds the record type and the file names. It also
  holds the numeric key projection `KeyNum`: a mathematical
  `strconv.Itoa`/`strconv.Atoi` pair where a syntax error counts as 0. Last
  come `Len`, `Less` and `Swap` of the sort interface, over an `array`.
- `ReduceSpec` (`reduce_spec.dfy`) holds the value-level definitions of each
  stage, and the lemmas that say what they mean. The stages are: decoding a
  stream, merging the sources, a sorted permutation, grouping, reducing and
  writing.
- `CommonReduce` (`common_reduce.dfy`) holds `doReduce` as imperative code.
  Its loops are proved against `ReduceSpec`, the sort is done in place on an
  array with `Less` and `Swap`, and the whole task is `DoReduce`.

The code does not use a key's string to decide where it sorts. It uses the
key's numeric value. Two different keys can share a value: "1" and "01", or
any two keys that are not numerals. Their records can then interleave after
the sort, and the pass that groups by string equality calls `reduceF`
more than once for the same key. The model follows the code here. The
"one result per distinct key" property is proved only for inputs on which
the numeric projection is injective (`ResultsByKey`). The duplicate for a
colliding input is exhibited (`DuplicateKeyWhenKeyNumCollides`).
Whatever the input, the results come out in the order of the sort, by
nondecreasing key value (`ResultsFollowOrder`).

## Model

| member | source | states |
|---|---|---|
| Common.Itoa | src/mapreduce/common.go:37 | strconv.Itoa on mathematical integers: a minus sign for a negative number, then the shortest decimal numeral of its magnitude |
| Common.Atoi | src/mapreduce/common.go:50-51 | strconv.Atoi on mathematical integers: an optional '+' or '-' followed by at least one decimal digit and nothing else gives its value; any other text is a syntax error (None) |
| Common.KeyNum | src/mapreduce/common.go:50-51 | the value Less compares for a key: Atoi's value, or 0 when Atoi reports an error, which the comparator discards |
| Common.ReduceName | src/mapreduce/common.go:36-38 | ReduceName is "mrtmp." + jobName + "-" + Itoa(mapTask) + "-" + Itoa(reduceTask) |
| Common.ReduceNameParses | src/mapreduce/common.go:36-38 | an intermediate file name reads back: after "mrtmp.", the job name and "-", it splits at its first dash into numerals that Atoi parses to the map task and the reduce task |
| Common.MergeName | src/mapreduce/common.go:41-43 | MergeName is "mrtmp." + jobName + "-res-" + Itoa(reduceTask) |
| Common.MergeNameParses | src/mapreduce/common.go:41-43 | an output file name reads back: after "mrtmp.", the job name and "-res-" comes a numeral that Atoi parses to the reduce task |
| Common.Less | src/mapreduce/common.go:49-53 | Less(i, j) holds exactly when KeyNum of key i is below KeyNum of key j |
| Common.KeyNumItoa | src/mapreduce/common.go:49-53 | Atoi parses what Itoa prints back to the same number, so the comparator orders numeral keys by their integer value |
| Common.ItoaInjective | src/mapreduce/common.go:37 | different task numbers print differently |
| Common.KeyNumCollisions | src/mapreduce/common.go:50-52 | the comparator's projection is not injective: "1", "01" and "+1" all compare as 1, and keys that are not numerals ("a", "", "-") compare as 0 like "0" |
| Common.ReduceNameInjective | src/mapreduce/common.go:36-38 | within one job, each (map task, reduce task) pair has its own intermediate file name, for any non-negative map task and any reduce task |
| Common.MergeNameInjective | src/mapreduce/common.go:41-43 | within one job, each reduce task has its own output file name |
| Common.ReduceNameNotMergeName | src/mapreduce/common.go:36-43 | an intermediate file name is never the output file name of a reduce task of the same job |
| Common.Len | src/mapreduce/common.go:48 | Len is the number of records in the slice |
| Common.LessIsStrictWeakOrder | src/mapreduce/common.go:49-53 | Less is irreflexive and transitive, and "neither is less" is transitive, as sort.Sort requires |
| Common.LessOfMalformedKey | src/mapreduce/common.go:49-53 | a key that fails to parse compares exactly like the key "0" |
| Common.Swap | src/mapreduce/common.go:54 | Swap exchanges the two positions in place, leaves every other position alone, and keeps the multiset of records |
| ReduceSpec.Decoded | src/mapreduce/common_reduce.go:70-78 | the records taken from one file are the good records before the first decode error, in stream order |
| ReduceSpec.DecodedUnique | src/mapreduce/common_reduce.go:70-78 | any run of good records followed by the end or an error is exactly what the decode loop yields |
| ReduceSpec.DecodedBadTail | src/mapreduce/common_reduce.go:73-76 | a malformed record loses itself and everything after it in that file, and every record before it is kept |
| ReduceSpec.MergedAppend | src/mapreduce/common_reduce.go:68-79 | merging is concatenation: merging two lists of sources one after the other gives the two merges one after the other |
| ReduceSpec.MergedSingle | src/mapreduce/common_reduce.go:69-78 | merging a single source gives what its decoder yields |
| ReduceSpec.MergedNothing | src/mapreduce/common_reduce.go:68-79 | with no sources, or only empty or immediately malformed ones, there are no records |
| ReduceSpec.GroupsPartition | src/mapreduce/common_reduce.go:85-111 | the grouping pass cuts the sorted records into maximal runs of equal keys: laid end to end the groups give the records back, no group is empty, neighbouring groups have different keys, and the last group has the last record's key |
| ReduceSpec.GroupsUnique | src/mapreduce/common_reduce.go:85-111 | that cut is the only one into maximal runs |
| ReduceSpec.GroupsKeepEveryValue | src/mapreduce/common_reduce.go:88-111 | the value lists handed to reduceF, one after another, are exactly the values of the sorted records in order |
| ReduceSpec.Reduced | src/mapreduce/common_reduce.go:91-97 | one result per group in group order: its key, and reduceF applied once to the key and the group's values |
| ReduceSpec.ResultsAdjacentKeysDiffer | src/mapreduce/common_reduce.go:89-100 | neighbouring results never have the same key |
| ReduceSpec.NoRecordsNoResults | src/mapreduce/common_reduce.go:88-111 | when no source yields a record there are no results and no reduce call |
| ReduceSpec.GroupsCoverKeys | src/mapreduce/common_reduce.go:88-111 | whatever the order, the group keys are exactly the keys present in the records |
| ReduceSpec.ValuesForPermutation | src/mapreduce/common_reduce.go:82 | sorting reorders each key's values and does nothing else to them |
| ReduceSpec.PermutationKeySet | src/mapreduce/common_reduce.go:82 | sorting keeps the set of keys |
| ReduceSpec.GroupsByKey | src/mapreduce/common_reduce.go:82-111 | on sorted records whose keys have distinct numeric values, no two groups share a key and each group holds every value of its key, in order |
| ReduceSpec.DistinctKeysCount | src/mapreduce/common_reduce.go:88-111 | groups with pairwise different keys are as many as their keys |
| ReduceSpec.ResultsByKey | src/mapreduce/common_reduce.go:82-111 | for any sorted permutation of the merged records whose keys have distinct numeric values: result keys are pairwise different, a key has a result exactly when it occurs in the input, there are as many results as distinct keys, each result is reduceF of its key and that key's values, and those values are a permutation of the key's values in the input |
| ReduceSpec.GroupsFollowOrder | src/mapreduce/common_reduce.go:82-111 | grouping records sorted by key value gives groups whose key values are nondecreasing, in the order of the sort |
| ReduceSpec.GroupsStrictlyAscend | src/mapreduce/common_reduce.go:82-111 | when the numeric values separate the keys present, the groups of sorted records come in strictly increasing key value |
| ReduceSpec.ResultsFollowOrder | src/mapreduce/common_reduce.go:82-111 | the results of sorted records appear in the sort order: key values nondecreasing, and strictly increasing when the numeric values separate the keys present |
| ReduceSpec.ExampleMerged | src/mapreduce/common_reduce.go:68-79 | three sources holding (k1, a) (k2, x), then (k1, b), then (k2, y) (k1, c) merge into those five records in that order |
| ReduceSpec.ExampleKeys | src/mapreduce/common_reduce.go:68-79 | in that example, the keys are k1 and k2, and their values are a, b, c and x, y |
| ReduceSpec.TwoKeysTwoResults | src/mapreduce/common_reduce.go:82-111 | records with exactly two keys of different numeric values give exactly two results, one for each key |
| ReduceSpec.TwoKeysThreeSources | src/mapreduce/common_reduce.go:55-111 | for the three-source example, whatever order the sort leaves there are two results. One is for k1, reducing a, b and c in some order; the other is for k2, reducing x and y in some order |
| ReduceSpec.DuplicateKeyWhenKeyNumCollides | src/mapreduce/common_reduce.go:82-103 | keys "1", "01", "1" are already sorted, yet they give three results, two of them for key "1": reduceF is called twice for one key |
| ReduceSpec.Written | src/mapreduce/common_reduce.go:120-126 | what reaches the file is the results before the first failed write: a prefix of the results, every write in it succeeded, and the write of the next result (if any) failed |
| ReduceSpec.WrittenUnique | src/mapreduce/common_reduce.go:120-126 | those three properties determine the output: any prefix that ends at the first failed write is what is written |
| ReduceSpec.WrittenFromResults | src/mapreduce/common_reduce.go:120-126 | when no write fails every result is written, in order, and no failure is reported |
| ReduceSpec.WrittenPrefix | src/mapreduce/common_reduce.go:120-126 | what is written from the first results is a prefix of what is written from all of them: a later failure never undoes an earlier write |
| ReduceSpec.WrittenStopsAtFailure | src/mapreduce/common_reduce.go:120-126 | nothing after a failed write reaches the file, and that result and all later ones are reported as failures |
| CommonReduce.Sources | src/mapreduce/common_reduce.go:55-64 | the opened files are one per map task, file m being the intermediate file of map task m |
| CommonReduce.OpenSources | src/mapreduce/common_reduce.go:55-64 | the open loop succeeds exactly when every intermediate file exists, and then yields them in map-task order; otherwise it stops at the first missing file and names it |
| CommonReduce.DecodeSource | src/mapreduce/common_reduce.go:70-78 | the decode loop of one file yields exactly the records before the first error or the end |
| CommonReduce.MergeSources | src/mapreduce/common_reduce.go:68-79 | the nested decode loops produce exactly the merge of the sources |
| CommonReduce.SinkRecord | src/mapreduce/common_reduce.go:82 | one insertion pass through Less and Swap: if the records before position i are in key order, afterwards the first i + 1 records are, and the array holds the same records |
| CommonReduce.SortRecords | src/mapreduce/common_reduce.go:82 | sorting through Len, Less and Swap leaves the array nondecreasing by key value, and a permutation of what it held |
| CommonReduce.GroupAndReduce | src/mapreduce/common_reduce.go:85-111 | the grouping loop with preKey and values produces exactly one result per maximal run of equal keys of the array, in order (the value-level results above) |
| CommonReduce.ReduceFiles | src/mapreduce/common_reduce.go:67-111 | merging, sorting and grouping the opened files gives the reduce output of some sorted permutation of their merged records, and nothing when no file yields a record |
| CommonReduce.WriteResults | src/mapreduce/common_reduce.go:120-126 | the write loop, with the encoder's sticky error, writes exactly Written of the results and reports Failures of them |
| CommonReduce.DoReduce | src/mapreduce/common_reduce.go:55-126 | a missing intermediate file is fatal and named; otherwise an output file that cannot be created is fatal; otherwise the results are the reduce output of some sorted permutation of the merged records, and the records written are those before the first failed write; with no records the task completes with nothing written |

## Left out

- Opening, closing and the deferred closes of files are not modelled. The
  intermediate files are a map from name to the decoder steps each yields.
  Whether `os.Create` succeeds is a boolean parameter.
- JSON at the byte level is not modelled. A file is a sequence of tokens, each
  a decoded record or an error. Whether the write of the i-th encoded result
  succeeds is a parameter, `writeOk`.
- CommonReduce.WriteResults: a failed write may have put part of a record
  in the file before failing. The model counts that record as not written.
- `log.Fatal` ends the process. It is modelled as the `MissingSource` and
  `CannotCreate` outcomes. The message printed to standard error on an
  encoding failure is modelled only as a count of failures.
- `debug`, `debugEnabled` and `jobPhase` in common.go are not part of the core
  and are left out.
- CommonReduce.SortRecords: `sort.Sort` uses whatever algorithm the Go
  release provides (quicksort with a heapsort fallback before Go 1.19,
  pattern-defeating quicksort from 1.19 on). The model uses an
  insertion sort over the same `Len`, `Less` and `Swap`. `DoReduce` relies
  only on the result being a sorted permutation, quantifying over every
  such order, since `sort.Sort` is not stable.
- The slice holds pointers to records (`[]*KeyValue`), and `Swap` exchanges
  pointers. The model holds the records themselves in an array. Each record
  is allocated afresh per decode call, so nothing is aliased.
- Common.KeyNum: strconv.Atoi on a 64-bit platform clamps an out-of-range
  numeral to the largest or smallest int64 and reports a range error, which
  the comparator ignores. The model parses to an unbounded integer, so very
  large keys compare by their true value.
- Common.Itoa: prints a mathematical integer. Task numbers beyond Go's `int`
  range cannot occur in the program.
- `reduceF` is an arbitrary total function. A panic inside it is not
  modelled.
- The "one result per distinct key" property holds only when the numeric
  projection of the keys is injective. ReduceSpec.ResultsByKey requires
  that; without it the code can produce duplicates, as
  ReduceSpec.DuplicateKeyWhenKeyNumCollides shows.
