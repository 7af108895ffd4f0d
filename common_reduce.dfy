/** doReduce, the reduce task of one partition, as the program runs it:
    open the intermediate file of every map task, decode and append their
    records, sort them in place by the numeric value of the key, group equal
    keys in one pass calling reduceF once per group, and write the results.
    Each stage is a method proved against the definitions of ReduceSpec. */
module CommonReduce {
  import opened Common
  import opened ReduceSpec

  /** The files the task can open, by name, each seen as the sequence of
      decoder steps it yields. */
  type FileSystem = map<string, seq<Token>>

  /** How a reduce task ends. The two fatal errors stop the task (the
      program exits through log.Fatal); a task that completes has computed
      its results and written those whose encoding succeeded, reporting each
      failure. */
  datatype Outcome =
    | MissingSource(name: string)
    | CannotCreate(name: string)
    | Completed(results: seq<KeyValue>, written: seq<KeyValue>, failures: nat)

  /** The intermediate files of map tasks 0 .. nMap - 1 for this reduce task
      all exist. */
  predicate SourcesExist(fs: FileSystem, jobName: string, reduceTask: int, nMap: int)
  {
    forall m :: 0 <= m < nMap ==> ReduceName(jobName, m, reduceTask) in fs
  }

  /** Their contents, in map task order. */
  function Sources(fs: FileSystem, jobName: string, reduceTask: int, nMap: int): (files: seq<seq<Token>>)
    requires SourcesExist(fs, jobName, reduceTask, nMap)
    ensures |files| == if nMap < 0 then 0 else nMap
    ensures forall m :: 0 <= m < |files| ==> files[m] == fs[ReduceName(jobName, m, reduceTask)]
  {
    if nMap <= 0 then []
    else
      assert SourcesExist(fs, jobName, reduceTask, nMap - 1);
      var front := Sources(fs, jobName, reduceTask, nMap - 1);
      assert |front| == nMap - 1;
      front + [fs[ReduceName(jobName, nMap - 1, reduceTask)]]
  }

  /** Opens the intermediate file of each map task in turn; the first one
      that does not exist is fatal. */
  method OpenSources(fs: FileSystem, jobName: string, reduceTask: int, nMap: int)
    returns (files: seq<seq<Token>>, missing: Option<string>)
    ensures missing.None? <==> SourcesExist(fs, jobName, reduceTask, nMap)
    ensures missing.None? ==> files == Sources(fs, jobName, reduceTask, nMap)
    ensures missing.Some? ==>
      exists m :: (0 <= m < nMap && SourcesExist(fs, jobName, reduceTask, m) &&
                   missing.value == ReduceName(jobName, m, reduceTask) && missing.value !in fs)
  {
    files := [];
    var m := 0;
    while m < nMap
      invariant 0 <= m <= (if nMap < 0 then 0 else nMap)
      invariant SourcesExist(fs, jobName, reduceTask, m)
      invariant files == Sources(fs, jobName, reduceTask, m)
    {
      var name := ReduceName(jobName, m, reduceTask);
      if name !in fs {
        return files, Some(name);
      }
      files := files + [fs[name]];
      assert SourcesExist(fs, jobName, reduceTask, m + 1);
      assert files == Sources(fs, jobName, reduceTask, m + 1);
      m := m + 1;
    }
    missing := None;
  }

  /** The decode loop of one file: append each record until the decoder
      reports an error or the end. */
  method DecodeSource(stream: seq<Token>) returns (kvs: seq<KeyValue>)
    ensures kvs == Decoded(stream)
  {
    kvs := [];
    var i := 0;
    while i < |stream| && stream[i].Good?
      invariant 0 <= i <= |stream| && |kvs| == i
      invariant forall k :: 0 <= k < i ==> stream[k] == Good(kvs[k])
    {
      kvs := kvs + [stream[i].kv];
      i := i + 1;
    }
    DecodedUnique(stream, kvs);
  }

  /** Decodes every file in order, appending its records to those of the
      files before it. */
  method MergeSources(files: seq<seq<Token>>) returns (kvs: seq<KeyValue>)
    ensures kvs == Merged(files)
  {
    kvs := [];
    var f := 0;
    while f < |files|
      invariant 0 <= f <= |files|
      invariant kvs == Merged(files[..f])
    {
      var decoded := DecodeSource(files[f]);
      kvs := kvs + decoded;
      assert files[..f + 1][..f] == files[..f];
      f := f + 1;
    }
    assert files[..f] == files;
  }

  /** The first n records are nondecreasing by key value. */
  predicate SortedPrefix(a: seq<KeyValue>, n: int)
    requires 0 <= n <= |a|
  {
    forall p, q :: 0 <= p < q < n ==> KeyNum(a[p].Key) <= KeyNum(a[q].Key)
  }

  /** While record j sinks into a[..i + 1]: the other records there are in
      order, and record j is not above any record after it. */
  predicate Sinking(a: seq<KeyValue>, j: int, i: int)
    requires 0 <= j <= i < |a|
  {
    (forall p, q :: 0 <= p < q <= i && p != j && q != j ==> KeyNum(a[p].Key) <= KeyNum(a[q].Key)) &&
    (forall q :: j < q <= i ==> KeyNum(a[j].Key) <= KeyNum(a[q].Key))
  }

  lemma SinkingStart(a: seq<KeyValue>, i: int)
    requires 0 <= i < |a| && SortedPrefix(a, i)
    ensures Sinking(a, i, i)
  {
  }

  /** Swapping record j with a greater neighbour before it moves it one
      step down and keeps the invariant. */
  lemma SinkingSwap(a: seq<KeyValue>, j: int, i: int)
    requires 0 < j <= i < |a| && Sinking(a, j, i)
    requires KeyNum(a[j].Key) < KeyNum(a[j - 1].Key)
    ensures Sinking(a[j := a[j - 1]][j - 1 := a[j]], j - 1, i)
  {
    var b := a[j := a[j - 1]][j - 1 := a[j]];
    forall p, q | 0 <= p < q <= i && p != j - 1 && q != j - 1
      ensures KeyNum(b[p].Key) <= KeyNum(b[q].Key)
    {
      if q == j {
        assert b[q] == a[j - 1] && b[p] == a[p];
      } else if p == j {
        assert b[p] == a[j - 1] && b[q] == a[q];
      } else {
        assert b[p] == a[p] && b[q] == a[q];
      }
    }
    forall q | j - 1 < q <= i
      ensures KeyNum(b[j - 1].Key) <= KeyNum(b[q].Key)
    {
      if q > j {
        assert b[q] == a[q];
      }
    }
  }

  /** Once record j is not below its neighbour before it, a[..i + 1] is in
      order. */
  lemma SinkingDone(a: seq<KeyValue>, j: int, i: int)
    requires 0 <= j <= i < |a| && Sinking(a, j, i)
    requires j > 0 ==> KeyNum(a[j - 1].Key) <= KeyNum(a[j].Key)
    ensures SortedPrefix(a, i + 1)
  {
    forall p, q | 0 <= p < q < i + 1
      ensures KeyNum(a[p].Key) <= KeyNum(a[q].Key)
    {
      if q == j && p < j - 1 {
        assert KeyNum(a[p].Key) <= KeyNum(a[j - 1].Key);
      }
    }
  }

  /** One pass of the insertion sort: record i sinks through the sorted
      records before it, swapping with each greater neighbour. */
  method SinkRecord(kvs: array<KeyValue>, i: int)
    requires 0 <= i < kvs.Length && SortedPrefix(kvs[..], i)
    modifies kvs
    ensures SortedPrefix(kvs[..], i + 1)
    ensures multiset(kvs[..]) == multiset(old(kvs[..]))
  {
    SinkingStart(kvs[..], i);
    var j := i;
    while 0 < j && Less(kvs, j, j - 1)
      invariant 0 <= j <= i
      invariant Sinking(kvs[..], j, i)
      invariant multiset(kvs[..]) == multiset(old(kvs[..]))
    {
      ghost var a := kvs[..];
      Swap(kvs, j, j - 1);
      assert kvs[..] == a[j := a[j - 1]][j - 1 := a[j]];
      SinkingSwap(a, j, i);
      j := j - 1;
    }
    ghost var b := kvs[..];
    assert j > 0 ==> KeyNum(b[j - 1].Key) <= KeyNum(b[j].Key);
    SinkingDone(b, j, i);
  }

  /** sort.Sort through the KeyValues interface: an insertion sort that
      compares with Less and moves records with Swap. */
  method SortRecords(kvs: array<KeyValue>)
    modifies kvs
    ensures SortedByKey(kvs[..])
    ensures multiset(kvs[..]) == multiset(old(kvs[..]))
  {
    var i := 0;
    while i < Len(kvs)
      invariant 0 <= i <= kvs.Length
      invariant SortedPrefix(kvs[..], i)
      invariant multiset(kvs[..]) == multiset(old(kvs[..]))
    {
      SinkRecord(kvs, i);
      i := i + 1;
    }
    assert SortedPrefix(kvs[..], kvs.Length);
  }

  /** The groups of the grouping pass so far: those closed, then the one
      being built, if it has any value. */
  function Current(done: seq<Group>, preKey: string, values: seq<string>): seq<Group>
  {
    if values == [] then done else done + [Group(preKey, values)]
  }

  /** A record with another key than preKey closes the group being built
      and opens its own. */
  lemma NewKeyStep(prefix: seq<KeyValue>, kv: KeyValue, done: seq<Group>, preKey: string, values: seq<string>)
    requires Groups(prefix) == Current(done, preKey, values)
    requires values == [] ==> done == []
    requires kv.Key != preKey
    ensures Groups(prefix + [kv]) == Current(done, preKey, values) + [Group(kv.Key, [kv.Value])]
  {
    GroupsSnoc(prefix, kv);
    var open := Current(done, preKey, values);
    if values != [] {
      assert open[|open| - 1] == Group(preKey, values);
    }
  }

  /** A record with key preKey joins the group being built. */
  lemma SameKeyStep(prefix: seq<KeyValue>, kv: KeyValue, done: seq<Group>, preKey: string, values: seq<string>)
    requires Groups(prefix) == Current(done, preKey, values)
    requires values == [] ==> done == []
    requires kv.Key == preKey
    ensures Groups(prefix + [kv]) == done + [Group(preKey, values + [kv.Value])]
  {
    GroupsSnoc(prefix, kv);
    if values != [] {
      var open := done + [Group(preKey, values)];
      assert open[|open| - 1] == Group(preKey, values) && open[..|open| - 1] == done;
    } else {
      assert values + [kv.Value] == [kv.Value];
    }
  }

  /** The grouping pass: preKey and values hold the group being built; a
      record with another key closes it, calling reduceF once for it, and
      opens the next; after the last record the open group is closed. */
  method GroupAndReduce(kvs: array<KeyValue>, reduceF: (string, seq<string>) -> string)
    returns (result: seq<KeyValue>)
    ensures result == ReduceOutput(kvs[..], reduceF)
  {
    var preKey := "";
    var values: seq<string> := [];
    result := [];
    ghost var done: seq<Group> := [];
    for i := 0 to kvs.Length
      invariant result == Reduced(done, reduceF)
      invariant Groups(kvs[..i]) == Current(done, preKey, values)
      invariant values == [] <==> i == 0
      invariant values == [] ==> preKey == "" && done == []
    {
      var kv := kvs[i];
      assert kvs[..i + 1] == kvs[..i] + [kv];
      if kv.Key != preKey {
        NewKeyStep(kvs[..i], kv, done, preKey, values);
        if |values| > 0 {
          ReducedSnoc(done, Group(preKey, values), reduceF);
          result := result + [KeyValue(preKey, reduceF(preKey, values))];
          done := done + [Group(preKey, values)];
        }
        values := [kv.Value];
        preKey := kv.Key;
      } else {
        // Also reached by a first record whose key is "", the initial preKey:
        // it then opens the first group, as a record with another key would.
        SameKeyStep(kvs[..i], kv, done, preKey, values);
        values := values + [kv.Value];
      }
    }
    if |values| > 0 {
      ReducedSnoc(done, Group(preKey, values), reduceF);
      result := result + [KeyValue(preKey, reduceF(preKey, values))];
      done := done + [Group(preKey, values)];
    }
    assert kvs[..kvs.Length] == kvs[..];
  }

  /** Encodes the results in order through one encoder; writeOk(i) says
      whether the write of result i succeeds. The encoder keeps the first
      write error: every later call returns it without writing. Each failed
      call is reported and the loop goes on. */
  method WriteResults(results: seq<KeyValue>, writeOk: nat -> bool)
    returns (written: seq<KeyValue>, failures: nat)
    ensures written == Written(results, writeOk)
    ensures failures == Failures(results, writeOk)
  {
    written, failures := [], 0;
    var encErr := false;
    for i := 0 to |results|
      invariant written == Written(results[..i], writeOk)
      invariant failures == i - |written|
      invariant encErr <==> |written| < i
    {
      assert results[..i + 1][..i] == results[..i];
      if encErr {
        failures := failures + 1;
      } else if writeOk(i) {
        written := written + [results[i]];
      } else {
        encErr := true;
        failures := failures + 1;
      }
    }
    assert results[..|results|] == results;
  }

  /** Steps 2 to 4 of the task on the opened files: merge their records,
      sort them in place, and group and reduce them. The results are those
      of some order sort.Sort may leave the merged records in: the sort is
      not stable, so which one is left open. */
  method ReduceFiles(files: seq<seq<Token>>, reduceF: (string, seq<string>) -> string)
    returns (results: seq<KeyValue>)
    ensures exists s :: IsSortOf(s, Merged(files)) && results == ReduceOutput(s, reduceF)
    ensures (forall i :: 0 <= i < |files| ==> Decoded(files[i]) == []) ==> results == []
  {
    var merged := MergeSources(files);
    var kvs := new KeyValue[|merged|](i requires 0 <= i < |merged| => merged[i]);
    assert kvs[..] == merged;
    SortRecords(kvs);
    var sorted := kvs[..];
    assert IsSortOf(sorted, merged);
    results := GroupAndReduce(kvs, reduceF);
    if forall i :: 0 <= i < |files| ==> Decoded(files[i]) == [] {
      NoRecordsNoResults(files, sorted, reduceF);
    }
  }

  /** The reduce task. The file system fs stands for the intermediate files
      on disk, outFileCreatable for whether os.Create(outFile) succeeds, and
      writeOk for which writes of encoded results succeed. */
  method DoReduce(jobName: string, reduceTask: int, outFile: string, nMap: int,
                  reduceF: (string, seq<string>) -> string,
                  fs: FileSystem, outFileCreatable: bool, writeOk: nat -> bool)
    returns (outcome: Outcome)
    ensures outcome.MissingSource? <==> !SourcesExist(fs, jobName, reduceTask, nMap)
    ensures outcome.MissingSource? ==>
      exists m :: (0 <= m < nMap && SourcesExist(fs, jobName, reduceTask, m) &&
                   outcome.name == ReduceName(jobName, m, reduceTask) && outcome.name !in fs)
    ensures outcome.CannotCreate? <==> SourcesExist(fs, jobName, reduceTask, nMap) && !outFileCreatable
    ensures outcome.CannotCreate? ==> outcome.name == outFile
    ensures outcome.Completed? ==>
      exists s :: IsSortOf(s, Merged(Sources(fs, jobName, reduceTask, nMap))) &&
        outcome.results == ReduceOutput(s, reduceF) &&
        outcome.written == Written(outcome.results, writeOk) &&
        outcome.failures == Failures(outcome.results, writeOk)
    ensures (SourcesExist(fs, jobName, reduceTask, nMap) && outFileCreatable &&
             forall m :: 0 <= m < nMap ==> Decoded(fs[ReduceName(jobName, m, reduceTask)]) == []) ==>
      outcome == Completed([], [], 0)
  {
    var files, missing := OpenSources(fs, jobName, reduceTask, nMap);
    if missing.Some? {
      return MissingSource(missing.value);
    }
    var results := ReduceFiles(files, reduceF);
    if !outFileCreatable {
      return CannotCreate(outFile);
    }
    var written, failures := WriteResults(results, writeOk);
    outcome := Completed(results, written, failures);
  }
}
