/** `task_dedup`: check the options, encode every input into the shards,
    merge the shards the glob of `task_merge` finds, and remove the shard
    tree unless it is kept. */
module Dedup {
  import opened Results
  import opened Seqs
  import opened Text
  import opened Encoding
  import opened FileSystem
  import opened Shards
  import opened Batching
  import opened Merge

  // ---- the options ----

  /** `if sort and not keep: raise ValueError(...)`: rewriting the shards
      sorted is pointless when they are removed afterwards. */
  function CheckSortKeep(sort: bool, keep: bool): (r: Option<Error>)
    ensures r.Some? <==> sort && !keep
    ensures r.Some? ==> r.value == SortWithoutKeep
  {
    if sort && !keep then Some(SortWithoutKeep) else None
  }

  // ---- the glob of task_merge ----

  function SlashCount(s: string): nat {
    if s == [] then 0 else (if s[0] == '/' then 1 else 0) + SlashCount(s[1..])
  }

  lemma {:induction false} SlashCountAppend(a: string, b: string)
    ensures SlashCount(a + b) == SlashCount(a) + SlashCount(b)
  {
    if a != [] {
      assert (a + b)[0] == a[0] && (a + b)[1..] == a[1..] + b;
      SlashCountAppend(a[1..], b);
    } else {
      assert a + b == b;
    }
  }

  lemma {:induction false} SlashCountFree(s: string)
    requires '/' !in s
    ensures SlashCount(s) == 0
  {
    if s != [] {
      forall j | 0 <= j < |s[1..]| ensures s[1..][j] != '/' {
        assert s[1..][j] == s[j + 1];
      }
      SlashCountFree(s[1..]);
    }
  }

  /** Joining slash-free segments puts one slash between each two. */
  lemma {:induction false} SlashCountJoin(segs: seq<string>)
    requires segs != []
    requires forall i :: 0 <= i < |segs| ==> '/' !in segs[i]
    ensures SlashCount(JoinSlash(segs)) == |segs| - 1
  {
    SlashCountFree(segs[0]);
    if |segs| > 1 {
      SlashCountJoin(segs[1..]);
      SlashCountAppend(segs[0], "/");
      SlashCountAppend(segs[0] + "/", JoinSlash(segs[1..]));
    }
  }

  /** The paths `glob(f"{shard_root}/{wildcard}.shard")` matches, where the
      wildcard is `ceil(prefix_length / 2)` stars joined by slashes: the
      shard root, then that many slash-separated names, then ".shard". */
  predicate Globbed(shardRoot: string, prefixLength: nat, p: string) {
    var depth := (prefixLength + 1) / 2;
    var n := |shardRoot| + 1;
    if depth == 0 then p == shardRoot + "/.shard"
    else
      && |p| >= n + 6
      && p[..n] == shardRoot + "/"
      && p[|p| - 6..] == ".shard"
      && SlashCount(p[n..|p| - 6]) == depth - 1
  }

  /** The slash-separated names between the root and ".shard" of a shard
      path are the segments of its code. */
  lemma ShardPathMiddle(shardRoot: string, code: string)
    ensures var p := ShardPath(shardRoot, code);
      var n := |shardRoot| + 1;
      && |p| >= n + 6 && p[..n] == shardRoot + "/" && p[|p| - 6..] == ".shard"
      && p[n..|p| - 6] == JoinSlash(Segments(code))
  {
  }

  lemma SegmentsSlashFree(code: string)
    requires '/' !in code
    ensures forall i :: 0 <= i < |Segments(code)| ==> '/' !in Segments(code)[i]
  {
    SegmentsShape(code);
    forall i | 0 <= i < |Segments(code)| ensures '/' !in Segments(code)[i] {
      var seg := Segments(code)[i];
      forall j | 0 <= j < |seg| ensures seg[j] != '/' {
        assert seg[j] == code[2 * i + j];
      }
    }
  }

  /** The merge finds every shard `save_shards` writes for a code at least as
      long as the prefix. */
  lemma RoutedShardGlobbed(shardRoot: string, prefixLength: nat, code: string)
    requires '/' !in code && prefixLength >= 1 && |code| >= prefixLength
    ensures Globbed(shardRoot, prefixLength, Route(shardRoot, prefixLength, code))
  {
    var prefix := Prefix(code, prefixLength);
    forall j | 0 <= j < |prefix| ensures prefix[j] != '/' {
      assert prefix[j] == code[j];
    }
    SegmentsShape(prefix);
    SegmentsSlashFree(prefix);
    SlashCountJoin(Segments(prefix));
    ShardPathMiddle(shardRoot, prefix);
  }

  /** A code with fewer segments than the glob's depth (a digest shorter than
      `prefix_length - 1` characters) is written to a shard the merge never
      reads: its lines are dropped from the output. */
  lemma ShortCodeShardMissed(shardRoot: string, prefixLength: nat, code: string)
    requires '/' !in code && code != [] && (|code| + 1) / 2 < (prefixLength + 1) / 2
    ensures !Globbed(shardRoot, prefixLength, Route(shardRoot, prefixLength, code))
  {
    var prefix := Prefix(code, prefixLength);
    assert prefix == code;
    SegmentsShape(code);
    SegmentsSlashFree(code);
    SlashCountJoin(Segments(code));
    ShardPathMiddle(shardRoot, code);
  }

  /** Whether the merge finds the shard of a code: for every non-empty code
      without '/', exactly when its prefix has as many segments as the glob
      has wildcards. */
  lemma RouteGlobbedIff(shardRoot: string, prefixLength: nat, code: string)
    requires '/' !in code && code != []
    ensures Globbed(shardRoot, prefixLength, Route(shardRoot, prefixLength, code))
      <==> (Min(|code|, prefixLength) + 1) / 2 == (prefixLength + 1) / 2
  {
    var prefix := Prefix(code, prefixLength);
    ShardPathMiddle(shardRoot, prefix);
    if prefixLength == 0 {
      assert prefix == [] && Segments(prefix) == [];
      assert Route(shardRoot, prefixLength, code) == shardRoot + "/.shard";
    } else {
      forall j | 0 <= j < |prefix| ensures prefix[j] != '/' {
        assert prefix[j] == code[j];
      }
      SegmentsShape(prefix);
      SegmentsSlashFree(prefix);
      SlashCountJoin(Segments(prefix));
    }
  }

  lemma ShortCodeExample()
    ensures Route("r", 4, "ab") == "r/ab.shard"
    ensures !Globbed("r", 4, "r/ab.shard")
  {
    assert Prefix("ab", 4) == "ab";
    assert Segments("ab") == ["ab"];
    assert JoinSlash(["ab"]) == "ab";
    ShortCodeShardMissed("r", 4, "ab");
  }

  /** The glob: every shard file it matches, once each, in an order the file
      system chooses. */
  method ListShards(disk: Disk, shardRoot: string, prefixLength: nat) returns (shards: seq<string>)
    ensures NoDups(shards)
    ensures forall p :: p in shards <==> p in disk.shardFiles && Globbed(shardRoot, prefixLength, p)
  {
    var remaining := set p | p in disk.shardFiles && Globbed(shardRoot, prefixLength, p);
    shards := [];
    while remaining != {}
      invariant NoDups(shards)
      invariant forall p :: p in shards ==> p !in remaining
      invariant forall p :: p in shards || p in remaining <==> p in disk.shardFiles && Globbed(shardRoot, prefixLength, p)
      decreases |remaining|
    {
      var p :| p in remaining;
      shards := shards + [p];
      remaining := remaining - {p};
    }
  }

  // ---- removing the shard tree ----

  /** The store after `rm -r shard_root`: every file under the root is gone. */
  function RemoveTree(files: map<string, seq<Record>>, shardRoot: string): (r: map<string, seq<Record>>)
    ensures forall p :: p in r <==> p in files && !(shardRoot + "/" <= p)
    ensures forall p :: p in r ==> r[p] == files[p]
  {
    map p | p in files && !(shardRoot + "/" <= p) :: files[p]
  }

  // ---- task_dedup ----

  /** What `task_dedup` leaves behind when it runs to the end or to the
      division by zero of the merge: the shards of `encoded` that the glob
      lists as `shards` are merged into the outputs, and the shard tree is
      removed unless `keep` is set or the merge failed. */
  ghost predicate Deduplicated(encoded: map<string, seq<Record>>, outputs: map<nat, seq<string>>,
                               shardRoot: string, prefixLength: nat, maxBlockSize: Option<nat>,
                               sort: bool, keep: bool, shards: seq<string>, r: Result<real, Error>,
                               outputs': map<nat, seq<string>>, files': map<string, seq<Record>>)
  {
    var cs := Contents(encoded, shards);
    var merged := if sort then RewriteAll(encoded, shards) else encoded;
    && NoDups(shards)
    && (forall p :: p in shards <==> p in encoded && Globbed(shardRoot, prefixLength, p))
    && outputs' == BlockOutputs(outputs, Pack(SurvivorLists(cs), maxBlockSize))
    && r == Percentage(Kept(cs), Seen(cs))
    && files' == if keep || r.Failure? then merged else RemoveTree(merged, shardRoot)
  }

  /** The second half of `task_dedup`, once the shards are written: list
      them, merge them, and remove the shard tree unless `keep` is set. */
  method MergeAndClean(disk: Disk, shardRoot: string, prefixLength: nat, maxBlockSize: Option<nat>,
                       sort: bool, keep: bool)
    returns (r: Result<real, Error>, ghost shards: seq<string>)
    modifies disk
    ensures Deduplicated(old(disk.shardFiles), old(disk.outputs), shardRoot, prefixLength, maxBlockSize, sort, keep,
                         shards, r, disk.outputs, disk.shardFiles)
  {
    ghost var encoded := disk.shardFiles;
    var listed := ListShards(disk, shardRoot, prefixLength);
    shards := listed;
    forall i | 0 <= i < |listed| ensures listed[i] in disk.shardFiles {
      assert listed[i] in listed;
    }
    r := TaskMerge(disk, listed, maxBlockSize, sort);
    ghost var merged := disk.shardFiles;
    assert merged == if sort then RewriteAll(encoded, shards) else encoded;
    if !keep && r.Success? {
      disk.shardFiles := RemoveTree(disk.shardFiles, shardRoot);
    }
  }

  /** `task_dedup` over the input files (as their lines, in order). The
      block budget is given as a number; `sha1` stands for the digest the
      name "sha1" selects. The options are checked before anything is
      written, then the encoder is built; either refusal leaves the store as
      it was. `shards` is the order in which the glob listed the shards. */
  method TaskDedup(disk: Disk, inputs: seq<seq<string>>, shardRoot: string, chunksize: nat, nProcesses: nat,
                   hashFuncType: HashFuncType, normalizer: Normalizer, sha1: seq<byte> -> string,
                   maxBlockSize: Option<nat>, sort: bool, keep: bool, prefixLength: nat)
    returns (r: Result<real, Error>, ghost shards: seq<string>)
    requires chunksize > 0 && nProcesses > 0
    requires prefixLength >= 2 || forall i :: 0 <= i < |inputs| ==> CleanLines(inputs[i]) == []
    modifies disk
    ensures sort && !keep ==>
      r == Failure(SortWithoutKeep) && disk.shardFiles == old(disk.shardFiles) && disk.outputs == old(disk.outputs)
    ensures !(sort && !keep) && NewEncoder(hashFuncType, normalizer, sha1).Failure? ==>
      r == Failure(UnsupportedHashType) && disk.shardFiles == old(disk.shardFiles) && disk.outputs == old(disk.outputs)
    ensures !(sort && !keep) && NewEncoder(hashFuncType, normalizer, sha1).Success? ==>
      var e := NewEncoder(hashFuncType, normalizer, sha1).value;
      var encoded := EncodeFilesSpec(old(disk.shardFiles), e, shardRoot, BatchSize(nProcesses, chunksize), prefixLength, inputs);
      Deduplicated(encoded, old(disk.outputs), shardRoot, prefixLength, maxBlockSize, sort, keep, shards, r,
                   disk.outputs, disk.shardFiles)
  {
    shards := [];
    var check := CheckSortKeep(sort, keep);
    if check.Some? {
      return Failure(check.value), shards;
    }
    var err := TaskEncode(disk, inputs, shardRoot, chunksize, nProcesses, hashFuncType, normalizer, sha1, prefixLength);
    if err.Some? {
      return Failure(err.value), shards;
    }
    r, shards := MergeAndClean(disk, shardRoot, prefixLength, maxBlockSize, sort, keep);
  }
}
