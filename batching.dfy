/** Reading input files in batches (`encode_a_file`, `task_encode`): the
    stripped non-blank lines of a file are cut into batches of
    `n_processes * chunksize` lines; each batch is encoded and written to the
    shards. */
module Batching {
  import opened Results
  import opened Seqs
  import opened Text
  import opened Encoding
  import opened FileSystem
  import opened Shards

  /** The lines `encode_a_file` keeps from a file, in order: each line
      stripped, the blank ones dropped. `lines` are the lines of the file as
      iterating over it yields them. */
  function CleanLines(lines: seq<string>): (r: seq<string>)
    ensures |r| <= |lines|
  {
    if lines == [] then []
    else
      var s := Strip(lines[|lines| - 1]);
      CleanLines(lines[..|lines| - 1]) + (if s == [] then [] else [s])
  }

  /** Every kept line is non-empty and already stripped. */
  lemma {:induction false} CleanLinesClean(lines: seq<string>)
    ensures forall i :: 0 <= i < |CleanLines(lines)| ==>
      CleanLines(lines)[i] != [] && Strip(CleanLines(lines)[i]) == CleanLines(lines)[i]
  {
    if lines != [] {
      var p := lines[..|lines| - 1];
      CleanLinesClean(p);
      StripIdempotent(lines[|lines| - 1]);
    }
  }

  /** A line is kept exactly when it is the strip of some non-blank input line. */
  lemma {:induction false} CleanLinesMembers(lines: seq<string>, x: string)
    ensures x in CleanLines(lines) <==> x != [] && exists i :: 0 <= i < |lines| && Strip(lines[i]) == x
  {
    if lines != [] {
      var p := lines[..|lines| - 1];
      CleanLinesMembers(p, x);
      if exists i :: 0 <= i < |lines| && Strip(lines[i]) == x {
        var i :| 0 <= i < |lines| && Strip(lines[i]) == x;
        if i < |p| {
          assert Strip(p[i]) == x;
        }
      }
      if exists i :: 0 <= i < |p| && Strip(p[i]) == x {
        var i :| 0 <= i < |p| && Strip(p[i]) == x;
        assert Strip(lines[i]) == x;
      }
    }
  }

  /** Lines that need no stripping and are not blank are all kept, unchanged. */
  lemma {:induction false} CleanLinesOfClean(lines: seq<string>)
    requires forall i :: 0 <= i < |lines| ==> lines[i] != [] && Strip(lines[i]) == lines[i]
    ensures CleanLines(lines) == lines
  {
    if lines != [] {
      var p := lines[..|lines| - 1];
      CleanLinesOfClean(p);
      assert p + [lines[|lines| - 1]] == lines;
    }
  }

  lemma CleanLinesStep(lines: seq<string>, i: nat)
    requires i < |lines|
    ensures CleanLines(lines[..i + 1])
         == CleanLines(lines[..i]) + (if Strip(lines[i]) == [] then [] else [Strip(lines[i])])
  {
    assert lines[..i + 1][..i] == lines[..i];
  }

  /** The batches the loop of `encode_a_file` flushes: consecutive runs of
      `size` lines, the last run possibly shorter. */
  function Batches(xs: seq<string>, size: nat): (bs: seq<seq<string>>)
    requires size > 0
    decreases |xs|
  {
    if xs == [] then []
    else if |xs| <= size then [xs]
    else [xs[..size]] + Batches(xs[size..], size)
  }

  /** The batches hold every line once and in order. */
  lemma {:induction false} BatchesFlatten(xs: seq<string>, size: nat)
    requires size > 0
    ensures Flatten(Batches(xs, size)) == xs
    decreases |xs|
  {
    var bs := Batches(xs, size);
    if xs != [] && |xs| <= size {
      assert Flatten(bs) == xs + Flatten([]);
    } else if xs != [] {
      var rest := xs[size..];
      BatchesFlatten(rest, size);
      assert bs[1..] == Batches(rest, size);
      assert xs == xs[..size] + rest;
    }
  }

  /** All batches but the last are full, and none is empty. */
  lemma {:induction false} BatchesSizes(xs: seq<string>, size: nat)
    requires size > 0
    ensures forall i :: 0 <= i < |Batches(xs, size)| - 1 ==> |Batches(xs, size)[i]| == size
    ensures forall i :: 0 <= i < |Batches(xs, size)| ==> 0 < |Batches(xs, size)[i]| <= size
    decreases |xs|
  {
    var bs := Batches(xs, size);
    if xs != [] && |xs| > size {
      var rest := xs[size..];
      BatchesSizes(rest, size);
      assert forall i :: 1 <= i < |bs| ==> bs[i] == Batches(rest, size)[i - 1];
    }
  }

  /** There are ceil(|xs| / size) batches: the fewest runs of `size` that
      hold every line. */
  lemma {:induction false} BatchesCount(xs: seq<string>, size: nat)
    requires size > 0
    ensures |xs| <= |Batches(xs, size)| * size < |xs| + size
    decreases |xs|
  {
    if xs != [] && |xs| > size {
      var rest := xs[size..];
      BatchesCount(rest, size);
      var k := |Batches(rest, size)|;
      assert |Batches(xs, size)| == k + 1;
      assert (k + 1) * size == k * size + size;
    }
  }

  /** Full batches followed by a short last batch are the batches of their
      concatenation: what the flushing loop builds is `Batches`. */
  lemma {:induction false} BatchesOfFlushed(done: seq<seq<string>>, last: seq<string>, size: nat)
    requires size > 0
    requires forall i :: 0 <= i < |done| ==> |done[i]| == size
    requires |last| <= size
    ensures Batches(Flatten(done) + last, size) == done + (if last == [] then [] else [last])
  {
    if done == [] {
      assert Flatten(done) + last == last;
    } else {
      var xs := Flatten(done) + last;
      var rest := done[1..];
      assert forall i :: 0 <= i < |rest| ==> |rest[i]| == size by {
        forall i | 0 <= i < |rest| ensures |rest[i]| == size {
          assert rest[i] == done[i + 1];
        }
      }
      BatchesOfFlushed(rest, last, size);
      assert xs == done[0] + (Flatten(rest) + last);
      assert xs[..size] == done[0];
      assert xs[size..] == Flatten(rest) + last;
      if |xs| <= size {
        assert Flatten(rest) + last == [];
        assert Batches(Flatten(rest) + last, size) == [];
        assert last == [] && rest + [] == [];
        assert done == [done[0]];
      } else {
        assert done == [done[0]] + rest;
      }
    }
  }

  /** `encoded_lines = hash_func.encode_batch(batch, ...)` followed by
      `save_shards(shard_root, encoded_lines, prefix_length)`, batch after
      batch. */
  function SaveBatches(files: map<string, seq<Record>>, e: Encoder, shardRoot: string, prefixLength: nat,
                       batches: seq<seq<string>>): map<string, seq<Record>>
  {
    if batches == [] then files
    else
      SaveShardsSpec(SaveBatches(files, e, shardRoot, prefixLength, batches[..|batches| - 1]),
                     shardRoot, prefixLength, EncodeBatch(e, batches[|batches| - 1]))
  }

  lemma SaveBatchesSnoc(files: map<string, seq<Record>>, e: Encoder, shardRoot: string, prefixLength: nat,
                        batches: seq<seq<string>>, b: seq<string>)
    ensures SaveBatches(files, e, shardRoot, prefixLength, batches + [b])
         == SaveShardsSpec(SaveBatches(files, e, shardRoot, prefixLength, batches),
                           shardRoot, prefixLength, EncodeBatch(e, b))
  {
    var bs := batches + [b];
    assert bs[..|bs| - 1] == batches && bs[|bs| - 1] == b;
  }

  /** What `encode_a_file` does to the shard store. */
  function EncodeAFileSpec(files: map<string, seq<Record>>, e: Encoder, shardRoot: string, batchSize: nat,
                           prefixLength: nat, lines: seq<string>): map<string, seq<Record>>
    requires batchSize > 0
  {
    SaveBatches(files, e, shardRoot, prefixLength, Batches(CleanLines(lines), batchSize))
  }

  predicate AllFull(done: seq<seq<string>>, size: nat) {
    forall j :: 0 <= j < |done| ==> |done[j]| == size
  }

  lemma AllFullSnoc(done: seq<seq<string>>, b: seq<string>, size: nat)
    requires AllFull(done, size) && |b| == size
    ensures AllFull(done + [b], size)
  {
  }

  /** Encodes one batch and writes it to the shards. */
  method Flush(disk: Disk, e: Encoder, shardRoot: string, prefixLength: nat, batch: seq<string>,
               ghost files: map<string, seq<Record>>, ghost done: seq<seq<string>>)
    requires prefixLength >= 2
    requires disk.shardFiles == SaveBatches(files, e, shardRoot, prefixLength, done)
    modifies disk
    ensures disk.shardFiles == SaveBatches(files, e, shardRoot, prefixLength, done + [batch])
    ensures disk.outputs == old(disk.outputs)
  {
    var encodedLines := EncodeBatch(e, batch);
    SaveShards(disk, shardRoot, encodedLines, prefixLength);
    SaveBatchesSnoc(files, e, shardRoot, prefixLength, done, batch);
  }

  /** `batchsize = n_processes * chunksize`. */
  function BatchSize(nProcesses: nat, chunksize: nat): (n: nat)
    ensures nProcesses > 0 && chunksize > 0 ==> n > 0
  {
    nProcesses * chunksize
  }

  /** `encode_a_file`. The file is given as its lines; the `wc -l` line count
      only feeds the progress bar. `nProcesses` parallel workers encode a
      batch; the result is the same as encoding it in order, and only the
      batch size `nProcesses * chunksize` shows in the model. */
  method EncodeAFile(disk: Disk, lines: seq<string>, shardRoot: string, chunksize: nat, nProcesses: nat,
                     e: Encoder, prefixLength: nat)
    requires chunksize > 0 && nProcesses > 0
    requires prefixLength >= 2 || CleanLines(lines) == []
    modifies disk
    ensures disk.shardFiles
         == EncodeAFileSpec(old(disk.shardFiles), e, shardRoot, BatchSize(nProcesses, chunksize), prefixLength, lines)
    ensures disk.outputs == old(disk.outputs)
  {
    var batchSize := BatchSize(nProcesses, chunksize);
    var batch: seq<string> := [];
    ghost var done: seq<seq<string>> := [];
    var i := 0;
    assert lines[..0] == [];
    assert Flatten(done) + batch == [];
    while i < |lines|
      invariant 0 <= i <= |lines|
      invariant CleanLines(lines[..i]) == Flatten(done) + batch
      invariant AllFull(done, batchSize)
      invariant |batch| < batchSize
      invariant disk.shardFiles == SaveBatches(old(disk.shardFiles), e, shardRoot, prefixLength, done)
      invariant disk.outputs == old(disk.outputs)
    {
      batch, done := Absorb(disk, e, shardRoot, prefixLength, batchSize, lines, i, batch, old(disk.shardFiles), done);
      i := i + 1;
    }
    assert lines[..i] == lines;
    FlushLast(disk, e, shardRoot, prefixLength, batchSize, lines, batch, old(disk.shardFiles), done);
  }

  /** One turn of the loop of `encode_a_file`: strip the line, skip it if
      blank, otherwise add it to the batch and flush the batch once full. */
  method Absorb(disk: Disk, e: Encoder, shardRoot: string, prefixLength: nat, batchSize: nat,
                lines: seq<string>, i: nat, batch: seq<string>,
                ghost files: map<string, seq<Record>>, ghost done: seq<seq<string>>)
    returns (batch': seq<string>, ghost done': seq<seq<string>>)
    requires batchSize > 0 && i < |lines|
    requires prefixLength >= 2 || CleanLines(lines) == []
    requires CleanLines(lines[..i]) == Flatten(done) + batch
    requires AllFull(done, batchSize) && |batch| < batchSize
    requires disk.shardFiles == SaveBatches(files, e, shardRoot, prefixLength, done)
    modifies disk
    ensures CleanLines(lines[..i + 1]) == Flatten(done') + batch'
    ensures AllFull(done', batchSize) && |batch'| < batchSize
    ensures disk.shardFiles == SaveBatches(files, e, shardRoot, prefixLength, done')
    ensures disk.outputs == old(disk.outputs)
  {
    var line := Strip(lines[i]);
    CleanLinesStep(lines, i);
    if line == [] {
      batch', done' := batch, done;
    } else {
      Assoc(Flatten(done), batch, [line]);
      batch', done' := AddLine(disk, e, shardRoot, prefixLength, batchSize, lines, i + 1, batch + [line], files, done);
    }
  }

  /** A non-blank line joins the batch, which is flushed once full. */
  method AddLine(disk: Disk, e: Encoder, shardRoot: string, prefixLength: nat, batchSize: nat,
                 ghost lines: seq<string>, ghost n: nat, batch: seq<string>,
                 ghost files: map<string, seq<Record>>, ghost done: seq<seq<string>>)
    returns (batch': seq<string>, ghost done': seq<seq<string>>)
    requires n <= |lines|
    requires prefixLength >= 2 || CleanLines(lines) == []
    requires CleanLines(lines[..n]) == Flatten(done) + batch
    requires AllFull(done, batchSize) && batch != [] && |batch| <= batchSize
    requires disk.shardFiles == SaveBatches(files, e, shardRoot, prefixLength, done)
    modifies disk
    ensures CleanLines(lines[..n]) == Flatten(done') + batch'
    ensures AllFull(done', batchSize) && |batch'| < batchSize
    ensures disk.shardFiles == SaveBatches(files, e, shardRoot, prefixLength, done')
    ensures disk.outputs == old(disk.outputs)
  {
    if |batch| >= batchSize {
      CleanPrefix(lines, n);
      done' := FlushFull(disk, e, shardRoot, prefixLength, batchSize, batch, files, done);
      batch' := [];
    } else {
      batch', done' := batch, done;
    }
  }

  /** Flushing a full batch: it joins the flushed batches. */
  method FlushFull(disk: Disk, e: Encoder, shardRoot: string, prefixLength: nat, batchSize: nat,
                   batch: seq<string>, ghost files: map<string, seq<Record>>, ghost done: seq<seq<string>>)
    returns (ghost done': seq<seq<string>>)
    requires prefixLength >= 2
    requires AllFull(done, batchSize) && |batch| == batchSize
    requires disk.shardFiles == SaveBatches(files, e, shardRoot, prefixLength, done)
    modifies disk
    ensures done' == done + [batch]
    ensures Flatten(done') == Flatten(done) + batch
    ensures AllFull(done', batchSize)
    ensures disk.shardFiles == SaveBatches(files, e, shardRoot, prefixLength, done')
    ensures disk.outputs == old(disk.outputs)
  {
    Flush(disk, e, shardRoot, prefixLength, batch, files, done);
    FlattenSnoc(done, batch);
    AllFullSnoc(done, batch, batchSize);
    done' := done + [batch];
  }

  /** The `if batch_lines:` after the loop of `encode_a_file`. */
  method FlushLast(disk: Disk, e: Encoder, shardRoot: string, prefixLength: nat, batchSize: nat,
                   ghost lines: seq<string>, batch: seq<string>,
                   ghost files: map<string, seq<Record>>, ghost done: seq<seq<string>>)
    requires batchSize > 0
    requires prefixLength >= 2 || CleanLines(lines) == []
    requires CleanLines(lines) == Flatten(done) + batch
    requires AllFull(done, batchSize) && |batch| < batchSize
    requires disk.shardFiles == SaveBatches(files, e, shardRoot, prefixLength, done)
    modifies disk
    ensures disk.shardFiles == EncodeAFileSpec(files, e, shardRoot, batchSize, prefixLength, lines)
    ensures disk.outputs == old(disk.outputs)
  {
    BatchesOfFlushed(done, batch, batchSize);
    if batch != [] {
      CleanPrefix(lines, |lines|);
      assert lines[..|lines|] == lines;
      Flush(disk, e, shardRoot, prefixLength, batch, files, done);
    } else {
      assert done + [] == done;
    }
  }


  /** A line kept from a prefix of the file is kept from the whole file. */
  lemma CleanPrefix(lines: seq<string>, n: nat)
    requires n <= |lines|
    ensures CleanLines(lines[..n]) != [] ==> CleanLines(lines) != []
  {
    if CleanLines(lines[..n]) != [] {
      var x := CleanLines(lines[..n])[0];
      CleanLinesMembers(lines[..n], x);
      var i :| 0 <= i < n && Strip(lines[..n][i]) == x;
      assert Strip(lines[i]) == x;
      CleanLinesMembers(lines, x);
    }
  }

  /** `encode_a_file` applied to the input files in order. */
  function EncodeFilesSpec(files: map<string, seq<Record>>, e: Encoder, shardRoot: string, batchSize: nat,
                           prefixLength: nat, inputs: seq<seq<string>>): map<string, seq<Record>>
    requires batchSize > 0
  {
    if inputs == [] then files
    else
      EncodeAFileSpec(EncodeFilesSpec(files, e, shardRoot, batchSize, prefixLength, inputs[..|inputs| - 1]),
                      e, shardRoot, batchSize, prefixLength, inputs[|inputs| - 1])
  }

  /** `task_encode`. `inputs` are the files (as their lines) in the order the
      glob of the program lists them; `sha1` stands for the digest the name
      "sha1" selects. When the encoder cannot be built, nothing is written and
      the error is returned. */
  method TaskEncode(disk: Disk, inputs: seq<seq<string>>, shardRoot: string, chunksize: nat, nProcesses: nat,
                    hashFuncType: HashFuncType, normalizer: Normalizer, sha1: seq<byte> -> string,
                    prefixLength: nat)
    returns (err: Option<Error>)
    requires chunksize > 0 && nProcesses > 0
    requires prefixLength >= 2 || forall i :: 0 <= i < |inputs| ==> CleanLines(inputs[i]) == []
    modifies disk
    ensures NewEncoder(hashFuncType, normalizer, sha1).Failure? ==>
      err == Some(UnsupportedHashType) && disk.shardFiles == old(disk.shardFiles)
    ensures NewEncoder(hashFuncType, normalizer, sha1).Success? ==>
      err == None
      && disk.shardFiles == EncodeFilesSpec(old(disk.shardFiles), NewEncoder(hashFuncType, normalizer, sha1).value,
                                            shardRoot, BatchSize(nProcesses, chunksize), prefixLength, inputs)
    ensures disk.outputs == old(disk.outputs)
  {
    var r := NewEncoder(hashFuncType, normalizer, sha1);
    if r.Failure? {
      return Some(r.error);
    }
    var e := r.value;
    var i := 0;
    while i < |inputs|
      invariant 0 <= i <= |inputs|
      invariant disk.shardFiles
             == EncodeFilesSpec(old(disk.shardFiles), e, shardRoot, BatchSize(nProcesses, chunksize), prefixLength, inputs[..i])
      invariant disk.outputs == old(disk.outputs)
    {
      EncodeAFile(disk, inputs[i], shardRoot, chunksize, nProcesses, e, prefixLength);
      assert inputs[..i + 1][..i] == inputs[..i];
      i := i + 1;
    }
    assert inputs[..i] == inputs;
    return None;
  }
}
