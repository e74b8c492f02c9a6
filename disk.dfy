/** The files the pipeline reads and writes, held in memory. */
module FileSystem {
  import opened Seqs

  /** One shard record, `(code, text)`; on disk it is the line "code text". */
  type Record = Pair

  /** Shard files by path, and output blocks by block index. Without a block
      budget the program writes the single file `output`, modelled as block 0;
      with one it writes `output.0`, `output.1`, ... */
  class Disk {
    var shardFiles: map<string, seq<Record>>
    var outputs: map<nat, seq<string>>

    constructor (shardFiles: map<string, seq<Record>>, outputs: map<nat, seq<string>>)
      ensures this.shardFiles == shardFiles && this.outputs == outputs
    {
      this.shardFiles := shardFiles;
      this.outputs := outputs;
    }
  }

  /** The contents of a file; a file that does not exist reads as empty, which
      is also what opening it for appending starts from. */
  function Get<K(==), T>(files: map<K, seq<T>>, path: K): seq<T> {
    if path in files then files[path] else []
  }

  /** Reading a file after one file was written. */
  lemma GetUpdate<K, T>(files: map<K, seq<T>>, path: K, contents: seq<T>, other: K)
    ensures Get(files[path := contents], other) == if other == path then contents else Get(files, other)
  {
  }
}
