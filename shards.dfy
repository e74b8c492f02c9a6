/** Shard routing and shard writing (`get_shard_path`, `save_shards`): every
    encoded line is appended, as a record "code line", to the shard file named
    after the first `prefix_length` characters of its code. */
module Shards {
  import opened Results
  import opened Seqs
  import opened Text
  import opened FileSystem

  // ---- get_shard_path ----

  /** `[code[b:b + 2] for b in range(0, len(code), 2)]`. */
  function Segments(code: string): (segs: seq<string>)
    ensures |segs| == (|code| + 1) / 2
    decreases |code|
  {
    if code == [] then []
    else if |code| <= 2 then [code]
    else [code[..2]] + Segments(code[2..])
  }

  function Concat(segs: seq<string>): string {
    if segs == [] then [] else segs[0] + Concat(segs[1..])
  }

  /** `"/".join(segs)`. */
  function JoinSlash(segs: seq<string>): string {
    if segs == [] then []
    else if |segs| == 1 then segs[0]
    else segs[0] + "/" + JoinSlash(segs[1..])
  }

  function Min(a: int, b: int): int {
    if a <= b then a else b
  }

  /** The segments are the consecutive two-character slices of the code (the
      last one possibly a single character): ceil(len / 2) of them, which
      concatenate back to the code. */
  lemma SegmentsShape(code: string)
    ensures |Segments(code)| == (|code| + 1) / 2
    ensures forall i :: 0 <= i < |Segments(code)| ==>
      Segments(code)[i] == code[2 * i .. Min(2 * i + 2, |code|)]
    ensures Concat(Segments(code)) == code
  {
    SegmentsSlices(code);
    SegmentsConcat(code);
  }

  lemma {:induction false} SegmentsSlices(code: string)
    ensures forall i :: 0 <= i < |Segments(code)| ==>
      Segments(code)[i] == code[2 * i .. Min(2 * i + 2, |code|)]
  {
    if |code| > 2 {
      var rest := code[2..];
      SegmentsSlices(rest);
      var segs := Segments(code);
      assert segs == [code[..2]] + Segments(rest);
      forall i | 1 <= i < |segs|
        ensures segs[i] == code[2 * i .. Min(2 * i + 2, |code|)]
      {
        var lo, hi := 2 * (i - 1), Min(2 * i, |rest|);
        assert segs[i] == Segments(rest)[i - 1] == rest[lo..hi];
        SliceShift(code, 2, lo, hi);
      }
    }
  }

  lemma {:induction false} SegmentsConcat(code: string)
    ensures Concat(Segments(code)) == code
  {
    if |code| > 2 {
      var rest := code[2..];
      SegmentsConcat(rest);
      var segs := Segments(code);
      assert segs[0] == code[..2] && segs[1..] == Segments(rest);
      assert code == code[..2] + rest;
    } else if code != [] {
      assert Concat([code]) == code + Concat([]);
    }
  }

  /** `get_shard_path(shard_root, code)`. */
  function ShardPath(shardRoot: string, code: string): string {
    shardRoot + "/" + JoinSlash(Segments(code)) + ".shard"
  }

  /** The example of the docstring. */
  lemma ShardPathExample()
    ensures ShardPath("path/to", "12345678") == "path/to/12/34/56/78.shard"
  {
    SegmentsExample();
    JoinExample();
  }

  lemma SegmentsExample()
    ensures Segments("12345678") == ["12", "34", "56", "78"]
  {
    assert Segments("78") == ["78"];
    assert Segments("5678") == ["56", "78"] by {
      assert "5678"[..2] == "56" && "5678"[2..] == "78";
    }
    assert Segments("345678") == ["34", "56", "78"] by {
      assert "345678"[..2] == "34" && "345678"[2..] == "5678";
    }
    assert "12345678"[..2] == "12" && "12345678"[2..] == "345678";
  }

  lemma JoinExample()
    ensures JoinSlash(["12", "34", "56", "78"]) == "12/34/56/78"
  {
    assert JoinSlash(["78"]) == "78";
    assert JoinSlash(["56", "78"]) == "56/78";
    assert JoinSlash(["34", "56", "78"]) == "34/56/78";
  }

  function RemoveSlashes(s: string): string {
    if s == [] then [] else (if s[0] == '/' then [] else [s[0]]) + RemoveSlashes(s[1..])
  }

  lemma {:induction false} RemoveSlashesAppend(a: string, b: string)
    ensures RemoveSlashes(a + b) == RemoveSlashes(a) + RemoveSlashes(b)
  {
    if a != [] {
      assert (a + b)[0] == a[0] && (a + b)[1..] == a[1..] + b;
      RemoveSlashesAppend(a[1..], b);
    } else {
      assert a + b == b;
    }
  }

  lemma {:induction false} RemoveSlashesFree(s: string)
    requires '/' !in s
    ensures RemoveSlashes(s) == s
  {
    if s != [] {
      RemoveSlashesFree(s[1..]);
      assert s == [s[0]] + s[1..];
    }
  }

  /** Deleting the separators of a join gives back the concatenation. */
  lemma {:induction false} RemoveSlashesJoin(segs: seq<string>)
    requires forall i :: 0 <= i < |segs| ==> '/' !in segs[i]
    ensures RemoveSlashes(JoinSlash(segs)) == Concat(segs)
  {
    if segs != [] {
      var a := segs[0];
      RemoveSlashesFree(a);
      if |segs| == 1 {
        assert Concat(segs) == a + Concat([]);
      } else {
        var rest := segs[1..];
        forall i | 0 <= i < |rest| ensures '/' !in rest[i] {
          assert rest[i] == segs[i + 1];
        }
        RemoveSlashesJoin(rest);
        var j := JoinSlash(rest);
        assert JoinSlash(segs) == (a + "/") + j;
        RemoveSlashesAppend(a + "/", j);
        RemoveSlashesAppend(a, "/");
        assert RemoveSlashes("/") == [];
        assert RemoveSlashes(a + "/") == a;
        assert Concat(segs) == a + Concat(rest);
      }
    }
  }

  /** Distinct codes (without '/', as hex digests are) get distinct paths. */
  lemma ShardPathInjective(shardRoot: string, a: string, b: string)
    requires '/' !in a && '/' !in b
    requires ShardPath(shardRoot, a) == ShardPath(shardRoot, b)
    ensures a == b
  {
    var ja, jb := JoinSlash(Segments(a)), JoinSlash(Segments(b));
    var pa := ShardPath(shardRoot, a);
    var n := |shardRoot| + 1;
    assert pa[n .. n + |ja|] == ja;
    assert pa[n .. n + |jb|] == jb;
    SegmentsShape(a);
    SegmentsShape(b);
    forall i | 0 <= i < |Segments(a)| ensures '/' !in Segments(a)[i] {
      assert forall c :: c in Segments(a)[i] ==> c in a;
    }
    forall i | 0 <= i < |Segments(b)| ensures '/' !in Segments(b)[i] {
      assert forall c :: c in Segments(b)[i] ==> c in b;
    }
    RemoveSlashesJoin(Segments(a));
    RemoveSlashesJoin(Segments(b));
  }

  /** `code[:prefix_length]`. */
  function Prefix(code: string, prefixLength: nat): (r: string)
    ensures |r| == Min(prefixLength, |code|) && r == code[..|r|]
  {
    if |code| <= prefixLength then code else code[..prefixLength]
  }

  /** The shard a code is routed to. */
  function Route(shardRoot: string, prefixLength: nat, code: string): string {
    ShardPath(shardRoot, Prefix(code, prefixLength))
  }

  /** Two codes land in the same shard exactly when their prefixes agree. */
  lemma SameShardIffSamePrefix(shardRoot: string, prefixLength: nat, a: string, b: string)
    requires '/' !in a && '/' !in b
    ensures Route(shardRoot, prefixLength, a) == Route(shardRoot, prefixLength, b)
        <==> Prefix(a, prefixLength) == Prefix(b, prefixLength)
  {
    var pa, pb := Prefix(a, prefixLength), Prefix(b, prefixLength);
    assert forall c :: c in pa ==> c in a;
    assert forall c :: c in pb ==> c in b;
    if Route(shardRoot, prefixLength, a) == Route(shardRoot, prefixLength, b) {
      ShardPathInjective(shardRoot, pa, pb);
    }
  }

  // ---- the text form of a record ----

  /** The line `f"{code} {line}"` that `save_shards` writes (before its "\n"). */
  function FormatRecord(code: string, line: string): string {
    code + " " + line
  }

  /** `s.split(" ", 1)` unpacked into two names: None when there is no space,
      where the unpacking raises ValueError. */
  function SplitOnce(s: string): (r: Option<(string, string)>)
    ensures r.Some? ==> r.value.0 + " " + r.value.1 == s && ' ' !in r.value.0
    ensures r.None? <==> ' ' !in s
  {
    if s == [] then None
    else if s[0] == ' ' then Some(([], s[1..]))
    else
      match SplitOnce(s[1..])
      case None => None
      case Some((a, b)) => Some(([s[0]] + a, b))
  }

  /** How `task_merge` reads a record line: `line.strip().split(" ", 1)`. */
  function ParseRecord(s: string): Option<Record> {
    SplitOnce(Strip(s))
  }

  /** A record written by `save_shards` reads back as the same (code, line)
      pair, provided the code is a non-empty string without whitespace (as a
      hex digest is) and the line is non-empty and stripped (as every line
      `encode_a_file` passes on is). */
  lemma RecordRoundTrip(code: string, line: string)
    requires code != [] && forall i :: 0 <= i < |code| ==> !IsSpace(code[i])
    requires line != [] && Strip(line) == line
    ensures ParseRecord(FormatRecord(code, line)) == Some((code, line))
  {
    var s := FormatRecord(code, line);
    assert s[0] == code[0] && s[|s| - 1] == line[|line| - 1];
    StripUnchanged(s);
    SplitPrefix(code, line);
  }

  lemma {:induction false} SplitPrefix(code: string, rest: string)
    requires ' ' !in code
    ensures SplitOnce(code + " " + rest) == Some((code, rest))
  {
    if code != [] {
      assert (code + " " + rest)[1..] == code[1..] + " " + rest;
      SplitPrefix(code[1..], rest);
      assert [code[0]] + code[1..] == code;
    } else {
      assert (code + " " + rest)[1..] == rest;
    }
  }

  // ---- save_shards ----

  /** `(line, code)` pairs turned round into `(code, line)`: what
      `for line, code in encoded_lines` visits, keyed by code. */
  function ByCode(encodedLines: seq<(string, string)>): (ps: seq<Pair>)
    ensures |ps| == |encodedLines|
    ensures forall i :: 0 <= i < |ps| ==> ps[i] == (encodedLines[i].1, encodedLines[i].0)
  {
    seq(|encodedLines|, i requires 0 <= i < |encodedLines| => (encodedLines[i].1, encodedLines[i].0))
  }

  /** The shard a code is routed to, as a function of the code. */
  function Router(shardRoot: string, prefixLength: nat): string -> string {
    code => Route(shardRoot, prefixLength, code)
  }

  /** What the writing loop of `save_shards` does for the group keys `ks`:
      for each key, append one record per line of its group to the shard
      `route` names for the key. */
  function AppendGroups(files: map<string, seq<Record>>, route: string -> string,
                        ps: seq<Pair>, ks: seq<string>): map<string, seq<Record>>
  {
    if ks == [] then files
    else
      var f := AppendGroups(files, route, ps, ks[..|ks| - 1]);
      var code := ks[|ks| - 1];
      f[route(code) := Get(f, route(code)) + Tag(code, ValuesFor(ps, code))]
  }

  lemma AppendGroupsSnoc(files: map<string, seq<Record>>, route: string -> string,
                         ps: seq<Pair>, ks: seq<string>, code: string)
    ensures AppendGroups(files, route, ps, ks + [code])
         == AppendGroups(files, route, ps, ks)[route(code) :=
              Get(AppendGroups(files, route, ps, ks), route(code)) + Tag(code, ValuesFor(ps, code))]
  {
    assert (ks + [code])[..|ks|] == ks;
  }

  /** The shard store after `save_shards(shard_root, encoded_lines, prefix_length)`. */
  function SaveShardsSpec(files: map<string, seq<Record>>, shardRoot: string, prefixLength: nat,
                          encodedLines: seq<(string, string)>): map<string, seq<Record>>
  {
    var ps := ByCode(encodedLines);
    AppendGroups(files, Router(shardRoot, prefixLength), ps, Distinct(KeysOf(ps)))
  }

  /** `save_shards`. The dictionary key of the program is the pair
      `(code[:prefix_length], code)`; since the prefix is a function of the
      code, grouping by the pair and grouping by the code give the same
      groups in the same order, and the model groups by code. */
  method SaveShards(disk: Disk, shardRoot: string, encodedLines: seq<(string, string)>, prefixLength: nat)
    requires prefixLength >= 2
    modifies disk
    ensures disk.shardFiles == SaveShardsSpec(old(disk.shardFiles), shardRoot, prefixLength, encodedLines)
    ensures disk.outputs == old(disk.outputs)
  {
    var ps := ByCode(encodedLines);
    var keys, groups := GroupInOrder(ps);
    WriteGroups(disk, shardRoot, prefixLength, ps, keys, groups);
  }

  /** The writing loop of `save_shards`: for each group key in turn, append
      the group's records to the key's shard. */
  method WriteGroups(disk: Disk, shardRoot: string, prefixLength: nat, ps: seq<Pair>,
                     keys: seq<string>, groups: map<string, seq<string>>)
    requires forall k :: k in keys ==> k in groups && groups[k] == ValuesFor(ps, k)
    modifies disk
    ensures disk.shardFiles == AppendGroups(old(disk.shardFiles), Router(shardRoot, prefixLength), ps, keys)
    ensures disk.outputs == old(disk.outputs)
  {
    ghost var route := Router(shardRoot, prefixLength);
    var i := 0;
    while i < |keys|
      invariant 0 <= i <= |keys|
      invariant disk.shardFiles == AppendGroups(old(disk.shardFiles), route, ps, keys[..i])
      invariant disk.outputs == old(disk.outputs)
    {
      var code := keys[i];
      var shardPath := Route(shardRoot, prefixLength, code);
      assert route(code) == shardPath;
      assert code in groups && groups[code] == ValuesFor(ps, code) by {
        assert code in keys;
      }
      AppendGroupsSnoc(old(disk.shardFiles), route, ps, keys[..i], code);
      TakeNext(keys, i);
      disk.shardFiles := disk.shardFiles[shardPath := Get(disk.shardFiles, shardPath) + Tag(code, groups[code])];
      i := i + 1;
    }
    assert keys[..i] == keys;
  }

  // ---- what save_shards does to one shard ----

  function RoutedTo(route: string -> string, path: string): string -> bool {
    code => route(code) == path
  }

  /** The records that `save_shards` appends to the shard at `path`: the
      groups of the codes routed there, in first-seen order. */
  function Appended(shardRoot: string, prefixLength: nat, encodedLines: seq<(string, string)>, path: string)
    : seq<Record>
  {
    var ps := ByCode(encodedLines);
    Regroup(ps, FilterSeq(Distinct(KeysOf(ps)), RoutedTo(Router(shardRoot, prefixLength), path)))
  }

  lemma {:induction false} AppendGroupsAt(files: map<string, seq<Record>>, route: string -> string,
                                          ps: seq<Pair>, ks: seq<string>, path: string)
    ensures Get(AppendGroups(files, route, ps, ks), path)
         == Get(files, path) + Regroup(ps, FilterSeq(ks, RoutedTo(route, path)))
  {
    var f := RoutedTo(route, path);
    if ks != [] {
      var ks', code := ks[..|ks| - 1], ks[|ks| - 1];
      assert ks == ks' + [code];
      AppendGroupsAt(files, route, ps, ks', path);
      AppendGroupsStepAt(files, route, ps, ks', code, path);
      FilterRegroupStep(ps, ks', code, f);
      var t := if route(code) == path then Tag(code, ValuesFor(ps, code)) else [];
      assert f(code) == (route(code) == path);
      Assoc(Get(files, path), Regroup(ps, FilterSeq(ks', f)), t);
    }
  }

  /** One step of AppendGroups, seen from one path. */
  lemma AppendGroupsStepAt(files: map<string, seq<Record>>, route: string -> string,
                           ps: seq<Pair>, ks: seq<string>, code: string, path: string)
    ensures Get(AppendGroups(files, route, ps, ks + [code]), path)
         == Get(AppendGroups(files, route, ps, ks), path)
            + (if route(code) == path then Tag(code, ValuesFor(ps, code)) else [])
  {
    var f := AppendGroups(files, route, ps, ks);
    var added := Tag(code, ValuesFor(ps, code));
    AppendGroupsSnoc(files, route, ps, ks, code);
    GetUpdate(f, route(code), Get(f, route(code)) + added, path);
    if route(code) != path {
      assert Get(f, path) + [] == Get(f, path);
    }
  }

  lemma FilterRegroupStep(ps: seq<Pair>, ks: seq<string>, code: string, f: string -> bool)
    ensures Regroup(ps, FilterSeq(ks + [code], f))
         == Regroup(ps, FilterSeq(ks, f)) + (if f(code) then Tag(code, ValuesFor(ps, code)) else [])
  {
    var fs' := FilterSeq(ks, f);
    assert (ks + [code])[..|ks|] == ks;
    if f(code) {
      var fs := fs' + [code];
      assert FilterSeq(ks + [code], f) == fs;
      assert fs[..|fs| - 1] == fs';
    } else {
      assert FilterSeq(ks + [code], f) == fs';
      assert Regroup(ps, fs') + [] == Regroup(ps, fs');
    }
  }

  lemma {:induction false} AppendGroupsPaths(files: map<string, seq<Record>>, route: string -> string,
                                             ps: seq<Pair>, ks: seq<string>, path: string)
    ensures path in AppendGroups(files, route, ps, ks)
        <==> (path in files || exists k :: k in ks && route(k) == path)
  {
    if ks != [] {
      var ks' := ks[..|ks| - 1];
      AppendGroupsPaths(files, route, ps, ks', path);
      assert forall k :: k in ks <==> k in ks' || k == ks[|ks| - 1];
    }
  }

  /** `save_shards` only appends: every shard keeps its old records as a
      prefix and gains exactly `Appended(...)`, so a shard no line is routed
      to is left as it was. A shard file exists afterwards exactly when it
      existed before or some line of the batch is routed to it. */
  lemma SaveShardsAppendOnly(files: map<string, seq<Record>>, shardRoot: string, prefixLength: nat,
                             encodedLines: seq<(string, string)>, path: string)
    ensures Get(SaveShardsSpec(files, shardRoot, prefixLength, encodedLines), path)
         == Get(files, path) + Appended(shardRoot, prefixLength, encodedLines, path)
    ensures path in SaveShardsSpec(files, shardRoot, prefixLength, encodedLines)
        <==> (path in files
          || exists i :: 0 <= i < |encodedLines| && Route(shardRoot, prefixLength, encodedLines[i].1) == path)
  {
    var ps := ByCode(encodedLines);
    AppendGroupsAt(files, Router(shardRoot, prefixLength), ps, Distinct(KeysOf(ps)), path);
    SaveShardsPaths(files, shardRoot, prefixLength, encodedLines, path);
  }

  lemma SaveShardsPaths(files: map<string, seq<Record>>, shardRoot: string, prefixLength: nat,
                        encodedLines: seq<(string, string)>, path: string)
    ensures path in SaveShardsSpec(files, shardRoot, prefixLength, encodedLines)
        <==> (path in files
          || exists i :: 0 <= i < |encodedLines| && Route(shardRoot, prefixLength, encodedLines[i].1) == path)
  {
    var ps := ByCode(encodedLines);
    var route := Router(shardRoot, prefixLength);
    AppendGroupsPaths(files, route, ps, Distinct(KeysOf(ps)), path);
    RoutedKeyExists(encodedLines, route, path);
  }

  /** Some group key is routed to `path` exactly when some line's code is. */
  lemma RoutedKeyExists(encodedLines: seq<(string, string)>, route: string -> string, path: string)
    ensures (exists k :: k in Distinct(KeysOf(ByCode(encodedLines))) && route(k) == path)
        <==> exists i :: 0 <= i < |encodedLines| && route(encodedLines[i].1) == path
  {
    var ks := KeysOf(ByCode(encodedLines));
    assert forall i :: 0 <= i < |encodedLines| ==> ks[i] == encodedLines[i].1;
    if exists k :: k in Distinct(ks) && route(k) == path {
      var k :| k in Distinct(ks) && route(k) == path;
      var i := FirstIndex(ks, k);
      assert route(encodedLines[i].1) == path;
    }
    if exists i :: 0 <= i < |encodedLines| && route(encodedLines[i].1) == path {
      var i :| 0 <= i < |encodedLines| && route(encodedLines[i].1) == path;
      assert ks[i] in ks;
      assert ks[i] in Distinct(ks) && route(ks[i]) == path;
    }
  }

  /** Every (line, code) pair routed to a shard becomes exactly one record
      (code, line) of that shard: the appended records are a permutation of
      those pairs, so nothing is deduplicated or lost at write time. */
  lemma SaveShardsOneRecordPerLine(shardRoot: string, prefixLength: nat,
                                   encodedLines: seq<(string, string)>, path: string)
    ensures multiset(Appended(shardRoot, prefixLength, encodedLines, path))
         == multiset(FilterKeys(ByCode(encodedLines), RoutedTo(Router(shardRoot, prefixLength), path)))
  {
    var ps := ByCode(encodedLines);
    var f := RoutedTo(Router(shardRoot, prefixLength), path);
    var ks := FilterSeq(Distinct(KeysOf(ps)), f);
    FilterSeqNoDups(Distinct(KeysOf(ps)), f);
    RegroupFilterKeys(ps, f, ks);
    var qs := FilterKeys(ps, f);
    forall i | 0 <= i < |qs| ensures qs[i].0 in ks {
      assert qs[i] in ps;
      var j :| 0 <= j < |ps| && ps[j] == qs[i];
      assert KeysOf(ps)[j] == qs[i].0;
    }
    RegroupPermutation(qs, ks);
  }

  /** Within a shard, the records appended for one code are that code's lines
      in batch order; a code routed elsewhere gets nothing here. */
  lemma SaveShardsKeepsLineOrder(shardRoot: string, prefixLength: nat,
                                 encodedLines: seq<(string, string)>, path: string, code: string)
    ensures ValuesFor(Appended(shardRoot, prefixLength, encodedLines, path), code)
         == if Route(shardRoot, prefixLength, code) == path then ValuesFor(ByCode(encodedLines), code) else []
  {
    var ps := ByCode(encodedLines);
    var f := RoutedTo(Router(shardRoot, prefixLength), path);
    var ks := FilterSeq(Distinct(KeysOf(ps)), f);
    FilterSeqNoDups(Distinct(KeysOf(ps)), f);
    RegroupValues(ps, ks, code);
    if f(code) && code !in ks {
      assert code !in KeysOf(ps);
      ValuesForNonEmpty(ps, code);
    }
  }
}
