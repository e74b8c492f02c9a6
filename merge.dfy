/** The merge pass of `task_merge`: for each shard in turn, keep the first
    text seen for each code, append the survivors to the current output
    block, and optionally rewrite the shard grouped and sorted by code. */
module Merge {
  import opened Results
  import opened Seqs
  import opened Text
  import opened FileSystem

  // ---- first-seen deduplication within one shard ----

  /** `[texts[0] for texts in unique.values()]` once `unique[code].append(text)`
      has run over the shard's records: one text per distinct code, in the
      order the codes first appear. */
  function Survivors(rs: seq<Record>): (ts: seq<string>)
    ensures |ts| == |Distinct(KeysOf(rs))|
  {
    var ks := Distinct(KeysOf(rs));
    seq(|ks|, i requires 0 <= i < |ks| => ValuesForNonEmpty(rs, ks[i]); ValuesFor(rs, ks[i])[0])
  }

  /** The survivors are the first text of each distinct code, listed by the
      first appearance of the code; each survivor is a record of the shard. */
  lemma SurvivorsFirstSeen(rs: seq<Record>)
    ensures var ks := Distinct(KeysOf(rs));
      && (forall i :: 0 <= i < |ks| ==>
            Survivors(rs)[i] == rs[FirstIndex(KeysOf(rs), ks[i])].1
            && (ks[i], Survivors(rs)[i]) in rs)
      && (forall i, j :: 0 <= i < j < |ks| ==> FirstIndex(KeysOf(rs), ks[i]) < FirstIndex(KeysOf(rs), ks[j]))
  {
    var ks := Distinct(KeysOf(rs));
    forall i | 0 <= i < |ks|
      ensures Survivors(rs)[i] == rs[FirstIndex(KeysOf(rs), ks[i])].1
      ensures (ks[i], Survivors(rs)[i]) in rs
    {
      ValuesForHead(rs, ks[i]);
      var j := FirstIndex(KeysOf(rs), ks[i]);
      assert rs[j] == (ks[i], rs[j].1);
    }
    DistinctFirstSeenOrder(KeysOf(rs));
  }

  /** There is exactly one survivor per distinct code of the shard. */
  lemma SurvivorsCount(rs: seq<Record>)
    ensures |Survivors(rs)| == |ToSet(KeysOf(rs))|
    ensures |Survivors(rs)| <= |rs|
  {
    DistinctCount(KeysOf(rs));
  }

  lemma {:induction false} DistinctShorter(s: seq<string>)
    requires !NoDups(s)
    ensures |Distinct(s)| < |s|
  {
    var p := s[..|s| - 1];
    var x := s[|s| - 1];
    if NoDups(p) {
      var i, j :| 0 <= i < j < |s| && s[i] == s[j];
      assert j == |s| - 1 && p[i] == x;
    } else {
      DistinctShorter(p);
    }
  }

  /** Nothing is dropped from a shard exactly when its codes are all distinct. */
  lemma SurvivorsAllKept(rs: seq<Record>)
    ensures |Survivors(rs)| == |rs| <==> NoDups(KeysOf(rs))
  {
    if NoDups(KeysOf(rs)) {
      DistinctOfNoDups(KeysOf(rs));
    } else {
      DistinctShorter(KeysOf(rs));
    }
  }

  /** A shard whose codes are all distinct survives whole, in order. */
  lemma SurvivorsOfUnique(rs: seq<Record>)
    requires NoDups(KeysOf(rs))
    ensures |Survivors(rs)| == |rs|
    ensures forall i :: 0 <= i < |rs| ==> Survivors(rs)[i] == rs[i].1
  {
    var ks := KeysOf(rs);
    DistinctOfNoDups(ks);
    forall i | 0 <= i < |rs| ensures Survivors(rs)[i] == rs[i].1 {
      ValuesForHead(rs, ks[i]);
      assert FirstIndex(ks, ks[i]) == i;
    }
  }

  // ---- the size a shard adds to its block ----

  /** `sum(len(text.encode("utf-8")) for text in texts)`. */
  function Utf8Total(ts: seq<string>): nat {
    if ts == [] then 0 else Utf8Total(ts[..|ts| - 1]) + Utf8Size(ts[|ts| - 1])
  }

  /** `texts_size`: the UTF-8 bytes of the texts plus one per text. */
  function Contribution(ts: seq<string>): nat {
    Utf8Total(ts) + |ts|
  }

  /** What `f.write(f"{text}\n")` writes for the texts, one after another. */
  function Written(ts: seq<string>): string {
    if ts == [] then [] else Written(ts[..|ts| - 1]) + ts[|ts| - 1] + "\n"
  }

  /** The contribution is exactly the number of bytes appended to the output. */
  lemma {:induction false} ContributionIsWritten(ts: seq<string>)
    ensures Utf8Size(Written(ts)) == Contribution(ts)
  {
    if ts != [] {
      var p := ts[..|ts| - 1];
      ContributionIsWritten(p);
      Utf8SizeAppend(Written(p) + ts[|ts| - 1], "\n");
      Utf8SizeAppend(Written(p), ts[|ts| - 1]);
      assert Utf8Size("\n") == 1;
    }
  }

  // ---- blocks ----

  /** The survivor lists of the shards written to one block, in order. */
  type Block = seq<seq<string>>

  function Load(b: Block): nat {
    if b == [] then 0 else Load(b[..|b| - 1]) + Contribution(b[|b| - 1])
  }

  lemma LoadSnoc(b: Block, t: seq<string>)
    ensures Load(b + [t]) == Load(b) + Contribution(t)
  {
    DropLast(b, t);
  }

  lemma LoadSingle(t: seq<string>)
    ensures Load([t]) == Contribution(t)
  {
    LoadSnoc([], t);
  }

  /** Whether a shard contributing `t` overflows the current block `cur`:
      `max_block_size is not None and block_size + texts_size > max_block_size`. */
  predicate Overflows(cur: Block, t: seq<string>, maxBlockSize: Option<nat>) {
    maxBlockSize.Some? && Load(cur) + Contribution(t) > maxBlockSize.value
  }

  /** One shard placed after the blocks `p`: it starts a new block on
      overflow, and otherwise joins the last block. */
  function Push(p: seq<Block>, t: seq<string>, maxBlockSize: Option<nat>): (q: seq<Block>)
    requires |p| >= 1
    ensures |q| >= 1
  {
    var cur := p[|p| - 1];
    if Overflows(cur, t, maxBlockSize) then p + [[t]] else p[..|p| - 1] + [cur + [t]]
  }

  /** How the block accumulator distributes the shards' survivor lists `ts`
      over blocks 0, 1, ...; block 0 starts empty. */
  function Pack(ts: seq<seq<string>>, maxBlockSize: Option<nat>): (bs: seq<Block>)
    ensures |bs| >= 1
  {
    if ts == [] then [[]] else Push(Pack(ts[..|ts| - 1], maxBlockSize), ts[|ts| - 1], maxBlockSize)
  }

  lemma PackSnoc(ts: seq<seq<string>>, t: seq<string>, maxBlockSize: Option<nat>)
    ensures Pack(ts + [t], maxBlockSize) == Push(Pack(ts, maxBlockSize), t, maxBlockSize)
  {
    DropLast(ts, t);
  }

  /** `block_index` rises by at most one per shard. */
  lemma PackGrowth(ts: seq<seq<string>>, t: seq<string>, maxBlockSize: Option<nat>)
    ensures |Pack(ts + [t], maxBlockSize)| == |Pack(ts, maxBlockSize)|
         || |Pack(ts + [t], maxBlockSize)| == |Pack(ts, maxBlockSize)| + 1
  {
    PackSnoc(ts, t, maxBlockSize);
  }

  /** Concatenating the blocks gives back every shard, in order. */
  function JoinBlocks(bs: seq<Block>): seq<seq<string>> {
    if bs == [] then [] else JoinBlocks(bs[..|bs| - 1]) + bs[|bs| - 1]
  }

  lemma JoinBlocksSnoc(bs: seq<Block>, b: Block)
    ensures JoinBlocks(bs + [b]) == JoinBlocks(bs) + b
  {
    DropLast(bs, b);
  }

  lemma PushJoin(p: seq<Block>, t: seq<string>, maxBlockSize: Option<nat>)
    requires |p| >= 1
    ensures JoinBlocks(Push(p, t, maxBlockSize)) == JoinBlocks(p) + [t]
  {
    var cur := p[|p| - 1];
    var init := p[..|p| - 1];
    if Overflows(cur, t, maxBlockSize) {
      assert Push(p, t, maxBlockSize) == p + [[t]];
      JoinBlocksSnoc(p, [t]);
    } else {
      assert Push(p, t, maxBlockSize) == init + [cur + [t]];
      SplitLast(p);
      JoinBlocksSnoc(init, cur);
      JoinBlocksSnoc(init, cur + [t]);
      Assoc(JoinBlocks(init), cur, [t]);
    }
  }

  lemma {:induction false} PackJoin(ts: seq<seq<string>>, maxBlockSize: Option<nat>)
    ensures JoinBlocks(Pack(ts, maxBlockSize)) == ts
  {
    if ts == [] {
      assert JoinBlocks([[]]) == JoinBlocks([]) + [];
    } else {
      PackJoin(ts[..|ts| - 1], maxBlockSize);
      PushJoin(Pack(ts[..|ts| - 1], maxBlockSize), ts[|ts| - 1], maxBlockSize);
      SplitLast(ts);
    }
  }

  lemma PushNonEmpty(p: seq<Block>, t: seq<string>, maxBlockSize: Option<nat>)
    requires |p| >= 1
    requires forall k :: 1 <= k < |p| ==> p[k] != []
    ensures var q := Push(p, t, maxBlockSize);
      (forall k :: 1 <= k < |q| ==> q[k] != [])
      && (q[0] == [] <==> p[0] == [] && (|p| > 1 || Overflows(p[0], t, maxBlockSize)))
  {
  }

  /** Every block but block 0 holds at least one shard; block 0 is empty
      exactly when there are no shards, or a budget is set and the first
      shard alone exceeds it. */
  lemma {:induction false} PackNonEmpty(ts: seq<seq<string>>, maxBlockSize: Option<nat>)
    ensures forall k :: 1 <= k < |Pack(ts, maxBlockSize)| ==> Pack(ts, maxBlockSize)[k] != []
    ensures Pack(ts, maxBlockSize)[0] == []
        <==> ts == [] || (maxBlockSize.Some? && Contribution(ts[0]) > maxBlockSize.value)
  {
    if ts != [] {
      var ts' := ts[..|ts| - 1];
      PackNonEmpty(ts', maxBlockSize);
      PushNonEmpty(Pack(ts', maxBlockSize), ts[|ts| - 1], maxBlockSize);
      if ts' == [] {
        assert Load([]) == 0;
        assert ts[|ts| - 1] == ts[0];
      } else {
        assert ts'[0] == ts[0];
      }
    }
  }

  lemma PushBudget(p: seq<Block>, t: seq<string>, maxBlockSize: Option<nat>)
    requires |p| >= 1 && maxBlockSize.Some?
    requires forall k :: 0 <= k < |p| ==> Load(p[k]) <= maxBlockSize.value || |p[k]| == 1
    ensures var q := Push(p, t, maxBlockSize);
      forall k :: 0 <= k < |q| ==> Load(q[k]) <= maxBlockSize.value || |q[k]| == 1
  {
    var cur := p[|p| - 1];
    if Overflows(cur, t, maxBlockSize) {
      LoadSingle(t);
    } else {
      LoadSnoc(cur, t);
    }
  }

  /** With a budget, a block whose size exceeds it holds exactly one shard. */
  lemma {:induction false} PackBudget(ts: seq<seq<string>>, maxBlockSize: Option<nat>)
    requires maxBlockSize.Some?
    ensures forall k :: 0 <= k < |Pack(ts, maxBlockSize)| ==>
      Load(Pack(ts, maxBlockSize)[k]) <= maxBlockSize.value || |Pack(ts, maxBlockSize)[k]| == 1
  {
    if ts == [] {
      assert Load([]) == 0;
    } else {
      PackBudget(ts[..|ts| - 1], maxBlockSize);
      PushBudget(Pack(ts[..|ts| - 1], maxBlockSize), ts[|ts| - 1], maxBlockSize);
    }
  }

  predicate GreedyBlocks(p: seq<Block>, m: nat) {
    forall k :: 1 <= k < |p| ==> p[k] != [] && Load(p[k - 1]) + Contribution(p[k][0]) > m
  }

  lemma PushGreedy(p: seq<Block>, t: seq<string>, maxBlockSize: Option<nat>)
    requires |p| >= 1 && maxBlockSize.Some?
    requires GreedyBlocks(p, maxBlockSize.value)
    ensures GreedyBlocks(Push(p, t, maxBlockSize), maxBlockSize.value)
  {
    var m := maxBlockSize.value;
    var cur := p[|p| - 1];
    var q := Push(p, t, maxBlockSize);
    if Overflows(cur, t, maxBlockSize) {
      assert q == p + [[t]];
      forall k | 1 <= k < |q| ensures q[k] != [] && Load(q[k - 1]) + Contribution(q[k][0]) > m {
        if k < |p| {
          assert q[k] == p[k] && q[k - 1] == p[k - 1];
        } else {
          assert q[k - 1] == cur && q[k] == [t];
        }
      }
    } else {
      forall k | 1 <= k < |q| ensures q[k] != [] && Load(q[k - 1]) + Contribution(q[k][0]) > m {
        assert q[k - 1] == p[k - 1];
        if k == |p| - 1 {
          assert q[k] == cur + [t];
          assert (cur + [t])[0] == cur[0];
        } else {
          assert q[k] == p[k];
        }
      }
    }
  }

  /** A new block is started only when the shard would not fit in the
      current one. */
  lemma {:induction false} PackGreedy(ts: seq<seq<string>>, maxBlockSize: Option<nat>)
    requires maxBlockSize.Some?
    ensures forall k :: 1 <= k < |Pack(ts, maxBlockSize)| ==>
      Pack(ts, maxBlockSize)[k] != []
      && Load(Pack(ts, maxBlockSize)[k - 1]) + Contribution(Pack(ts, maxBlockSize)[k][0]) > maxBlockSize.value
  {
    if ts != [] {
      PackGreedy(ts[..|ts| - 1], maxBlockSize);
      PushGreedy(Pack(ts[..|ts| - 1], maxBlockSize), ts[|ts| - 1], maxBlockSize);
    }
  }

  /** Without a budget, every shard goes to the single output. */
  lemma {:induction false} PackNoBudget(ts: seq<seq<string>>, maxBlockSize: Option<nat>)
    requires maxBlockSize.None?
    ensures Pack(ts, maxBlockSize) == [ts]
  {
    if ts != [] {
      PackNoBudget(ts[..|ts| - 1], maxBlockSize);
      SplitLast(ts);
    }
  }

  // ---- what the merge writes ----

  /** The output blocks once the blocks `bs` have been written, one after the
      other: a block that holds at least one shard opens its file for
      appending and adds its shards' survivors. */
  function BlockOutputs(outputs: map<nat, seq<string>>, bs: seq<Block>): map<nat, seq<string>> {
    if bs == [] then outputs
    else
      var o := BlockOutputs(outputs, bs[..|bs| - 1]);
      var k := |bs| - 1;
      if bs[k] == [] then o else o[k := Get(o, k) + Flatten(bs[k])]
  }

  /** The indices of the blocks that hold at least one shard. */
  function Used(bs: seq<Block>): set<nat> {
    set k | 0 <= k < |bs| && bs[k] != []
  }

  /** The texts the blocks `bs` write to block file `k`. */
  function Added(bs: seq<Block>, k: nat): seq<string> {
    if k < |bs| then Flatten(bs[k]) else []
  }

  /** Block file `k` after the blocks `bs`: it exists exactly when it existed
      before or some shard was packed into block `k`, and it holds what it
      held before followed by the survivors of the shards packed into it, in
      shard order. */
  lemma {:induction false} BlockOutputsAt(outputs: map<nat, seq<string>>, bs: seq<Block>, k: nat)
    ensures k in BlockOutputs(outputs, bs) <==> k in outputs || k in Used(bs)
    ensures Get(BlockOutputs(outputs, bs), k) == Get(outputs, k) + Added(bs, k)
  {
    if bs == [] {
      assert Added(bs, k) == [];
      assert k !in Used(bs);
    } else {
      var init := bs[..|bs| - 1];
      var last := |bs| - 1;
      var o := BlockOutputs(outputs, init);
      BlockOutputsAt(outputs, init, k);
      assert Added(init, last) == [];
      assert k in Used(bs) <==> k in Used(init) || (k == last && bs[last] != []);
      if k != last {
        assert k < |init| ==> init[k] == bs[k];
        assert Added(bs, k) == Added(init, k);
      }
      if bs[last] == [] {
        assert Flatten(bs[last]) == [];
      } else {
        GetUpdate(o, last, Get(o, last) + Flatten(bs[last]), k);
      }
    }
  }

  /** Opening a new block for a shard writes its survivors to a new index. */
  lemma PushOutputsNew(outputs: map<nat, seq<string>>, p: seq<Block>, q: seq<Block>, t: seq<string>, k: nat)
    requires q == p + [[t]] && k == |p|
    ensures BlockOutputs(outputs, q) == BlockOutputs(outputs, p)[k := Get(BlockOutputs(outputs, p), k) + t]
  {
    DropLast(p, [t]);
    FlattenSnoc([], t);
    assert Flatten([t]) == t;
  }

  /** Adding a shard to a block that held none opens that block's file. */
  lemma PushOutputsFirst(outputs: map<nat, seq<string>>, init: seq<Block>, p: seq<Block>, q: seq<Block>,
                         t: seq<string>, k: nat)
    requires p == init + [[]] && q == init + [[t]] && k == |init|
    ensures BlockOutputs(outputs, q) == BlockOutputs(outputs, p)[k := Get(BlockOutputs(outputs, p), k) + t]
  {
    DropLast(init, [t]);
    DropLast(init, []);
    FlattenSnoc([], t);
    assert Flatten([t]) == t;
    assert BlockOutputs(outputs, p) == BlockOutputs(outputs, init);
  }

  /** Adding a shard to a block that already holds some appends its survivors
      after theirs. */
  lemma PushOutputsMore(outputs: map<nat, seq<string>>, init: seq<Block>, cur: Block, t: seq<string>)
    requires cur != []
    ensures BlockOutputs(outputs, init + [cur + [t]])
         == BlockOutputs(outputs, init + [cur])[|init| := Get(BlockOutputs(outputs, init + [cur]), |init|) + t]
  {
    var o := BlockOutputs(outputs, init);
    var g := Get(o, |init|);
    DropLast(init, cur + [t]);
    DropLast(init, cur);
    FlattenSnoc(cur, t);
    assert BlockOutputs(outputs, init + [cur]) == o[|init| := g + Flatten(cur)];
    assert BlockOutputs(outputs, init + [cur + [t]]) == o[|init| := g + Flatten(cur + [t])];
    Assoc(g, Flatten(cur), t);
  }

  /** Appending one shard's survivors to the last block, as the program does,
      keeps the outputs equal to the blocks written so far. */
  lemma PushOutputs(outputs: map<nat, seq<string>>, p: seq<Block>, q: seq<Block>, t: seq<string>,
                    maxBlockSize: Option<nat>, k: nat)
    requires |p| >= 1 && q == Push(p, t, maxBlockSize) && k == |q| - 1
    ensures BlockOutputs(outputs, q) == BlockOutputs(outputs, p)[k := Get(BlockOutputs(outputs, p), k) + t]
  {
    var init, cur := p[..|p| - 1], p[|p| - 1];
    if Overflows(cur, t, maxBlockSize) {
      assert q == p + [[t]];
      PushOutputsNew(outputs, p, q, t, k);
    } else {
      SplitLast(p);
      assert q == init + [cur + [t]];
      if cur == [] {
        assert cur + [t] == [t];
        PushOutputsFirst(outputs, init, p, q, t, k);
      } else {
        PushOutputsMore(outputs, init, cur, t);
      }
    }
  }

  /** With no budget, block 0 (the single output file) gains every survivor
      and nothing else changes. */
  lemma NoBudgetSingleOutput(outputs: map<nat, seq<string>>, ts: seq<seq<string>>, maxBlockSize: Option<nat>)
    requires maxBlockSize.None? && ts != []
    ensures BlockOutputs(outputs, Pack(ts, maxBlockSize)) == outputs[0 := Get(outputs, 0) + Flatten(ts)]
  {
    PackNoBudget(ts, maxBlockSize);
    var bs := [ts];
    assert bs[..0] == [];
  }

  // ---- the counters ----

  /** `n_duplicated`: the records read from the shards. */
  function Seen(cs: seq<seq<Record>>): nat {
    if cs == [] then 0 else Seen(cs[..|cs| - 1]) + |cs[|cs| - 1]|
  }

  /** `n_deduplicated`: the texts that survive. */
  function Kept(cs: seq<seq<Record>>): nat {
    if cs == [] then 0 else Kept(cs[..|cs| - 1]) + |Survivors(cs[|cs| - 1])|
  }

  /** No more texts survive than were read, and as many exactly when no
      shard holds a code twice. */
  lemma {:induction false} KeptSeen(cs: seq<seq<Record>>)
    ensures Kept(cs) <= Seen(cs)
    ensures Kept(cs) == Seen(cs) <==> forall i :: 0 <= i < |cs| ==> NoDups(KeysOf(cs[i]))
  {
    if cs != [] {
      var p := cs[..|cs| - 1];
      var c := cs[|cs| - 1];
      KeptSeen(p);
      SurvivorsCount(c);
      SurvivorsAllKept(c);
      SplitLast(cs);
      AllNoDupsSnoc(p, c);
    }
  }

  lemma AllNoDupsSnoc(p: seq<seq<Record>>, c: seq<Record>)
    ensures (forall i :: 0 <= i < |p + [c]| ==> NoDups(KeysOf((p + [c])[i])))
        <==> (forall i :: 0 <= i < |p| ==> NoDups(KeysOf(p[i]))) && NoDups(KeysOf(c))
  {
    var cs := p + [c];
    assert cs[|p|] == c;
    assert forall i :: 0 <= i < |p| ==> cs[i] == p[i];
  }

  /** `100 * n_deduplicated / n_duplicated`, which raises ZeroDivisionError
      when no record was read. */
  function Percentage(kept: nat, seen: nat): (r: Result<real, Error>)
    ensures r.Failure? <==> seen == 0
    ensures r.Failure? ==> r.error == ZeroDivision
    ensures r.Success? ==> r.value * (seen as real) == 100.0 * (kept as real)
  {
    if seen == 0 then Failure(ZeroDivision) else Success(100.0 * (kept as real) / (seen as real))
  }

  /** The percentage of surviving texts lies between 0 and 100. */
  lemma PercentageBounds(cs: seq<seq<Record>>)
    ensures Percentage(Kept(cs), Seen(cs)).Success? ==> 0.0 <= Percentage(Kept(cs), Seen(cs)).value <= 100.0
  {
    KeptSeen(cs);
    PercentageRange(Kept(cs), Seen(cs));
  }

  lemma PercentageRange(kept: nat, seen: nat)
    requires kept <= seen
    ensures Percentage(kept, seen).Success? ==> 0.0 <= Percentage(kept, seen).value <= 100.0
  {
    var r := Percentage(kept, seen);
    if r.Success? {
      var n := seen as real;
      assert r.value * n == 100.0 * (kept as real) <= 100.0 * n;
      ScaleNonNegative(r.value, n);
      ScaleBound(r.value, 100.0, n);
    }
  }

  lemma ScaleNonNegative(a: real, n: real)
    requires n > 0.0 && a * n >= 0.0
    ensures a >= 0.0
  {
  }

  lemma ScaleBound(a: real, b: real, n: real)
    requires n > 0.0 && a * n <= b * n
    ensures a <= b
  {
    assert (b - a) * n == b * n - a * n;
  }

  // ---- the sort rewrite ----

  /** `for code, texts in sorted(unique.items()): for text in texts: write`:
      the shard's records grouped by code, codes ascending. Every record is
      written back: the rewrite does not deduplicate. */
  function SortedRewrite(rs: seq<Record>): seq<Record> {
    Regroup(rs, Sorted(Distinct(KeysOf(rs))))
  }

  /** A list in which every element occurs at most once has no repeats. */
  lemma {:induction false} NoDupsOfCounts(t: seq<string>)
    requires forall x :: multiset(t)[x] <= 1
    ensures NoDups(t)
  {
    if t != [] {
      var p := t[..|t| - 1];
      var y := t[|t| - 1];
      SplitLast(t);
      assert multiset(t) == multiset(p) + multiset{y};
      forall x ensures multiset(p)[x] <= 1 {
        assert multiset(p)[x] <= multiset(t)[x];
      }
      NoDupsOfCounts(p);
      assert multiset(p)[y] + 1 == multiset(t)[y];
      assert y !in p;
      forall i, j | 0 <= i < j < |t| ensures t[i] != t[j] {
        if j == |t| - 1 {
          assert t[i] == p[i];
        } else {
          assert t[i] == p[i] && t[j] == p[j];
        }
      }
    }
  }

  lemma {:induction false} CountsOfNoDups(s: seq<string>, x: string)
    requires NoDups(s)
    ensures multiset(s)[x] <= 1
  {
    if s != [] {
      var p := s[..|s| - 1];
      assert NoDups(p);
      CountsOfNoDups(p, x);
      assert s == p + [s[|s| - 1]];
      assert s[|s| - 1] !in p;
    }
  }

  /** A permutation of a list without repeats has none. */
  lemma NoDupsPermutation(s: seq<string>, t: seq<string>)
    requires NoDups(s) && multiset(s) == multiset(t)
    ensures NoDups(t)
  {
    forall x ensures multiset(t)[x] <= 1 {
      CountsOfNoDups(s, x);
    }
    NoDupsOfCounts(t);
  }

  lemma SortedKeysDistinct(rs: seq<Record>)
    ensures NoDups(Sorted(Distinct(KeysOf(rs))))
    ensures forall k :: k in Sorted(Distinct(KeysOf(rs))) <==> k in KeysOf(rs)
  {
    var d := Distinct(KeysOf(rs));
    NoDupsPermutation(d, Sorted(d));
    assert forall k :: k in Sorted(d) <==> k in multiset(d);
  }

  /** The rewritten shard holds the same records, duplicates included. */
  lemma SortedRewritePermutation(rs: seq<Record>)
    ensures multiset(SortedRewrite(rs)) == multiset(rs)
  {
    SortedKeysDistinct(rs);
    RegroupPermutation(rs, Sorted(Distinct(KeysOf(rs))));
  }

  /** Each code keeps its texts in their original order. */
  lemma SortedRewriteKeepsOrder(rs: seq<Record>, code: string)
    ensures ValuesFor(SortedRewrite(rs), code) == ValuesFor(rs, code)
  {
    SortedKeysDistinct(rs);
    ValuesForNonEmpty(rs, code);
    RegroupValues(rs, Sorted(Distinct(KeysOf(rs))), code);
  }

  /** The codes of `Regroup(ps, ks)` are drawn from `ks`. */
  lemma {:induction false} RegroupKeysIn(ps: seq<Pair>, ks: seq<string>)
    ensures forall i :: 0 <= i < |Regroup(ps, ks)| ==> Regroup(ps, ks)[i].0 in ks
  {
    if ks != [] {
      var ks' := ks[..|ks| - 1];
      var k := ks[|ks| - 1];
      RegroupKeysIn(ps, ks');
      var a := Regroup(ps, ks');
      var t := Tag(k, ValuesFor(ps, k));
      var r := Regroup(ps, ks);
      forall i | 0 <= i < |r| ensures r[i].0 in ks {
        if i >= |a| {
          assert r[i] == t[i - |a|];
        } else {
          assert r[i] == a[i];
          assert a[i].0 in ks';
        }
      }
    }
  }

  /** Regrouping by ascending codes lists the records with ascending codes. */
  lemma {:induction false} RegroupAscending(ps: seq<Pair>, ks: seq<string>)
    requires Ascending(ks)
    ensures forall i, j :: 0 <= i < j < |Regroup(ps, ks)| ==> LexLe(Regroup(ps, ks)[i].0, Regroup(ps, ks)[j].0)
  {
    if ks != [] {
      var ks' := ks[..|ks| - 1];
      var k := ks[|ks| - 1];
      assert Ascending(ks');
      RegroupAscending(ps, ks');
      RegroupKeysIn(ps, ks');
      var a := Regroup(ps, ks');
      var t := Tag(k, ValuesFor(ps, k));
      var r := Regroup(ps, ks);
      assert r == a + t;
      forall i, j | 0 <= i < j < |r| ensures LexLe(r[i].0, r[j].0) {
        if j < |a| {
          assert r[i] == a[i] && r[j] == a[j];
        } else if i < |a| {
          assert r[i] == a[i] && r[j] == t[j - |a|];
          var x :| 0 <= x < |ks'| && ks'[x] == a[i].0;
          assert ks[x] == r[i].0 && ks[|ks| - 1] == r[j].0;
        } else {
          assert r[i] == t[i - |a|] && r[j] == t[j - |a|];
          LexLeReflexive(k);
        }
      }
    }
  }

  /** The rewritten shard lists its codes in ascending order. */
  lemma SortedRewriteAscending(rs: seq<Record>)
    ensures forall i, j :: 0 <= i < j < |SortedRewrite(rs)| ==>
      LexLe(SortedRewrite(rs)[i].0, SortedRewrite(rs)[j].0)
  {
    RegroupAscending(rs, Sorted(Distinct(KeysOf(rs))));
  }

  lemma {:induction false} LexLeReflexive(a: string)
    ensures LexLe(a, a)
  {
    if a != [] { LexLeReflexive(a[1..]); }
  }

  /** Merging a sorted shard again keeps the same text for every code. */
  lemma SortedRewriteSameSurvivors(rs: seq<Record>, code: string)
    requires code in KeysOf(rs)
    ensures code in KeysOf(SortedRewrite(rs))
    ensures ValuesFor(rs, code) != [] && ValuesFor(SortedRewrite(rs), code) != []
    ensures ValuesFor(SortedRewrite(rs), code)[0] == ValuesFor(rs, code)[0]
  {
    SortedRewriteKeepsOrder(rs, code);
    ValuesForNonEmpty(rs, code);
    ValuesForNonEmpty(SortedRewrite(rs), code);
  }

  /** The shard store once every shard of `ss` has been rewritten. */
  function RewriteAll(files: map<string, seq<Record>>, ss: seq<string>): map<string, seq<Record>> {
    map p | p in files :: if p in ss then SortedRewrite(files[p]) else files[p]
  }

  lemma RewriteAllSnoc(files: map<string, seq<Record>>, ss: seq<string>, s: string)
    requires s in files
    ensures RewriteAll(files, ss + [s]) == RewriteAll(files, ss)[s := SortedRewrite(files[s])]
  {
  }

  // ---- task_merge ----

  /** The contents of the listed shards, in order. */
  function Contents(files: map<string, seq<Record>>, shards: seq<string>): (cs: seq<seq<Record>>)
    ensures |cs| == |shards|
  {
    if shards == [] then [] else Contents(files, shards[..|shards| - 1]) + [Get(files, shards[|shards| - 1])]
  }

  lemma ContentsSnoc(files: map<string, seq<Record>>, shards: seq<string>, s: string)
    ensures Contents(files, shards + [s]) == Contents(files, shards) + [Get(files, s)]
  {
    DropLast(shards, s);
  }

  /** The survivors of each shard, in shard order. */
  function SurvivorLists(cs: seq<seq<Record>>): (ts: seq<seq<string>>)
    ensures |ts| == |cs|
  {
    if cs == [] then [] else SurvivorLists(cs[..|cs| - 1]) + [Survivors(cs[|cs| - 1])]
  }

  lemma SurvivorListsSnoc(cs: seq<seq<Record>>, c: seq<Record>)
    ensures SurvivorLists(cs + [c]) == SurvivorLists(cs) + [Survivors(c)]
  {
    DropLast(cs, c);
  }

  /** The deduplication step of one shard: fill `unique` and keep the first
      text of each code. */
  method DedupShard(rs: seq<Record>) returns (texts: seq<string>, keys: seq<string>, groups: map<string, seq<string>>)
    ensures texts == Survivors(rs)
    ensures keys == Distinct(KeysOf(rs))
    ensures forall k :: k in groups <==> k in keys
    ensures forall k :: k in groups ==> groups[k] == ValuesFor(rs, k)
  {
    keys, groups := GroupInOrder(rs);
    texts := seq(|keys|, i requires 0 <= i < |keys| => groups[keys[i]][0]);
  }

  /** The records the sort rewrite writes back, built in the order it writes
      them. */
  method SortShard(rs: seq<Record>, keys: seq<string>, groups: map<string, seq<string>>)
    returns (out: seq<Record>)
    requires keys == Distinct(KeysOf(rs))
    requires forall k :: k in groups <==> k in keys
    requires forall k :: k in groups ==> groups[k] == ValuesFor(rs, k)
    ensures out == SortedRewrite(rs)
  {
    var order := Sorted(keys);
    SortedMembers(keys);
    out := RewriteGroups(rs, order, groups);
  }

  /** The writing loop of the rewrite: the groups of `order`, one after the
      other. */
  method RewriteGroups(rs: seq<Record>, order: seq<string>, groups: map<string, seq<string>>)
    returns (out: seq<Record>)
    requires forall k :: k in order ==> k in groups && groups[k] == ValuesFor(rs, k)
    ensures out == Regroup(rs, order)
  {
    out := [];
    var j := 0;
    while j < |order|
      invariant 0 <= j <= |order|
      invariant out == Regroup(rs, order[..j])
    {
      var code := order[j];
      assert code in groups && groups[code] == ValuesFor(rs, code) by {
        assert code in order;
      }
      SortStep(rs, order, j);
      out := out + Tag(code, groups[code]);
      j := j + 1;
    }
    assert order[..j] == order;
  }

  lemma SortedMembers(s: seq<string>)
    ensures forall k :: k in Sorted(s) <==> k in s
  {
    assert forall k :: k in Sorted(s) <==> k in multiset(s);
  }

  lemma SortStep(rs: seq<Record>, order: seq<string>, j: nat)
    requires j < |order|
    ensures Regroup(rs, order[..j + 1]) == Regroup(rs, order[..j]) + Tag(order[j], ValuesFor(rs, order[j]))
  {
    TakeNext(order, j);
    RegroupNext(rs, order[..j], order[j]);
  }

  /** The block accumulator `(block_size, block_index)` after the survivor
      lists `ts`: the size of the last block and its index. */
  predicate AccIs(blockSize: nat, blockIndex: nat, ts: seq<seq<string>>, maxBlockSize: Option<nat>) {
    var p := Pack(ts, maxBlockSize);
    blockSize == Load(p[|p| - 1]) && blockIndex == |p| - 1
  }

  /** The blocking step for one shard, as the program writes it. */
  method Place(blockSize: nat, blockIndex: nat, texts: seq<string>, maxBlockSize: Option<nat>,
               ghost ts: seq<seq<string>>)
    returns (blockSize': nat, blockIndex': nat)
    requires AccIs(blockSize, blockIndex, ts, maxBlockSize)
    ensures AccIs(blockSize', blockIndex', ts + [texts], maxBlockSize)
    ensures blockIndex' == blockIndex || blockIndex' == blockIndex + 1
  {
    var textsSize := Utf8Total(texts) + |texts|;
    PackSnoc(ts, texts, maxBlockSize);
    var p := Pack(ts, maxBlockSize);
    if maxBlockSize.Some? && blockSize + textsSize > maxBlockSize.value {
      blockSize', blockIndex' := textsSize, blockIndex + 1;
      LoadSingle(texts);
    } else {
      blockSize', blockIndex' := blockSize + textsSize, blockIndex;
      LoadSnoc(p[|p| - 1], texts);
    }
  }

  lemma SeenSnoc(cs: seq<seq<Record>>, c: seq<Record>)
    ensures Seen(cs + [c]) == Seen(cs) + |c|
  {
    DropLast(cs, c);
  }

  lemma KeptSnoc(cs: seq<seq<Record>>, c: seq<Record>)
    ensures Kept(cs + [c]) == Kept(cs) + |Survivors(c)|
  {
    DropLast(cs, c);
  }

  /** Appending the survivors of one more shard to block `blockIndex`, the
      last block once that shard is packed, keeps the outputs equal to the
      blocks written so far. */
  lemma OutputsStep(outputs: map<nat, seq<string>>, done: seq<seq<string>>, texts: seq<string>,
                    maxBlockSize: Option<nat>, blockIndex: nat)
    requires blockIndex == |Pack(done + [texts], maxBlockSize)| - 1
    ensures BlockOutputs(outputs, Pack(done + [texts], maxBlockSize))
         == BlockOutputs(outputs, Pack(done, maxBlockSize))[blockIndex :=
              Get(BlockOutputs(outputs, Pack(done, maxBlockSize)), blockIndex) + texts]
  {
    PackSnoc(done, texts, maxBlockSize);
    PushOutputs(outputs, Pack(done, maxBlockSize), Pack(done + [texts], maxBlockSize), texts, maxBlockSize, blockIndex);
  }

  /** One pass of the loop of `task_merge` over the shard `shard`: count its
      records, keep the first text of each code, append the survivors to the
      current block (or to a new one on overflow), and with `sort` rewrite
      the shard. */
  method MergeShard(disk: Disk, shard: string, maxBlockSize: Option<nat>, sort: bool,
                    blockSize: nat, blockIndex: nat, ghost outputs: map<nat, seq<string>>, ghost done: seq<seq<string>>)
    returns (texts: seq<string>, nRead: nat, blockSize': nat, blockIndex': nat)
    requires shard in disk.shardFiles
    requires AccIs(blockSize, blockIndex, done, maxBlockSize)
    requires disk.outputs == BlockOutputs(outputs, Pack(done, maxBlockSize))
    modifies disk
    ensures texts == Survivors(old(disk.shardFiles[shard])) && nRead == |old(disk.shardFiles[shard])|
    ensures AccIs(blockSize', blockIndex', done + [texts], maxBlockSize)
    ensures disk.outputs == BlockOutputs(outputs, Pack(done + [texts], maxBlockSize))
    ensures disk.shardFiles == if sort then old(disk.shardFiles)[shard := SortedRewrite(old(disk.shardFiles[shard]))]
                               else old(disk.shardFiles)
  {
    var rs := disk.shardFiles[shard];
    nRead := |rs|;
    var keys, groups;
    texts, keys, groups := DedupShard(rs);
    blockSize', blockIndex' := Place(blockSize, blockIndex, texts, maxBlockSize, done);
    OutputsStep(outputs, done, texts, maxBlockSize, blockIndex');
    disk.outputs := disk.outputs[blockIndex' := Get(disk.outputs, blockIndex') + texts];
    if sort {
      var sorted := SortShard(rs, keys, groups);
      disk.shardFiles := disk.shardFiles[shard := sorted];
    }
  }

  /** What the loop of `task_merge` has done once the shards `done` are
      processed, starting from the store `files` and the outputs `outputs`:
      the accumulator, the outputs and the counters follow the shards'
      contents, and with `sort` those shards are rewritten. */
  ghost predicate MergedSoFar(files: map<string, seq<Record>>, outputs: map<nat, seq<string>>, done: seq<string>,
                              maxBlockSize: Option<nat>, sort: bool, blockSize: nat, blockIndex: nat,
                              nDuplicated: nat, nDeduplicated: nat,
                              curOutputs: map<nat, seq<string>>, curFiles: map<string, seq<Record>>)
  {
    var cs := Contents(files, done);
    var ts := SurvivorLists(cs);
    && AccIs(blockSize, blockIndex, ts, maxBlockSize)
    && curOutputs == BlockOutputs(outputs, Pack(ts, maxBlockSize))
    && nDuplicated == Seen(cs) && nDeduplicated == Kept(cs)
    && curFiles == if sort then RewriteAll(files, done) else files
  }

  lemma MergeStart(files: map<string, seq<Record>>, outputs: map<nat, seq<string>>, maxBlockSize: Option<nat>, sort: bool)
    ensures MergedSoFar(files, outputs, [], maxBlockSize, sort, 0, 0, 0, 0, outputs, files)
  {
    assert Load([]) == 0;
    assert BlockOutputs(outputs, [[]]) == outputs;
    assert RewriteAll(files, []) == files;
  }

  /** The state after one more shard follows the same contents. */
  lemma MergedStep(files: map<string, seq<Record>>, outputs: map<nat, seq<string>>, done: seq<string>, shard: string,
                   maxBlockSize: Option<nat>, sort: bool, blockSize: nat, blockIndex: nat,
                   nDuplicated: nat, nDeduplicated: nat, curOutputs: map<nat, seq<string>>, curFiles: map<string, seq<Record>>,
                   texts: seq<string>, nRead: nat, blockSize': nat, blockIndex': nat,
                   curOutputs': map<nat, seq<string>>, curFiles': map<string, seq<Record>>)
    requires shard in files
    requires MergedSoFar(files, outputs, done, maxBlockSize, sort, blockSize, blockIndex,
                         nDuplicated, nDeduplicated, curOutputs, curFiles)
    requires texts == Survivors(files[shard]) && nRead == |files[shard]|
    requires AccIs(blockSize', blockIndex', SurvivorLists(Contents(files, done)) + [texts], maxBlockSize)
    requires curOutputs' == BlockOutputs(outputs, Pack(SurvivorLists(Contents(files, done)) + [texts], maxBlockSize))
    requires curFiles' == if sort then curFiles[shard := SortedRewrite(files[shard])] else curFiles
    ensures MergedSoFar(files, outputs, done + [shard], maxBlockSize, sort, blockSize', blockIndex',
                        nDuplicated + nRead, nDeduplicated + |texts|, curOutputs', curFiles')
  {
    var cs := Contents(files, done);
    ContentsSnoc(files, done, shard);
    SurvivorListsSnoc(cs, files[shard]);
    SeenSnoc(cs, files[shard]);
    KeptSnoc(cs, files[shard]);
    if sort {
      RewriteAllSnoc(files, done, shard);
    }
  }

  /** The loop body of `task_merge`, with its counters. */
  method MergeStep(disk: Disk, shard: string, maxBlockSize: Option<nat>, sort: bool,
                   blockSize: nat, blockIndex: nat, nDuplicated: nat, nDeduplicated: nat,
                   ghost files: map<string, seq<Record>>, ghost outputs: map<nat, seq<string>>, ghost done: seq<string>)
    returns (blockSize': nat, blockIndex': nat, nDuplicated': nat, nDeduplicated': nat)
    requires shard in files && shard !in done
    requires MergedSoFar(files, outputs, done, maxBlockSize, sort, blockSize, blockIndex,
                         nDuplicated, nDeduplicated, disk.outputs, disk.shardFiles)
    modifies disk
    ensures MergedSoFar(files, outputs, done + [shard], maxBlockSize, sort, blockSize', blockIndex',
                        nDuplicated', nDeduplicated', disk.outputs, disk.shardFiles)
  {
    ghost var ts := SurvivorLists(Contents(files, done));
    ghost var curOutputs, curFiles := disk.outputs, disk.shardFiles;
    assert disk.shardFiles[shard] == files[shard];
    var texts, nRead;
    texts, nRead, blockSize', blockIndex' := MergeShard(disk, shard, maxBlockSize, sort, blockSize, blockIndex, outputs, ts);
    nDuplicated', nDeduplicated' := nDuplicated + nRead, nDeduplicated + |texts|;
    MergedStep(files, outputs, done, shard, maxBlockSize, sort, blockSize, blockIndex, nDuplicated, nDeduplicated,
               curOutputs, curFiles, texts, nRead, blockSize', blockIndex', disk.outputs, disk.shardFiles);
  }

  /** `task_merge` over the shards `shards` (the program finds them with a
      glob; here they are given, each once). Each shard is read as it was on
      entry; the outputs gain the survivors block by block; with `sort` every
      listed shard is rewritten; the result is the percentage of surviving
      texts. */
  method TaskMerge(disk: Disk, shards: seq<string>, maxBlockSize: Option<nat>, sort: bool)
    returns (r: Result<real, Error>)
    requires NoDups(shards)
    requires forall i :: 0 <= i < |shards| ==> shards[i] in disk.shardFiles
    modifies disk
    ensures var cs := Contents(old(disk.shardFiles), shards);
      && disk.outputs == BlockOutputs(old(disk.outputs), Pack(SurvivorLists(cs), maxBlockSize))
      && r == Percentage(Kept(cs), Seen(cs))
    ensures disk.shardFiles == if sort then RewriteAll(old(disk.shardFiles), shards) else old(disk.shardFiles)
  {
    ghost var files := disk.shardFiles;
    ghost var outputs := disk.outputs;
    var nDuplicated, nDeduplicated := 0, 0;
    var blockSize, blockIndex := 0, 0;
    assert shards[..0] == [];
    MergeStart(files, outputs, maxBlockSize, sort);
    var i := 0;
    while i < |shards|
      invariant 0 <= i <= |shards|
      invariant MergedSoFar(files, outputs, shards[..i], maxBlockSize, sort, blockSize, blockIndex,
                            nDuplicated, nDeduplicated, disk.outputs, disk.shardFiles)
    {
      assert shards[i] !in shards[..i];
      blockSize, blockIndex, nDuplicated, nDeduplicated :=
        MergeStep(disk, shards[i], maxBlockSize, sort, blockSize, blockIndex, nDuplicated, nDeduplicated,
                  files, outputs, shards[..i]);
      TakeNext(shards, i);
      i := i + 1;
    }
    assert shards[..i] == shards;
    r := Percentage(nDeduplicated, nDuplicated);
  }
}
