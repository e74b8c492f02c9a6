/** Sequences as the program uses them: lists without repeats, and the
    insertion-ordered `defaultdict(list)` the program fills by appending one
    (key, value) pair at a time. Python dictionaries iterate in insertion
    order, so such a dictionary is a sequence of distinct keys (in the order
    each key was first seen) together with, per key, the values appended to it
    in order. */
module Seqs {

  /** A non-empty sequence is its front followed by its last element. */
  lemma SplitLast<T>(s: seq<T>)
    requires s != []
    ensures s[..|s| - 1] + [s[|s| - 1]] == s
  {
  }

  /** Dropping the element just appended gives back the sequence. */
  lemma DropLast<T>(s: seq<T>, x: T)
    ensures (s + [x])[..|s|] == s
  {
  }

  /** A slice of a suffix is a slice of the whole. */
  lemma SliceShift<T>(s: seq<T>, d: nat, lo: nat, hi: nat)
    requires d <= |s| && lo <= hi <= |s| - d
    ensures s[d..][lo..hi] == s[d + lo..d + hi]
  {
  }

  lemma Assoc<T>(a: seq<T>, b: seq<T>, c: seq<T>)
    ensures a + (b + c) == a + b + c
  {
  }

  /** Taking one more element appends it. */
  lemma TakeNext<T>(s: seq<T>, i: nat)
    requires i < |s|
    ensures s[..i + 1] == s[..i] + [s[i]]
  {
  }

  /** A (key, value) pair; both are strings everywhere in the program. */
  type Pair = (string, string)

  predicate NoDups(s: seq<string>) {
    forall i, j :: 0 <= i < j < |s| ==> s[i] != s[j]
  }

  function ToSet(s: seq<string>): set<string> {
    set x | x in s
  }

  /** Index of the first occurrence of `x` in `s`. */
  function FirstIndex(s: seq<string>, x: string): (i: nat)
    requires x in s
    ensures i < |s| && s[i] == x
    ensures forall j :: 0 <= j < i ==> s[j] != x
  {
    if x in s[..|s| - 1] then FirstIndex(s[..|s| - 1], x) else |s| - 1
  }

  /** The elements of `s`, each once, in the order of their first occurrence. */
  function Distinct(s: seq<string>): (r: seq<string>)
    ensures NoDups(r)
    ensures forall x :: x in r <==> x in s
    ensures |r| <= |s|
  {
    if s == [] then []
    else
      var d := Distinct(s[..|s| - 1]);
      if s[|s| - 1] in d then d else d + [s[|s| - 1]]
  }

  /** `Distinct` lists the elements in the order in which they are first seen. */
  lemma {:induction false} DistinctFirstSeenOrder(s: seq<string>)
    ensures forall i, j :: 0 <= i < j < |Distinct(s)| ==>
      FirstIndex(s, Distinct(s)[i]) < FirstIndex(s, Distinct(s)[j])
  {
    if s != [] {
      var p := s[..|s| - 1];
      DistinctFirstSeenOrder(p);
      var d := Distinct(p);
      forall x | x in p ensures FirstIndex(s, x) == FirstIndex(p, x) {
        FirstIndexPrefix(p, s[|s| - 1], x);
        assert p + [s[|s| - 1]] == s;
      }
    }
  }

  lemma {:induction false} FirstIndexPrefix(p: seq<string>, y: string, x: string)
    requires x in p
    ensures FirstIndex(p + [y], x) == FirstIndex(p, x)
  {
    assert (p + [y])[..|p|] == p;
  }

  /** A list without repeats has as many elements as its set. */
  lemma {:induction false} NoDupsCard(s: seq<string>)
    requires NoDups(s)
    ensures |ToSet(s)| == |s|
  {
    if s != [] {
      var p := s[..|s| - 1];
      NoDupsCard(p);
      assert ToSet(s) == ToSet(p) + {s[|s| - 1]};
      assert s[|s| - 1] !in ToSet(p);
    }
  }

  /** `Distinct` keeps exactly one element per distinct value of `s`. */
  lemma DistinctCount(s: seq<string>)
    ensures |Distinct(s)| == |ToSet(s)|
  {
    NoDupsCard(Distinct(s));
    assert ToSet(Distinct(s)) == ToSet(s);
  }

  /** On a list without repeats `Distinct` changes nothing. */
  lemma {:induction false} DistinctOfNoDups(s: seq<string>)
    requires NoDups(s)
    ensures Distinct(s) == s
  {
    if s != [] {
      var p := s[..|s| - 1];
      assert NoDups(p);
      DistinctOfNoDups(p);
      assert s[|s| - 1] !in p;
      assert p + [s[|s| - 1]] == s;
    }
  }

  function Flatten(ss: seq<seq<string>>): (r: seq<string>)
  {
    if ss == [] then [] else ss[0] + Flatten(ss[1..])
  }

  lemma {:induction false} FlattenSnoc(ss: seq<seq<string>>, s: seq<string>)
    ensures Flatten(ss + [s]) == Flatten(ss) + s
  {
    if ss != [] {
      assert (ss + [s])[1..] == ss[1..] + [s];
      FlattenSnoc(ss[1..], s);
    } else {
      assert [s][1..] == [];
    }
  }

  function FilterSeq(s: seq<string>, f: string -> bool): (r: seq<string>)
    ensures forall x :: x in r <==> x in s && f(x)
  {
    if s == [] then []
    else FilterSeq(s[..|s| - 1], f) + (if f(s[|s| - 1]) then [s[|s| - 1]] else [])
  }

  lemma {:induction false} FilterSeqNoDups(s: seq<string>, f: string -> bool)
    requires NoDups(s)
    ensures NoDups(FilterSeq(s, f))
  {
    if s != [] {
      var p := s[..|s| - 1];
      assert NoDups(p);
      FilterSeqNoDups(p, f);
      assert s[|s| - 1] !in p;
    }
  }

  // ---- (key, value) lists and the ordered dictionary built from them ----

  function KeysOf(ps: seq<Pair>): (ks: seq<string>)
    ensures |ks| == |ps|
    ensures forall i :: 0 <= i < |ps| ==> ks[i] == ps[i].0
  {
    if ps == [] then [] else KeysOf(ps[..|ps| - 1]) + [ps[|ps| - 1].0]
  }

  /** The values paired with key `k`, in order: what `d[k]` holds once every
      pair has been appended with `d[key].append(value)`. */
  function ValuesFor(ps: seq<Pair>, k: string): (vs: seq<string>)
    ensures |vs| <= |ps|
  {
    if ps == [] then []
    else
      ValuesFor(ps[..|ps| - 1], k) + (if ps[|ps| - 1].0 == k then [ps[|ps| - 1].1] else [])
  }

  /** A key has values exactly when some pair carries it. */
  lemma {:induction false} ValuesForNonEmpty(ps: seq<Pair>, k: string)
    ensures ValuesFor(ps, k) != [] <==> k in KeysOf(ps)
  {
    if ps != [] {
      var p := ps[..|ps| - 1];
      ValuesForNonEmpty(p, k);
      assert KeysOf(ps) == KeysOf(p) + [ps[|ps| - 1].0];
    }
  }

  /** `k` paired with every value of `vs`. */
  function Tag(k: string, vs: seq<string>): (ps: seq<Pair>)
    ensures |ps| == |vs|
    ensures forall i :: 0 <= i < |vs| ==> ps[i] == (k, vs[i])
  {
    if vs == [] then [] else Tag(k, vs[..|vs| - 1]) + [(k, vs[|vs| - 1])]
  }

  /** The pairs of `ps` visited key by key in the order `ks`: what a loop
      `for k in ks: for v in d[k]: emit (k, v)` produces. */
  function Regroup(ps: seq<Pair>, ks: seq<string>): seq<Pair>
  {
    if ks == [] then []
    else Regroup(ps, ks[..|ks| - 1]) + Tag(ks[|ks| - 1], ValuesFor(ps, ks[|ks| - 1]))
  }

  lemma RegroupNext(ps: seq<Pair>, ks: seq<string>, k: string)
    ensures Regroup(ps, ks + [k]) == Regroup(ps, ks) + Tag(k, ValuesFor(ps, k))
  {
    DropLast(ks, k);
  }

  function FilterKeys(ps: seq<Pair>, f: string -> bool): (r: seq<Pair>)
    ensures forall p :: p in r <==> p in ps && f(p.0)
  {
    if ps == [] then []
    else FilterKeys(ps[..|ps| - 1], f) + (if f(ps[|ps| - 1].0) then [ps[|ps| - 1]] else [])
  }

  lemma {:induction false} ValuesForAppend(a: seq<Pair>, b: seq<Pair>, k: string)
    ensures ValuesFor(a + b, k) == ValuesFor(a, k) + ValuesFor(b, k)
  {
    if b == [] {
      assert a + b == a;
    } else {
      var b', e := b[..|b| - 1], b[|b| - 1];
      var ab := a + b;
      assert ab[..|ab| - 1] == a + b' && ab[|ab| - 1] == e;
      var tail := if e.0 == k then [e.1] else [];
      assert ValuesFor(ab, k) == ValuesFor(a + b', k) + tail;
      assert ValuesFor(b, k) == ValuesFor(b', k) + tail;
      ValuesForAppend(a, b', k);
      Assoc(ValuesFor(a, k), ValuesFor(b', k), tail);
    }
  }

  lemma {:induction false} ValuesForTag(k: string, vs: seq<string>, k': string)
    ensures ValuesFor(Tag(k, vs), k') == if k == k' then vs else []
  {
    if vs != [] {
      var vs', v := vs[..|vs| - 1], vs[|vs| - 1];
      var t', t := Tag(k, vs'), Tag(k, vs);
      assert t == t' + [(k, v)];
      DropLast(t', (k, v));
      ValuesForTag(k, vs', k');
      assert ValuesFor(t, k') == ValuesFor(t', k') + (if k == k' then [v] else []);
      SplitLast(vs);
    }
  }

  lemma {:induction false} TagSnoc(k: string, vs: seq<string>, v: string)
    ensures Tag(k, vs + [v]) == Tag(k, vs) + [(k, v)]
  {
    assert (vs + [v])[..|vs|] == vs;
  }

  /** Visiting the keys `ks` (no repeats) gives, for each key, exactly its
      values in their original order. */
  lemma {:induction false} RegroupValues(ps: seq<Pair>, ks: seq<string>, k: string)
    requires NoDups(ks)
    ensures ValuesFor(Regroup(ps, ks), k) == if k in ks then ValuesFor(ps, k) else []
  {
    if ks != [] {
      var ks' := ks[..|ks| - 1];
      var last := ks[|ks| - 1];
      assert NoDups(ks');
      RegroupValues(ps, ks', k);
      ValuesForAppend(Regroup(ps, ks'), Tag(last, ValuesFor(ps, last)), k);
      ValuesForTag(last, ValuesFor(ps, last), k);
      assert k in ks <==> k in ks' || k == last;
      assert last !in ks';
    }
  }

  lemma {:induction false} RegroupEmpty(ps: seq<Pair>, ks: seq<string>)
    requires ps == []
    ensures Regroup(ps, ks) == []
  {
    if ks != [] {
      RegroupEmpty(ps, ks[..|ks| - 1]);
    }
  }

  lemma KeysOfSnoc(ps: seq<Pair>, e: Pair)
    ensures KeysOf(ps + [e]) == KeysOf(ps) + [e.0]
    ensures Distinct(KeysOf(ps + [e]))
         == if e.0 in KeysOf(ps) then Distinct(KeysOf(ps)) else Distinct(KeysOf(ps)) + [e.0]
  {
    assert (ps + [e])[..|ps|] == ps;
    assert (KeysOf(ps) + [e.0])[..|ps|] == KeysOf(ps);
  }

  lemma ValuesForSnoc(ps: seq<Pair>, e: Pair, k: string)
    ensures ValuesFor(ps + [e], k) == ValuesFor(ps, k) + (if e.0 == k then [e.1] else [])
  {
    assert (ps + [e])[..|ps|] == ps;
  }

  lemma TagValuesSnoc(ps: seq<Pair>, e: Pair, k: string)
    ensures multiset(Tag(k, ValuesFor(ps + [e], k)))
         == multiset(Tag(k, ValuesFor(ps, k))) + (if e.0 == k then multiset{e} else multiset{})
  {
    ValuesForSnoc(ps, e, k);
    var vs := ValuesFor(ps, k);
    if e.0 == k {
      TagSnoc(k, vs, e.1);
      assert (k, e.1) == e;
      assert Tag(k, ValuesFor(ps + [e], k)) == Tag(k, vs) + [e];
      assert multiset(Tag(k, vs) + [e]) == multiset(Tag(k, vs)) + multiset{e};
    } else {
      assert ValuesFor(ps + [e], k) == vs;
    }
  }

  lemma {:induction false} RegroupSnoc(ps: seq<Pair>, e: Pair, ks: seq<string>)
    requires NoDups(ks)
    ensures multiset(Regroup(ps + [e], ks))
         == multiset(Regroup(ps, ks)) + (if e.0 in ks then multiset{e} else multiset{})
  {
    if ks != [] {
      var ks' := ks[..|ks| - 1];
      var k := ks[|ks| - 1];
      assert NoDups(ks') && k !in ks';
      assert e.0 in ks <==> e.0 in ks' || e.0 == k;
      var a, b := Regroup(ps + [e], ks'), Tag(k, ValuesFor(ps + [e], k));
      var a', b' := Regroup(ps, ks'), Tag(k, ValuesFor(ps, k));
      assert Regroup(ps + [e], ks) == a + b;
      assert Regroup(ps, ks) == a' + b';
      assert multiset(a + b) == multiset(a) + multiset(b);
      assert multiset(a' + b') == multiset(a') + multiset(b');
      RegroupSnoc(ps, e, ks');
      TagValuesSnoc(ps, e, k);
    }
  }

  /** Visiting every key once (in any order) is a permutation of the pairs:
      nothing is dropped and nothing is duplicated. */
  lemma {:induction false} RegroupPermutation(ps: seq<Pair>, ks: seq<string>)
    requires NoDups(ks)
    requires forall i :: 0 <= i < |ps| ==> ps[i].0 in ks
    ensures multiset(Regroup(ps, ks)) == multiset(ps)
  {
    if ps == [] {
      RegroupEmpty(ps, ks);
    } else {
      var p, e := ps[..|ps| - 1], ps[|ps| - 1];
      assert forall i :: 0 <= i < |p| ==> p[i] == ps[i];
      RegroupPermutation(p, ks);
      assert e.0 in ks;
      RegroupSnoc(p, e, ks);
      SplitLast(ps);
      assert multiset(p + [e]) == multiset(p) + multiset{e};
    }
  }

  lemma {:induction false} ValuesForFilterKeys(ps: seq<Pair>, f: string -> bool, k: string)
    ensures ValuesFor(FilterKeys(ps, f), k) == if f(k) then ValuesFor(ps, k) else []
  {
    if ps != [] {
      var p := ps[..|ps| - 1];
      var e := ps[|ps| - 1];
      var fp := FilterKeys(p, f);
      ValuesForFilterKeys(p, f, k);
      assert ValuesFor(ps, k) == ValuesFor(p, k) + (if e.0 == k then [e.1] else []);
      if f(e.0) {
        assert FilterKeys(ps, f) == fp + [e];
        ValuesForSnoc(fp, e, k);
      } else {
        assert FilterKeys(ps, f) == fp;
      }
    }
  }

  /** Visiting only keys that satisfy `f` sees nothing of the other pairs. */
  lemma {:induction false} RegroupFilterKeys(ps: seq<Pair>, f: string -> bool, ks: seq<string>)
    requires forall k :: k in ks ==> f(k)
    ensures Regroup(ps, ks) == Regroup(FilterKeys(ps, f), ks)
  {
    if ks != [] {
      RegroupFilterKeys(ps, f, ks[..|ks| - 1]);
      ValuesForFilterKeys(ps, f, ks[|ks| - 1]);
    }
  }

  /** The first value for a key is the value of the key's first pair. */
  lemma {:induction false} ValuesForHead(ps: seq<Pair>, k: string)
    requires k in KeysOf(ps)
    ensures ValuesFor(ps, k) != [] && ValuesFor(ps, k)[0] == ps[FirstIndex(KeysOf(ps), k)].1
  {
    ValuesForNonEmpty(ps, k);
    var p := ps[..|ps| - 1];
    assert KeysOf(ps)[..|ps| - 1] == KeysOf(p);
    ValuesForNonEmpty(p, k);
    if k in KeysOf(p) {
      ValuesForHead(p, k);
    }
  }

  /** Appending a pair adds its key to the distinct keys when it is new. */
  lemma GroupKeysSnoc(ps: seq<Pair>, e: Pair, keys: seq<string>)
    requires keys == Distinct(KeysOf(ps))
    ensures Distinct(KeysOf(ps + [e])) == if e.0 in keys then keys else keys + [e.0]
  {
    KeysOfSnoc(ps, e);
  }

  /** One `d[k].append(v)` step keeps every entry equal to the values of its
      key, and every key without an entry without values. */
  lemma GroupValuesSnoc(p: seq<Pair>, e: Pair, groups: map<string, seq<string>>, g: seq<string>)
    requires forall k :: k in groups ==> groups[k] == ValuesFor(p, k) && groups[k] != []
    requires forall k :: k !in groups ==> ValuesFor(p, k) == []
    requires g == if e.0 in groups then groups[e.0] + [e.1] else [e.1]
    ensures forall k :: k in groups[e.0 := g] ==> groups[e.0 := g][k] == ValuesFor(p + [e], k) && groups[e.0 := g][k] != []
    ensures forall k :: k !in groups[e.0 := g] ==> ValuesFor(p + [e], k) == []
  {
    var groups' := groups[e.0 := g];
    forall k | k in groups' ensures groups'[k] == ValuesFor(p + [e], k) {
      ValuesForSnoc(p, e, k);
      if k != e.0 {
        assert groups'[k] == groups[k];
      }
    }
    forall k | k !in groups' ensures ValuesFor(p + [e], k) == [] {
      ValuesForSnoc(p, e, k);
    }
  }

  /** One iteration of the loop below, on the iteration order: the key of
      the next pair enters it when the dictionary has no entry for it. */
  lemma GroupKeysStep(p: seq<Pair>, e: Pair, keys: seq<string>, groups: map<string, seq<string>>, keys': seq<string>)
    requires keys == Distinct(KeysOf(p))
    requires e.0 in groups <==> ValuesFor(p, e.0) != []
    requires keys' == if e.0 in groups then keys else keys + [e.0]
    ensures keys' == Distinct(KeysOf(p + [e]))
  {
    ValuesForNonEmpty(p, e.0);
    GroupKeysSnoc(p, e, keys);
  }

  /** One iteration of the loop below: `d[k].append(v)` for the next pair. */
  method GroupAdd(ghost done: seq<Pair>, e: Pair, keys: seq<string>, groups: map<string, seq<string>>)
    returns (keys': seq<string>, groups': map<string, seq<string>>)
    requires keys == Distinct(KeysOf(done))
    requires forall k :: k in groups ==> groups[k] == ValuesFor(done, k) && groups[k] != []
    requires forall k :: k !in groups ==> ValuesFor(done, k) == []
    ensures keys' == Distinct(KeysOf(done + [e]))
    ensures forall k :: k in groups' ==> groups'[k] == ValuesFor(done + [e], k) && groups'[k] != []
    ensures forall k :: k !in groups' ==> ValuesFor(done + [e], k) == []
  {
    var g: seq<string>;
    if e.0 in groups {
      g, keys' := groups[e.0] + [e.1], keys;
    } else {
      g, keys' := [e.1], keys + [e.0];
    }
    GroupKeysStep(done, e, keys, groups, keys');
    GroupValuesSnoc(done, e, groups, g);
    groups' := groups[e.0 := g];
  }

  /** Once every pair is in, the dictionary's keys are exactly the distinct keys. */
  lemma GroupDomain(ps: seq<Pair>, keys: seq<string>, groups: map<string, seq<string>>)
    requires keys == Distinct(KeysOf(ps))
    requires forall k :: k in groups ==> groups[k] == ValuesFor(ps, k) && groups[k] != []
    requires forall k :: k !in groups ==> ValuesFor(ps, k) == []
    ensures forall k :: k in groups <==> k in keys
  {
    forall k ensures k in groups <==> k in keys {
      ValuesForNonEmpty(ps, k);
      assert k in groups <==> ValuesFor(ps, k) != [];
    }
  }

  /** The loop that fills a `defaultdict(list)`: for each (key, value) pair in
      order, `d[key].append(value)`. `keys` is the dictionary's iteration
      order. */
  method GroupInOrder(ps: seq<Pair>) returns (keys: seq<string>, groups: map<string, seq<string>>)
    ensures keys == Distinct(KeysOf(ps))
    ensures forall k :: k in groups <==> k in keys
    ensures forall k :: k in groups ==> groups[k] == ValuesFor(ps, k) && groups[k] != []
  {
    keys, groups := [], map[];
    var i := 0;
    ghost var done: seq<Pair> := [];
    while i < |ps|
      invariant 0 <= i <= |ps| && done == ps[..i]
      invariant keys == Distinct(KeysOf(done))
      invariant forall k :: k in groups ==> groups[k] == ValuesFor(done, k) && groups[k] != []
      invariant forall k :: k !in groups ==> ValuesFor(done, k) == []
    {
      var e := ps[i];
      keys, groups := GroupAdd(done, e, keys, groups);
      TakeNext(ps, i);
      done := done + [e];
      i := i + 1;
    }
    assert done == ps;
    GroupDomain(ps, keys, groups);
  }
}
