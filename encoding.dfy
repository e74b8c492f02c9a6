/** The normaliser and the encoder of text_dedup/encoder.py: a line is keyed
    by the digest of the UTF-8 bytes of its normal form, and the original line
    travels with its key. */
module Encoding {
  import opened Results
  import opened Text

  /** A normaliser deletes every character outside a character class. The
      program compiles the class from a regex pattern into `[^pattern]`; here
      the class is given as the predicate `allowed`. */
  datatype Normalizer = Normalizer(allowed: char -> bool)

  /** The default class `0-9가-힣ㄱ-ㅎㅏ-ㅣa-zA-Z`: digits, Hangul syllables,
      Hangul consonant and vowel letters, and ASCII letters. */
  predicate DefaultAllowed(c: char) {
    || '0' <= c <= '9'
    || '\U{AC00}' <= c <= '\U{D7A3}'   // 가-힣
    || '\U{3131}' <= c <= '\U{314E}'   // ㄱ-ㅎ
    || '\U{314F}' <= c <= '\U{3163}'   // ㅏ-ㅣ
    || 'a' <= c <= 'z'
    || 'A' <= c <= 'Z'
  }

  function DefaultNormalizer(): Normalizer {
    Normalizer(DefaultAllowed)
  }

  /** `Normalizer.__call__`: `pattern.sub("", line)` with the negated class,
      so every disallowed character is removed and the rest kept in order. */
  function Normalize(n: Normalizer, line: string): (r: string)
    ensures |r| <= |line|
    ensures forall i :: 0 <= i < |r| ==> n.allowed(r[i])
  {
    if line == [] then []
    else (if n.allowed(line[0]) then [line[0]] else []) + Normalize(n, line[1..])
  }

  /** Normalising keeps every occurrence of every allowed character. */
  lemma {:induction false} NormalizeKeepsAllowed(n: Normalizer, line: string)
    ensures forall c :: n.allowed(c) ==> multiset(Normalize(n, line))[c] == multiset(line)[c]
  {
    if line != [] {
      NormalizeKeepsAllowed(n, line[1..]);
      assert line == [line[0]] + line[1..];
      assert multiset(line) == multiset{line[0]} + multiset(line[1..]);
    }
  }

  /** `a` can be obtained from `b` by deleting characters. */
  predicate IsSubsequence(a: string, b: string)
    decreases |b|
  {
    a == [] || (b != [] && ((a[0] == b[0] && IsSubsequence(a[1..], b[1..])) || IsSubsequence(a, b[1..])))
  }

  /** The normal form is the allowed characters of the line in their order:
      a subsequence of the line that (by the contract of Normalize and by
      NormalizeKeepsAllowed) holds only allowed characters and every
      occurrence of each of them. */
  lemma {:induction false} NormalizeIsSubsequence(n: Normalizer, line: string)
    ensures IsSubsequence(Normalize(n, line), line)
  {
    if line != [] {
      var rest := Normalize(n, line[1..]);
      NormalizeIsSubsequence(n, line[1..]);
      if n.allowed(line[0]) {
        assert ([line[0]] + rest)[1..] == rest;
      } else {
        assert Normalize(n, line) == rest;
      }
    }
  }

  lemma {:induction false} NormalizeAppend(n: Normalizer, a: string, b: string)
    ensures Normalize(n, a + b) == Normalize(n, a) + Normalize(n, b)
  {
    if a != [] {
      assert (a + b)[0] == a[0] && (a + b)[1..] == a[1..] + b;
      NormalizeAppend(n, a[1..], b);
    } else {
      assert a + b == b;
    }
  }

  /** A line made only of allowed characters is its own normal form, and
      only such a line is. */
  lemma {:induction false} NormalizeUnchanged(n: Normalizer, line: string)
    ensures Normalize(n, line) == line <==> forall i :: 0 <= i < |line| ==> n.allowed(line[i])
  {
    if line != [] {
      NormalizeUnchanged(n, line[1..]);
      if !n.allowed(line[0]) {
        assert |Normalize(n, line)| < |line|;
      }
    }
  }

  lemma NormalizeIdempotent(n: Normalizer, line: string)
    ensures Normalize(n, Normalize(n, line)) == Normalize(n, line)
  {
    NormalizeUnchanged(n, Normalize(n, line));
  }

  // ---- Encoder ----

  /** The `hash_func_type` argument: a callable, or a name. A callable must map
      bytes to a hex digest (the program calls `.hexdigest()` on its result;
      the two steps are one function here). */
  datatype HashFuncType = Callable(fn: seq<byte> -> string) | Named(name: string)

  datatype Encoder = Encoder(hash: seq<byte> -> string, normalizer: Normalizer)

  /** `Encoder.__init__`. `sha1` stands for `hashlib.sha1(...).hexdigest()`,
      whose internals are not modelled. Anything but a callable or the name
      "sha1" is refused when the encoder is built, before any line is seen. */
  function NewEncoder(hashFuncType: HashFuncType, normalizer: Normalizer, sha1: seq<byte> -> string)
    : (r: Result<Encoder, Error>)
    ensures r.Success? <==> hashFuncType.Callable? || hashFuncType.name == "sha1"
    ensures r.Failure? ==> r.error == UnsupportedHashType
    ensures r.Success? ==> r.value.normalizer == normalizer
    ensures r.Success? && hashFuncType.Callable? ==> r.value.hash == hashFuncType.fn
    ensures r.Success? && hashFuncType.Named? ==> r.value.hash == sha1
  {
    match hashFuncType
    case Callable(f) => Success(Encoder(f, normalizer))
    case Named(name) => if name == "sha1" then Success(Encoder(sha1, normalizer)) else Failure(UnsupportedHashType)
  }

  /** `Encoder.encode`: the line, unchanged, with the digest of the UTF-8
      bytes of its normal form. */
  function Encode(e: Encoder, line: string): (r: (string, string))
    ensures r.0 == line
  {
    (line, e.hash(Utf8Encode(Normalize(e.normalizer, line))))
  }

  /** Inserting a disallowed character anywhere does not change a line's code. */
  lemma EncodeIgnoresDisallowed(e: Encoder, x: string, c: char, y: string)
    requires !e.normalizer.allowed(c)
    ensures Encode(e, x + [c] + y).1 == Encode(e, x + y).1
  {
    var n := e.normalizer;
    NormalizeAppend(n, x + [c], y);
    NormalizeAppend(n, x, [c]);
    NormalizeAppend(n, x, y);
    assert [c][1..] == [];
    assert Normalize(n, [c]) == [];
    assert Normalize(n, x + [c] + y) == Normalize(n, x + y);
  }

  ghost predicate Injective(h: seq<byte> -> string) {
    forall a, b :: h(a) == h(b) ==> a == b
  }

  /** With a collision-free digest, two lines share a code exactly when their
      normal forms are equal. */
  lemma SameCodeIffSameNormalForm(e: Encoder, a: string, b: string)
    requires Injective(e.hash)
    ensures Encode(e, a).1 == Encode(e, b).1 <==> Normalize(e.normalizer, a) == Normalize(e.normalizer, b)
  {
    if Encode(e, a).1 == Encode(e, b).1 {
      Utf8Injective(Normalize(e.normalizer, a), Normalize(e.normalizer, b));
    }
  }

  /** `Encoder.encode_batch`: the process pool's `imap` over the lines, which
      pairs every line with its own code in input order. */
  function EncodeBatch(e: Encoder, lines: seq<string>): (r: seq<(string, string)>)
    ensures |r| == |lines|
    ensures forall i :: 0 <= i < |lines| ==> r[i] == Encode(e, lines[i])
  {
    seq(|lines|, i requires 0 <= i < |lines| => Encode(e, lines[i]))
  }
}
