/** Text as the program handles it: Python's `str.strip()`, UTF-8 encoding
    (`str.encode("utf-8")`), and Python's ordering of strings, which `sorted`
    uses. Dafny's `char` is a Unicode scalar value, as a Python code point of
    well-formed text is. */
module Text {
  import opened Results

  newtype byte = x: int | 0 <= x < 256

  // ---- str.strip() ----

  /** The characters for which Python's `str.isspace()` holds; `strip()` with
      no argument removes exactly these from both ends. */
  predicate IsSpace(c: char) {
    || '\t' <= c <= '\r'                      // \t \n \v \f \r
    || '\U{1C}' <= c <= '\U{1F}'              // file, group, record, unit separators
    || c == ' ' || c == '\U{85}' || c == '\U{A0}' || c == '\U{1680}'
    || '\U{2000}' <= c <= '\U{200A}'
    || c == '\U{2028}' || c == '\U{2029}' || c == '\U{202F}' || c == '\U{205F}'
    || c == '\U{3000}'
  }

  function StripLeft(s: string): (r: string)
    ensures |r| <= |s| && r == s[|s| - |r|..]
    ensures forall i :: 0 <= i < |s| - |r| ==> IsSpace(s[i])
    ensures r != [] ==> !IsSpace(r[0])
  {
    if s != [] && IsSpace(s[0]) then StripLeft(s[1..]) else s
  }

  function StripRight(s: string): (r: string)
    ensures |r| <= |s| && r == s[..|r|]
    ensures forall i :: |r| <= i < |s| ==> IsSpace(s[i])
    ensures r != [] ==> !IsSpace(r[|r| - 1])
  {
    if s != [] && IsSpace(s[|s| - 1]) then StripRight(s[..|s| - 1]) else s
  }

  /** How many leading whitespace characters `strip()` removes. */
  function StripStart(s: string): (n: nat)
    ensures n <= |s|
  {
    |s| - |StripLeft(s)|
  }

  /** `s.strip()`. */
  function Strip(s: string): string {
    StripRight(StripLeft(s))
  }

  /** `s.strip()` is the infix of `s` left once leading and trailing
      whitespace is removed: everything cut off is whitespace, the result
      neither starts nor ends with whitespace, and it is empty exactly when
      `s` is all whitespace. */
  lemma StripSpec(s: string)
    ensures StripStart(s) + |Strip(s)| <= |s|
    ensures Strip(s) == s[StripStart(s)..StripStart(s) + |Strip(s)|]
    ensures forall j :: 0 <= j < StripStart(s) ==> IsSpace(s[j])
    ensures forall j :: StripStart(s) + |Strip(s)| <= j < |s| ==> IsSpace(s[j])
    ensures Strip(s) != [] ==> !IsSpace(Strip(s)[0]) && !IsSpace(Strip(s)[|Strip(s)| - 1])
    ensures Strip(s) == [] <==> forall j :: 0 <= j < |s| ==> IsSpace(s[j])
  {
    StripSlice(s);
    StripEnds(s);
    StripBlank(s);
  }

  lemma StripSlice(s: string)
    ensures StripStart(s) + |Strip(s)| <= |s|
    ensures Strip(s) == s[StripStart(s)..StripStart(s) + |Strip(s)|]
    ensures forall j :: StripStart(s) + |Strip(s)| <= j < |s| ==> IsSpace(s[j])
  {
    var l := StripLeft(s);
    var i := |s| - |l|;
    var r := StripRight(l);
    SliceOfSlice(s, i, |r|);
    forall j | i + |r| <= j < |s| ensures IsSpace(s[j]) {
      assert s[j] == l[j - i];
    }
  }

  lemma StripEnds(s: string)
    ensures Strip(s) != [] ==> !IsSpace(Strip(s)[0]) && !IsSpace(Strip(s)[|Strip(s)| - 1])
  {
    var l := StripLeft(s);
    var r := StripRight(l);
    if r != [] {
      assert r[0] == l[0];
    }
  }

  lemma SliceOfSlice<T>(s: seq<T>, i: nat, k: nat)
    requires i + k <= |s|
    ensures s[i..][..k] == s[i..i + k]
  {
  }

  lemma StripBlank(s: string)
    ensures Strip(s) == [] <==> forall j :: 0 <= j < |s| ==> IsSpace(s[j])
  {
    var l := StripLeft(s);
    if StripRight(l) == [] {
      assert l == [];
    }
  }

  lemma StripIdempotent(s: string)
    ensures Strip(Strip(s)) == Strip(s)
  {
    var r := Strip(s);
    StripSpec(s);
    if r != [] {
      assert StripLeft(r) == r;
      assert StripRight(r) == r;
    }
  }

  /** A string with a non-blank first and last character is its own strip. */
  lemma StripUnchanged(s: string)
    requires s != [] && !IsSpace(s[0]) && !IsSpace(s[|s| - 1])
    ensures Strip(s) == s
  {
  }

  // ---- UTF-8 ----

  /** The number of bytes UTF-8 uses for `c`. */
  function CharSize(c: char): nat {
    if c < '\U{80}' then 1
    else if c < '\U{800}' then 2
    else if c < '\U{10000}' then 3
    else 4
  }

  /** The byte length of `s.encode("utf-8")`. */
  function Utf8Size(s: string): nat {
    if s == [] then 0 else CharSize(s[0]) + Utf8Size(s[1..])
  }

  lemma {:induction false} Utf8SizeAppend(a: string, b: string)
    ensures Utf8Size(a + b) == Utf8Size(a) + Utf8Size(b)
  {
    if a != [] {
      assert (a + b)[1..] == a[1..] + b;
      Utf8SizeAppend(a[1..], b);
    } else {
      assert a + b == b;
    }
  }

  predicate IsContinuation(b: byte) {
    0x80 <= b < 0xC0
  }

  function CharBytes(c: char): (r: seq<byte>)
    ensures |r| == CharSize(c)
  {
    var n := c as int;
    if n < 0x80 then [n as byte]
    else if n < 0x800 then [(0xC0 + n / 64) as byte, (0x80 + n % 64) as byte]
    else if n < 0x10000 then
      [(0xE0 + n / 4096) as byte, (0x80 + (n / 64) % 64) as byte, (0x80 + n % 64) as byte]
    else
      [(0xF0 + n / 262144) as byte, (0x80 + (n / 4096) % 64) as byte,
       (0x80 + (n / 64) % 64) as byte, (0x80 + n % 64) as byte]
  }

  /** `s.encode("utf-8")`. */
  function Utf8Encode(s: string): (r: seq<byte>)
    ensures |r| == Utf8Size(s)
  {
    if s == [] then [] else CharBytes(s[0]) + Utf8Encode(s[1..])
  }

  predicate IsScalar(n: int) {
    0 <= n < 0xD800 || 0xE000 <= n < 0x11_0000
  }

  /** Decodes one UTF-8 sequence at the front of `b`: the character and the
      number of bytes it took, or None if the front is not well-formed
      (a bad lead or continuation byte, an overlong form, a surrogate, or a
      value beyond U+10FFFF). */
  function DecodeChar(b: seq<byte>): (r: Option<(char, nat)>)
    requires b != []
    ensures r.Some? ==> 1 <= r.value.1 <= |b|
  {
    var b0 := b[0] as int;
    if b0 < 0x80 then Some((b0 as char, 1))
    else if 0xC0 <= b0 < 0xE0 && |b| >= 2 && IsContinuation(b[1]) then
      var n := (b0 - 0xC0) * 64 + (b[1] as int - 0x80);
      if 0x80 <= n then Some((n as char, 2)) else None
    else if 0xE0 <= b0 < 0xF0 && |b| >= 3 && IsContinuation(b[1]) && IsContinuation(b[2]) then
      var n := (b0 - 0xE0) * 4096 + (b[1] as int - 0x80) * 64 + (b[2] as int - 0x80);
      if 0x800 <= n && IsScalar(n) then Some((n as char, 3)) else None
    else if 0xF0 <= b0 < 0xF8 && |b| >= 4 && IsContinuation(b[1]) && IsContinuation(b[2])
      && IsContinuation(b[3]) then
      var n := (b0 - 0xF0) * 262144 + (b[1] as int - 0x80) * 4096
        + (b[2] as int - 0x80) * 64 + (b[3] as int - 0x80);
      if 0x1_0000 <= n < 0x11_0000 then Some((n as char, 4)) else None
    else None
  }

  /** `b.decode("utf-8")`, None where Python raises `UnicodeDecodeError`. */
  function Utf8Decode(b: seq<byte>): (r: Option<string>)
    decreases |b|
  {
    if b == [] then Some([])
    else
      match DecodeChar(b)
      case None => None
      case Some((c, k)) =>
        match Utf8Decode(b[k..])
        case None => None
        case Some(rest) => Some([c] + rest)
  }

  lemma DecodeCharBytes(c: char, rest: seq<byte>)
    ensures DecodeChar(CharBytes(c) + rest) == Some((c, CharSize(c)))
  {
    var n := c as int;
    if n < 0x80 {
      assert (CharBytes(c) + rest)[0] == n as byte;
    } else if n < 0x800 {
      DecodeTwo(c, rest);
    } else if n < 0x10000 {
      DecodeThree(c, rest);
    } else {
      DecodeFour(c, rest);
    }
  }

  lemma DecodeTwo(c: char, rest: seq<byte>)
    requires 0x80 <= c as int < 0x800
    ensures DecodeChar(CharBytes(c) + rest) == Some((c, 2))
  {
    var n := c as int;
    var b := CharBytes(c) + rest;
    assert b[0] as int == 0xC0 + n / 64 && b[1] as int == 0x80 + n % 64;
    assert (n / 64) * 64 + n % 64 == n;
  }

  lemma DecodeThree(c: char, rest: seq<byte>)
    requires 0x800 <= c as int < 0x10000
    ensures DecodeChar(CharBytes(c) + rest) == Some((c, 3))
  {
    var n := c as int;
    var b := CharBytes(c) + rest;
    assert b[0] as int == 0xE0 + n / 4096 && b[1] as int == 0x80 + (n / 64) % 64 && b[2] as int == 0x80 + n % 64;
    Digits3(n);
  }

  lemma DecodeFour(c: char, rest: seq<byte>)
    requires 0x10000 <= c as int
    ensures DecodeChar(CharBytes(c) + rest) == Some((c, 4))
  {
    var n := c as int;
    var b := CharBytes(c) + rest;
    assert b[0] as int == 0xF0 + n / 262144 && b[1] as int == 0x80 + (n / 4096) % 64;
    assert b[2] as int == 0x80 + (n / 64) % 64 && b[3] as int == 0x80 + n % 64;
    Digits4(n);
  }

  lemma Digits3(n: int)
    requires 0 <= n
    ensures (n / 4096) * 4096 + ((n / 64) % 64) * 64 + n % 64 == n
  {
    var q := n / 64;
    assert q / 64 == n / 4096;
    assert q * 64 + n % 64 == n;
    assert (q / 64) * 64 + q % 64 == q;
  }

  lemma Digits4(n: int)
    requires 0 <= n
    ensures (n / 262144) * 262144 + ((n / 4096) % 64) * 4096 + ((n / 64) % 64) * 64 + n % 64 == n
  {
    var q := n / 4096;
    Digits3(n);
    assert q / 64 == n / 262144;
    assert (q / 64) * 64 + q % 64 == q;
  }

  /** Decoding undoes encoding. */
  lemma {:induction false} Utf8RoundTrip(s: string)
    ensures Utf8Decode(Utf8Encode(s)) == Some(s)
  {
    if s != [] {
      var b := Utf8Encode(s);
      DecodeCharBytes(s[0], Utf8Encode(s[1..]));
      assert b[CharSize(s[0])..] == Utf8Encode(s[1..]);
      Utf8RoundTrip(s[1..]);
      assert [s[0]] + s[1..] == s;
    }
  }

  /** Distinct strings have distinct encodings. */
  lemma Utf8Injective(a: string, b: string)
    requires Utf8Encode(a) == Utf8Encode(b)
    ensures a == b
  {
    Utf8RoundTrip(a);
    Utf8RoundTrip(b);
  }

  // ---- Python's ordering of strings ----

  /** `a <= b` on Python strings: lexicographic by code point, a proper
      prefix coming first. */
  predicate LexLe(a: string, b: string) {
    a == [] || (b != [] && (a[0] < b[0] || (a[0] == b[0] && LexLe(a[1..], b[1..]))))
  }

  lemma {:induction false} LexLeTotal(a: string, b: string)
    ensures LexLe(a, b) || LexLe(b, a)
  {
    if a != [] && b != [] && a[0] == b[0] {
      LexLeTotal(a[1..], b[1..]);
    }
  }

  lemma {:induction false} LexLeTransitive(a: string, b: string, c: string)
    requires LexLe(a, b) && LexLe(b, c)
    ensures LexLe(a, c)
  {
    if a != [] && a[0] == b[0] && b[0] == c[0] {
      LexLeTransitive(a[1..], b[1..], c[1..]);
    }
  }

  lemma {:induction false} LexLeAntisymmetric(a: string, b: string)
    requires LexLe(a, b) && LexLe(b, a)
    ensures a == b
  {
    if a != [] {
      LexLeAntisymmetric(a[1..], b[1..]);
      assert a == [a[0]] + a[1..] && b == [b[0]] + b[1..];
    }
  }

  predicate Ascending(s: seq<string>) {
    forall i, j :: 0 <= i < j < |s| ==> LexLe(s[i], s[j])
  }

  function Insert(x: string, s: seq<string>): (r: seq<string>)
    requires Ascending(s)
    ensures Ascending(r)
    ensures multiset(r) == multiset(s) + multiset{x}
  {
    if s == [] then [x]
    else if LexLe(x, s[0]) then
      assert forall j :: 0 <= j < |s| ==> LexLe(x, s[j]) by {
        forall j | 0 <= j < |s| ensures LexLe(x, s[j]) {
          if j > 0 { LexLeTransitive(x, s[0], s[j]); }
        }
      }
      [x] + s
    else
      var t := Insert(x, s[1..]);
      InsertBehind(x, s, t);
      [s[0]] + t
  }

  /** Putting the head of `s` in front of `x` inserted into the tail. */
  lemma InsertBehind(x: string, s: seq<string>, t: seq<string>)
    requires s != [] && Ascending(s) && !LexLe(x, s[0])
    requires Ascending(t) && multiset(t) == multiset(s[1..]) + multiset{x}
    ensures Ascending([s[0]] + t)
    ensures multiset([s[0]] + t) == multiset(s) + multiset{x}
  {
    HeadBelowRest(x, s, t);
    assert s == [s[0]] + s[1..];
    var r := [s[0]] + t;
    forall i, j | 0 <= i < j < |r| ensures LexLe(r[i], r[j]) {
      if i > 0 {
        assert r[i] == t[i - 1] && r[j] == t[j - 1];
      } else {
        assert r[j] == t[j - 1];
      }
    }
  }

  /** The head of an ascending list is below everything else in it, and
      below a string it is not above. */
  lemma HeadBelowRest(x: string, s: seq<string>, t: seq<string>)
    requires s != [] && Ascending(s) && !LexLe(x, s[0])
    requires multiset(t) == multiset(s[1..]) + multiset{x}
    ensures forall j :: 0 <= j < |t| ==> LexLe(s[0], t[j])
  {
    LexLeTotal(x, s[0]);
    forall j | 0 <= j < |t| ensures LexLe(s[0], t[j]) {
      assert t[j] in multiset(t);
      if t[j] != x {
        assert t[j] in multiset(s[1..]);
        var k :| 0 <= k < |s[1..]| && s[1..][k] == t[j];
        assert s[k + 1] == t[j];
      }
    }
  }


  /** `sorted(s)` for a list of strings: ascending, and a permutation. */
  function Sorted(s: seq<string>): (r: seq<string>)
    ensures Ascending(r)
    ensures multiset(r) == multiset(s)
  {
    if s == [] then []
    else
      assert s == [s[0]] + s[1..];
      Insert(s[0], Sorted(s[1..]))
  }
}
