/** JavaScript strings, as the codecs of this repository see them: sequences of
    16-bit code units that may contain unpaired surrogates. */
module JsText {
  type CodeUnit = c: int | 0 <= c <= 0xFFFF
  type Text = seq<CodeUnit>

  datatype Option<+T> = None | Some(value: T)

  const REPLACEMENT: CodeUnit := 0xFFFD

  predicate IsHigh(c: int) { 0xD800 <= c <= 0xDBFF }

  predicate IsLow(c: int) { 0xDC00 <= c <= 0xDFFF }

  /** A Unicode scalar value: any code point that is not a surrogate. */
  predicate IsScalar(c: int) { 0 <= c <= 0x10FFFF && !(0xD800 <= c <= 0xDFFF) }

  /** A "binary string": every code unit stands for one byte. */
  ghost predicate IsBytes(s: Text) { forall i | 0 <= i < |s| :: s[i] <= 0xFF }

  /** True if `s` starts with a surrogate pair. */
  predicate StartsWithPair(s: Text) { |s| >= 2 && IsHigh(s[0]) && IsLow(s[1]) }

  /** The code point of a surrogate pair. */
  function PairValue(high: int, low: int): (c: int)
    requires IsHigh(high) && IsLow(low)
    ensures 0x10000 <= c <= 0x10FFFF
  {
    0x10000 + (high - 0xD800) * 0x400 + (low - 0xDC00)
  }

  /** The UTF-16 form of a code point. */
  function Utf16(c: int): (s: Text)
    requires 0 <= c <= 0x10FFFF
  {
    if c < 0x10000 then [c]
    else [0xD800 + (c - 0x10000) / 0x400, 0xDC00 + (c - 0x10000) % 0x400]
  }

  /** Well-formed UTF-16: every surrogate belongs to a pair. */
  predicate WellFormed(s: Text) {
    s == [] ||
    (if StartsWithPair(s) then WellFormed(s[2..])
     else !IsHigh(s[0]) && !IsLow(s[0]) && WellFormed(s[1..]))
  }

  /** The text with every unpaired surrogate replaced by U+FFFD. */
  function Repaired(s: Text): (r: Text) {
    if s == [] then []
    else if StartsWithPair(s) then s[..2] + Repaired(s[2..])
    else [if IsHigh(s[0]) || IsLow(s[0]) then REPLACEMENT else s[0]] + Repaired(s[1..])
  }

  /** Repairing does nothing exactly on well-formed text, and always yields well-formed text. */
  lemma {:induction false} RepairedIsWellFormed(s: Text)
    ensures WellFormed(Repaired(s))
    ensures Repaired(s) == s <==> WellFormed(s)
  {
    if s == [] {
    } else if StartsWithPair(s) {
      RepairedIsWellFormed(s[2..]);
      assert Repaired(s)[2..] == Repaired(s[2..]);
      assert s == s[..2] + s[2..];
    } else {
      RepairedIsWellFormed(s[1..]);
      assert Repaired(s)[1..] == Repaired(s[1..]);
      assert s == [s[0]] + s[1..];
    }
  }

  /** Prepending the UTF-16 form of one scalar value keeps text well-formed. */
  lemma WellFormedCons(c: int, s: Text)
    requires IsScalar(c) && WellFormed(s)
    ensures WellFormed(Utf16(c) + s)
  {
    var t := Utf16(c) + s;
    assert t[|Utf16(c)|..] == s;
  }

  // ----- searching

  /** The first position from `i` on that holds `c`, or the end. */
  function Find(str: Text, i: nat, c: CodeUnit): (j: nat)
    requires i <= |str|
    ensures i <= j <= |str|
    decreases |str| - i
  {
    if i == |str| || str[i] == c then i else Find(str, i + 1, c)
  }

  lemma {:induction false} FindSkips(str: Text, i: nat, j: nat, c: CodeUnit)
    requires i <= j <= |str| && (forall k | i <= k < j :: str[k] != c)
    ensures Find(str, i, c) == Find(str, j, c)
    decreases j - i
  {
    if i < j {
      FindSkips(str, i + 1, j, c);
    }
  }

  lemma FindStops(str: Text, i: nat, c: CodeUnit)
    requires i <= |str| && (i == |str| || str[i] == c)
    ensures Find(str, i, c) == i
  {
  }

  lemma {:induction false} FindAvoids(str: Text, i: nat, c: CodeUnit)
    requires i <= |str|
    ensures c !in str[i..Find(str, i, c)]
    decreases |str| - i
  {
    if i < |str| && str[i] != c {
      FindAvoids(str, i + 1, c);
      assert str[i..Find(str, i, c)] == [str[i]] + str[i + 1..Find(str, i + 1, c)];
    }
  }

  /** Where the two parts of a text lie in a longer one. */
  lemma PartsLie(str: Text, j: nat, a: Text, b: Text)
    requires j <= |str| && str[j..] == a + b
    ensures |str| == j + |a| + |b| && str[j..j + |a|] == a && str[j + |a|..] == b
    ensures forall k | j <= k < j + |a| :: str[k] == a[k - j]
    ensures forall k | j + |a| <= k < |str| :: str[k] == b[k - j - |a|]
  {
    var e := j + |a|;
    assert |str| == e + |b|;
    assert str[e..] == str[j..][|a|..];
    assert str[j..e] == str[j..][..|a|];
    assert forall k | j <= k < |str| :: str[k] == str[j..][k - j];
  }

  /** A text without `c` ends where `c` begins the next one. */
  lemma FindPart(str: Text, j: nat, a: Text, b: Text, c: CodeUnit)
    requires j <= |str| && str[j..] == a + b && c !in a && (b == [] || b[0] == c)
    ensures |str| == j + |a| + |b| && str[j..j + |a|] == a && str[j + |a|..] == b
    ensures Find(str, j, c) == j + |a|
  {
    hide Find;
    PartsLie(str, j, a, b);
    FindSkips(str, j, j + |a|, c);
    FindStops(str, j + |a|, c);
  }

  // ----- sequences

  lemma ConsIsSame<T>(x: T, xs: seq<T>, ys: seq<T>)
    requires ys != []
    ensures [x] + xs == ys <==> x == ys[0] && xs == ys[1..]
  {
    assert ys == [ys[0]] + ys[1..];
    assert ([x] + xs)[1..] == xs;
  }

  lemma AppendOne<T>(done: seq<T>, x: T, rest: seq<T>)
    ensures done + ([x] + rest) == done + [x] + rest
  {
  }

  lemma SliceGrows<T>(s: seq<T>, start: nat, i: nat)
    requires start <= i < |s|
    ensures s[start..i] + [s[i]] == s[start..i + 1]
  {
  }

  lemma Associates<T>(a: seq<T>, b: seq<T>, c: seq<T>)
    ensures a + (b + c) == a + b + c
  {
  }

  /** Texts one after the other. */
  function Concat(texts: seq<Text>): Text {
    if texts == [] then [] else texts[0] + Concat(texts[1..])
  }

  lemma ConcatCons(texts: seq<Text>)
    ensures Concat(texts) == if texts == [] then [] else texts[0] + Concat(texts[1..])
  {
  }
}
