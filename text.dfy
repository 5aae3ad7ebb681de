/** String helpers shared by the whole model: ASCII lower-casing (the part of
    JavaScript's `toLowerCase` the model keeps), substring containment
    (`includes`), `startsWith` and `join`. */
module Text {

  type Str = seq<char>

  predicate IsUpper(c: char) { 'A' <= c <= 'Z' }

  /** Lower-cases one character; only ASCII letters are mapped. */
  function Lower(c: char): (r: char)
    ensures !IsUpper(r)
    ensures IsUpper(c) ==> r as int == c as int + 32
    ensures !IsUpper(c) ==> r == c
  {
    if IsUpper(c) then (c as int + 32) as char else c
  }

  /** `s.toLowerCase()` restricted to ASCII. */
  function LowerStr(s: Str): (r: Str)
    ensures |r| == |s|
    ensures forall i :: 0 <= i < |s| ==> r[i] == Lower(s[i])
  {
    seq(|s|, i requires 0 <= i < |s| => Lower(s[i]))
  }

  /** Lower-casing twice is lower-casing once. */
  lemma LowerStrIdempotent(s: Str)
    ensures LowerStr(LowerStr(s)) == LowerStr(s)
  {
  }

  lemma LowerStrConcat(a: Str, b: Str)
    ensures LowerStr(a + b) == LowerStr(a) + LowerStr(b)
  {
  }

  /** `sub` occurs in `s` starting at position `i`. */
  predicate OccursAt(s: Str, sub: Str, i: int)
  {
    0 <= i && i + |sub| <= |s| && s[i..i + |sub|] == sub
  }

  /** `s.includes(sub)`. */
  predicate Contains(s: Str, sub: Str)
  {
    exists i :: 0 <= i <= |s| - |sub| && OccursAt(s, sub, i)
  }

  /** Every string contains the empty string. */
  lemma ContainsEmpty(s: Str)
    ensures Contains(s, [])
  {
    assert OccursAt(s, [], 0);
  }

  /** A string found in one part of a concatenation is found in the whole. */
  lemma ContainsInLeft(a: Str, b: Str, sub: Str)
    requires Contains(a, sub)
    ensures Contains(a + b, sub)
  {
    var i :| 0 <= i <= |a| - |sub| && OccursAt(a, sub, i);
    assert (a + b)[i..i + |sub|] == a[i..i + |sub|];
    assert OccursAt(a + b, sub, i);
  }

  /** A string found in the right part of a concatenation is found in the whole. */
  lemma ContainsInRight(a: Str, b: Str, sub: Str)
    requires Contains(b, sub)
    ensures Contains(a + b, sub)
  {
    var i :| 0 <= i <= |b| - |sub| && OccursAt(b, sub, i);
    assert (a + b)[|a| + i..|a| + i + |sub|] == b[i..i + |sub|];
    assert OccursAt(a + b, sub, |a| + i);
  }

  /** Lower-casing both sides keeps an occurrence. */
  lemma ContainsLower(s: Str, sub: Str)
    requires Contains(s, sub)
    ensures Contains(LowerStr(s), LowerStr(sub))
  {
    var i :| 0 <= i <= |s| - |sub| && OccursAt(s, sub, i);
    assert LowerStr(s)[i..i + |sub|] == LowerStr(sub);
    assert OccursAt(LowerStr(s), LowerStr(sub), i);
  }

  /** `s.startsWith(p)`. */
  predicate StartsWith(s: Str, p: Str)
  {
    |p| <= |s| && s[..|p|] == p
  }

  /** A string starts with any of its prefixes. */
  lemma StartsWithAppend(a: Str, b: Str)
    ensures StartsWith(a + b, a)
  {
    assert (a + b)[..|a|] == a;
  }

  lemma StartsWithTrans(s: Str, p: Str, q: Str)
    requires StartsWith(s, p) && StartsWith(p, q)
    ensures StartsWith(s, q)
  {
    assert s[..|q|] == s[..|p|][..|q|];
  }

  /** `parts.join(sep)`. */
  function Join(parts: seq<Str>, sep: Str): Str
  {
    if parts == [] then []
    else if |parts| == 1 then parts[0]
    else parts[0] + sep + Join(parts[1..], sep)
  }

  /** Every part of a joined list occurs in the joined string. */
  lemma {:induction false} JoinContainsParts(parts: seq<Str>, sep: Str, i: nat)
    requires i < |parts|
    ensures Contains(Join(parts, sep), parts[i])
  {
    if |parts| == 1 {
      assert OccursAt(parts[0], parts[0], 0);
    } else if i == 0 {
      assert OccursAt(parts[0], parts[0], 0);
      ContainsInLeft(parts[0], sep + Join(parts[1..], sep), parts[0]);
      assert parts[0] + sep + Join(parts[1..], sep) == parts[0] + (sep + Join(parts[1..], sep));
    } else {
      JoinContainsParts(parts[1..], sep, i - 1);
      ContainsInRight(parts[0] + sep, Join(parts[1..], sep), parts[i]);
    }
  }

  /** True iff `text` contains the lower-cased form of some keyword of `keywords`
      (the `keywords.some(k => text.includes(k.toLowerCase()))` idiom). */
  predicate MentionsAny(text: Str, keywords: seq<Str>)
  {
    exists i :: 0 <= i < |keywords| && Contains(text, LowerStr(keywords[i]))
  }

  /** No two positions of `s` hold the same value. */
  predicate Distinct<T(==)>(s: seq<T>)
  {
    forall i, j :: 0 <= i < j < |s| ==> s[i] != s[j]
  }

  /** A prefix of a longer prefix. */
  lemma PrefixOfPrefix<T>(b: seq<T>, j: nat)
    requires j < |b|
    ensures b[..j + 1][..j] == b[..j]
  {
  }

  /** Extending a prefix of `b` by one element. */
  lemma PrefixSnoc<T>(b: seq<T>, j: nat)
    requires j < |b|
    ensures b[..j + 1] == b[..j] + [b[j]]
  {
  }

  /** Extending a prefix of `b` that follows `a` by one element. */
  lemma AppendPrefix<T>(a: seq<T>, b: seq<T>, j: nat)
    requires j < |b|
    ensures a + b[..j + 1] == (a + b[..j]) + [b[j]]
  {
    PrefixSnoc(b, j);
  }
}
