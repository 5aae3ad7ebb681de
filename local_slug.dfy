/** The `slugify` helper written out in scripts/scrape-neighborhoods.ts and,
    character for character the same, in scripts/seed-expansion.ts: a chain
    of five regular-expression replacements after lower-casing. Each stage is
    one function below. */
module LocalSlug {
  import opened Text

  /** JavaScript's `\s`: the ASCII white space characters, the no-break and
      other Unicode space separators, the line and paragraph separators and
      the byte-order mark. */
  predicate IsJsSpace(c: char)
  {
    c == ' ' || c == '\t' || c == '\n' || c == '\U{B}' || c == '\U{C}' || c == '\r'
    || c == '\U{A0}' || c == '\U{1680}' || ('\U{2000}' <= c <= '\U{200A}')
    || c == '\U{2028}' || c == '\U{2029}' || c == '\U{202F}' || c == '\U{205F}'
    || c == '\U{3000}' || c == '\U{FEFF}'
  }

  /** `[\w\-]` without the `u` flag: ASCII letters, digits, `_` and `-`. */
  predicate IsWordOrHyphen(c: char)
  {
    ('a' <= c <= 'z') || ('A' <= c <= 'Z') || ('0' <= c <= '9') || c == '_' || c == '-'
  }

  /** The output alphabet `[a-z0-9_-]`. */
  predicate IsSlugChar(c: char)
  {
    ('a' <= c <= 'z') || ('0' <= c <= '9') || c == '_' || c == '-'
  }

  predicate NoUpper(s: Str) { forall i :: 0 <= i < |s| ==> !IsUpper(s[i]) }
  predicate NoSpace(s: Str) { forall i :: 0 <= i < |s| ==> !IsJsSpace(s[i]) }
  predicate WordChars(s: Str) { forall i :: 0 <= i < |s| ==> IsWordOrHyphen(s[i]) }
  predicate SlugChars(s: Str) { forall i :: 0 <= i < |s| ==> IsSlugChar(s[i]) }

  /** No `--` anywhere in `s`. */
  predicate NoDoubleHyphen(s: Str)
  {
    forall i :: 0 <= i < |s| - 1 ==> !(s[i] == '-' && s[i + 1] == '-')
  }

  /** Neither the first nor the last character is `-`. */
  predicate NoEdgeHyphen(s: Str)
  {
    s == [] || (s[0] != '-' && s[|s| - 1] != '-')
  }

  /** The shape every slug produced here has. */
  predicate IsCleanSlug(s: Str)
  {
    SlugChars(s) && NoDoubleHyphen(s) && NoEdgeHyphen(s)
  }

  function DropSpaces(s: Str): (r: Str)
    ensures |r| <= |s| && r == s[|s| - |r|..]
    ensures r == [] || !IsJsSpace(r[0])
  {
    if s != [] && IsJsSpace(s[0]) then DropSpaces(s[1..]) else s
  }

  /** `.replace(/\s+/g, '-')`: every maximal run of white space becomes one `-`. */
  function Hyphenate(s: Str): (r: Str)
    ensures forall c :: c in r ==> c == '-' || c in s
    decreases |s|
  {
    if s == [] then []
    else if IsJsSpace(s[0]) then "-" + Hyphenate(DropSpaces(s[1..]))
    else [s[0]] + Hyphenate(s[1..])
  }

  /** No white space survives `Hyphenate`. */
  lemma {:induction false} HyphenateRemovesSpaces(s: Str)
    ensures NoSpace(Hyphenate(s))
    decreases |s|
  {
    if s != [] {
      if IsJsSpace(s[0]) {
        HyphenateRemovesSpaces(DropSpaces(s[1..]));
        var rest := Hyphenate(DropSpaces(s[1..]));
        assert forall i :: 1 <= i < |rest| + 1 ==> ("-" + rest)[i] == rest[i - 1];
      } else {
        HyphenateRemovesSpaces(s[1..]);
        var rest := Hyphenate(s[1..]);
        assert forall i :: 1 <= i < |rest| + 1 ==> ([s[0]] + rest)[i] == rest[i - 1];
      }
    }
  }

  /** A string without white space goes through `Hyphenate` unchanged. */
  lemma {:induction false} HyphenateFixesSpaceless(s: Str)
    requires NoSpace(s)
    ensures Hyphenate(s) == s
  {
    if s != [] {
      assert NoSpace(s[1..]) by {
        assert forall i :: 0 <= i < |s| - 1 ==> s[1..][i] == s[i + 1];
      }
      HyphenateFixesSpaceless(s[1..]);
    }
  }


  /** `.replace(/[^\w\-]+/g, '')`: every character outside `[A-Za-z0-9_-]` is removed. */
  function RemoveNonWord(s: Str): (r: Str)
    ensures WordChars(r)
    ensures NoUpper(s) ==> NoUpper(r)
    ensures WordChars(s) ==> r == s
  {
    if s == [] then []
    else if IsWordOrHyphen(s[0]) then [s[0]] + RemoveNonWord(s[1..])
    else RemoveNonWord(s[1..])
  }

  function DropHyphens(s: Str): (r: Str)
    ensures |r| <= |s| && r == s[|s| - |r|..]
    ensures r == [] || r[0] != '-'
    ensures s == [] || s[0] != '-' ==> r == s
  {
    if s != [] && s[0] == '-' then DropHyphens(s[1..]) else s
  }

  /** Putting `x` in front of a string without `--` keeps it so, unless both
      `x` and the string's first character are `-`. */
  lemma ConsKeepsShape(x: char, c: Str)
    requires NoDoubleHyphen(c) && (x != '-' || c == [] || c[0] != '-')
    ensures NoDoubleHyphen([x] + c)
    ensures IsSlugChar(x) && SlugChars(c) ==> SlugChars([x] + c)
  {
    var r := [x] + c;
    assert forall i :: 1 <= i < |r| ==> r[i] == c[i - 1];
  }

  /** `.replace(/\-\-+/g, '-')`: every run of two or more `-` becomes one. */
  function CollapseHyphens(s: Str): (r: Str)
    ensures NoDoubleHyphen(r)
    ensures SlugChars(s) ==> SlugChars(r)
    ensures (s == [] || s[0] != '-') ==> (r == [] || r[0] != '-')
    ensures NoDoubleHyphen(s) ==> r == s
    decreases |s|
  {
    if s == [] then []
    else if s[0] == '-' then
      var rest := DropHyphens(s[1..]);
      SliceKeepsShape(s, |s| - |rest|, |s|);
      assert NoDoubleHyphen(s) ==> rest == s[1..];
      var c := CollapseHyphens(rest);
      ConsKeepsShape('-', c);
      "-" + c
    else
      SliceKeepsShape(s, 1, |s|);
      var c := CollapseHyphens(s[1..]);
      ConsKeepsShape(s[0], c);
      [s[0]] + c
  }

  /** `.replace(/^-+/, '')`. */
  function TrimStart(s: Str): (r: Str)
    ensures |r| <= |s| && r == s[|s| - |r|..]
    ensures r == [] || r[0] != '-'
    ensures s == [] || s[0] != '-' ==> r == s
  {
    DropHyphens(s)
  }

  /** `.replace(/-+$/, '')`. */
  function TrimEnd(s: Str): (r: Str)
    ensures |r| <= |s| && r == s[..|r|]
    ensures r == [] || r[|r| - 1] != '-'
    ensures s == [] || s[|s| - 1] != '-' ==> r == s
  {
    if s != [] && s[|s| - 1] == '-' then TrimEnd(s[..|s| - 1]) else s
  }

  /** A slice of a string without `--` has none either. */
  lemma SliceKeepsShape(s: Str, lo: nat, hi: nat)
    requires lo <= hi <= |s|
    ensures NoDoubleHyphen(s) ==> NoDoubleHyphen(s[lo..hi])
    ensures SlugChars(s) ==> SlugChars(s[lo..hi])
  {
    var t := s[lo..hi];
    assert forall i :: 0 <= i < |t| ==> t[i] == s[lo + i];
  }

  /** The local `slugify`: output in `[a-z0-9_-]`, no `--`, no `-` at either end. */
  function Slugify(text: Str): (r: Str)
    ensures SlugChars(r)
    ensures NoDoubleHyphen(r)
    ensures NoEdgeHyphen(r)
  {
    var lowered := LowerStr(text);
    var spaced := Hyphenate(lowered);
    assert NoUpper(spaced) by {
      forall i | 0 <= i < |spaced| ensures !IsUpper(spaced[i]) {
        assert spaced[i] in spaced;
      }
    }
    var words := RemoveNonWord(spaced);
    assert SlugChars(words);
    var collapsed := CollapseHyphens(words);
    var front := TrimStart(collapsed);
    SliceKeepsShape(collapsed, |collapsed| - |front|, |collapsed|);
    var r := TrimEnd(front);
    SliceKeepsShape(front, 0, |r|);
    assert r == [] || r[0] == front[0];
    r
  }

  /** Each stage leaves a clean slug as it is, so slugifying a slug changes nothing. */
  lemma SlugifyFixesCleanSlugs(s: Str)
    requires IsCleanSlug(s)
    ensures Slugify(s) == s
  {
    assert LowerStr(s) == s;
    assert NoSpace(s);
    HyphenateFixesSpaceless(s);
    assert WordChars(s);
  }

  /** `slugify` is idempotent. */
  lemma SlugifyIdempotent(text: Str)
    ensures Slugify(Slugify(text)) == Slugify(text)
  {
    SlugifyFixesCleanSlugs(Slugify(text));
  }
}
