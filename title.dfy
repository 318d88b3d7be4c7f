/** The title step of the cleaning pipeline:
    `str.replace(r'\s+', ' ', regex=True).str.strip()`. */
module Title {
  import opened Strings

  /** `re.sub(r'\s+', ' ', s)`: each maximal run of whitespace becomes a
      single space. */
  function CollapseSpaces(s: string): (r: string)
    ensures r == [] <==> s == []
    ensures r != [] ==> (IsSpace(r[0]) <==> IsSpace(s[0]))
    decreases |s|
  {
    if s == [] then []
    else if IsSpace(s[0]) then [' '] + CollapseSpaces(TrimStart(s[1..]))
    else [s[0]] + CollapseSpaces(s[1..])
  }

  /** The non-whitespace characters of `s`, in order. */
  function NonSpace(s: string): string
  {
    if s == [] then [] else (if IsSpace(s[0]) then [] else [s[0]]) + NonSpace(s[1..])
  }

  /** Whitespace appears only as single spaces. */
  predicate SingleSpaced(s: string)
  {
    PlainSpaces(s) && NoDoubleSpace(s)
  }

  predicate PlainSpaces(s: string)
  {
    forall i :: 0 <= i < |s| && IsSpace(s[i]) ==> s[i] == ' '
  }

  predicate NoDoubleSpace(s: string)
  {
    forall i :: 0 <= i < |s| - 1 ==> !(IsSpace(s[i]) && IsSpace(s[i + 1]))
  }

  /** A one-character head followed by a single-spaced tail is
      single-spaced when the head is a plain space or not whitespace, and
      not a space in front of a space. */
  lemma ConsSingleSpaced(c: char, t: string)
    requires SingleSpaced(t)
    requires IsSpace(c) ==> c == ' ' && (t == [] || !IsSpace(t[0]))
    ensures SingleSpaced([c] + t)
  {
    var r := [c] + t;
    forall i | 0 <= i < |r| && IsSpace(r[i])
      ensures r[i] == ' '
    {
      if i > 0 { assert r[i] == t[i - 1]; }
    }
    forall i | 0 <= i < |r| - 1
      ensures !(IsSpace(r[i]) && IsSpace(r[i + 1]))
    {
      assert r[i + 1] == t[i];
      if i > 0 { assert r[i] == t[i - 1]; }
    }
  }

  /** The title normalisation: collapse, then strip. */
  function NormalizeTitle(s: string): string
  {
    Strip(CollapseSpaces(s))
  }

  lemma {:induction false} NonSpaceAppend(a: string, b: string)
    ensures NonSpace(a + b) == NonSpace(a) + NonSpace(b)
  {
    if a == [] {
      assert a + b == b;
    } else {
      assert (a + b)[1..] == a[1..] + b;
      NonSpaceAppend(a[1..], b);
    }
  }

  lemma {:induction false} NonSpaceOfSpaces(s: string)
    requires forall i :: 0 <= i < |s| ==> IsSpace(s[i])
    ensures NonSpace(s) == []
  {
    if s != [] {
      NonSpaceOfSpaces(s[1..]);
    }
  }

  lemma NonSpaceTrimStart(s: string)
    ensures NonSpace(TrimStart(s)) == NonSpace(s)
  {
    var t := TrimStart(s);
    var k := |s| - |t|;
    assert s == s[..k] + t;
    NonSpaceAppend(s[..k], t);
    NonSpaceOfSpaces(s[..k]);
  }

  /** Collapsing keeps every non-whitespace character, in order. */
  lemma {:induction false} CollapseKeepsText(s: string)
    ensures NonSpace(CollapseSpaces(s)) == NonSpace(s)
    decreases |s|
  {
    if s == [] {
    } else if IsSpace(s[0]) {
      var t := TrimStart(s[1..]);
      CollapseKeepsText(t);
      NonSpaceTrimStart(s[1..]);
      NonSpaceAppend([' '], CollapseSpaces(t));
    } else {
      CollapseKeepsText(s[1..]);
      NonSpaceAppend([s[0]], CollapseSpaces(s[1..]));
    }
  }

  /** Collapsing leaves only single spaces. */
  lemma {:induction false} CollapseSingleSpaced(s: string)
    ensures SingleSpaced(CollapseSpaces(s))
    decreases |s|
  {
    if s == [] {
    } else if IsSpace(s[0]) {
      var t := TrimStart(s[1..]);
      CollapseSingleSpaced(t);
      ConsSingleSpaced(' ', CollapseSpaces(t));
    } else {
      CollapseSingleSpaced(s[1..]);
      ConsSingleSpaced(s[0], CollapseSpaces(s[1..]));
    }
  }

  /** A single-spaced string is its own collapse. */
  lemma {:induction false} CollapseIdentity(s: string)
    requires SingleSpaced(s)
    ensures CollapseSpaces(s) == s
    decreases |s|
  {
    if s != [] {
      assert SingleSpaced(s[1..]);
      CollapseIdentity(s[1..]);
      if IsSpace(s[0]) {
        assert s[1..] == [] || !IsSpace(s[1..][0]);
        assert TrimStart(s[1..]) == s[1..];
        assert s == [' '] + s[1..];
      } else {
        assert s == [s[0]] + s[1..];
      }
    }
  }

  lemma SliceSingleSpaced(s: string, lo: nat, hi: nat)
    requires lo <= hi <= |s| && SingleSpaced(s)
    ensures SingleSpaced(s[lo..hi])
  {
    var r := s[lo..hi];
    assert forall i :: 0 <= i < |r| ==> r[i] == s[lo + i];
    assert PlainSpaces(r);
    forall i | 0 <= i < |r| - 1
      ensures !(IsSpace(r[i]) && IsSpace(r[i + 1]))
    {
      assert r[i] == s[lo + i] && r[i + 1] == s[lo + i + 1];
    }
  }

  lemma NonSpaceTrimEnd(s: string)
    ensures NonSpace(TrimEnd(s)) == NonSpace(s)
  {
    var t := TrimEnd(s);
    assert s == t + s[|t|..];
    NonSpaceAppend(t, s[|t|..]);
    NonSpaceOfSpaces(s[|t|..]);
  }

  /** Stripping removes only whitespace. */
  lemma StripKeepsText(c: string)
    ensures NonSpace(Strip(c)) == NonSpace(c)
  {
    NonSpaceTrimStart(c);
    NonSpaceTrimEnd(TrimStart(c));
  }

  /** Stripping a single-spaced string leaves it single-spaced. */
  lemma StripSingleSpaced(c: string)
    requires SingleSpaced(c)
    ensures SingleSpaced(Strip(c))
  {
    var k := StripOffset(c);
    StripSlice(c);
    SliceSingleSpaced(c, k, k + |Strip(c)|);
  }

  /** The normalised title has no whitespace at either end, no whitespace
      other than single spaces between words, and the same non-whitespace
      characters as the input, in order. */
  lemma NormalizeTitleShape(s: string)
    ensures var r := NormalizeTitle(s);
      && (r == [] || (!IsSpace(r[0]) && !IsSpace(r[|r| - 1])))
      && SingleSpaced(r)
      && NonSpace(r) == NonSpace(s)
  {
    var c := CollapseSpaces(s);
    CollapseSingleSpaced(s);
    StripSingleSpaced(c);
    CollapseKeepsText(s);
    StripKeepsText(c);
  }

  /** Normalising a normalised title changes nothing. */
  lemma NormalizeTitleIdempotent(s: string)
    ensures NormalizeTitle(NormalizeTitle(s)) == NormalizeTitle(s)
  {
    var r := NormalizeTitle(s);
    NormalizeTitleShape(s);
    CollapseIdentity(r);
    StripNoEdgeSpace(r);
  }

  lemma {:induction false} NonSpaceFrom(s: string, c: char)
    requires c in NonSpace(s)
    ensures c in s
  {
    if s[0] != c {
      NonSpaceFrom(s[1..], c);
    }
  }

  lemma {:induction false} NonSpaceHas(s: string, i: nat)
    requires i < |s| && !IsSpace(s[i])
    ensures s[i] in NonSpace(s)
  {
    if i > 0 {
      NonSpaceHas(s[1..], i - 1);
    }
  }

  /** Every character of a normalised title is a plain space or a
      character of the input. */
  lemma NormalizeTitleChars(s: string, i: nat)
    requires i < |NormalizeTitle(s)|
    ensures NormalizeTitle(s)[i] == ' ' || NormalizeTitle(s)[i] in s
  {
    var r := NormalizeTitle(s);
    NormalizeTitleShape(s);
    if !IsSpace(r[i]) {
      NonSpaceHas(r, i);
      NonSpaceFrom(s, r[i]);
    }
  }
}
