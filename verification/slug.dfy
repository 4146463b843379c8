/**
 * The song-name helpers of the upload endpoint: `slugify`, which turns an
 * uploaded file name into a file-system friendly slug, and the title shown
 * for the song, derived from the slug.
 */
module Slug {
  import opened Text

  /** The regular expression `\.[^.]+$` matches at `i`: a dot followed by a non-empty dot-free run to the end. */
  predicate ExtensionAt(s: string, i: int) {
    0 <= i < |s| - 1 && s[i] == '.' && '.' !in s[i + 1..]
  }

  /** `.replace(/\.[^.]+$/, '')`: remove at most one trailing extension. */
  function StripExtension(s: string): (r: string)
    ensures (exists i :: ExtensionAt(s, i) && r == s[..i]) || (r == s && forall i :: !ExtensionAt(s, i))
  {
    var i := LastIndex(s, '.');
    if i >= 0 && i < |s| - 1 then
      assert ExtensionAt(s, i);
      s[..i]
    else
      assert forall j :: !ExtensionAt(s, j) by {
        forall j | 0 <= j < |s| - 1
          ensures !ExtensionAt(s, j)
        {
          assert s[j] in s;
          if i >= 0 {
            assert s[i] in s[j + 1..];
          }
        }
      }
      s
  }

  /** The letters and digits of `s`, in order. */
  function Alnums(s: string): string
    decreases |s|
  {
    if s == [] then [] else (if IsAlnum(s[0]) then [s[0]] else []) + Alnums(s[1..])
  }

  lemma {:induction false} AlnumsAppend(a: string, b: string)
    ensures Alnums(a + b) == Alnums(a) + Alnums(b)
    decreases |a|
  {
    if a == [] {
      assert a + b == b;
    } else {
      var head := if IsAlnum(a[0]) then [a[0]] else [];
      assert (a + b)[0] == a[0];
      assert (a + b)[1..] == a[1..] + b;
      AlnumsAppend(a[1..], b);
      calc {
        Alnums(a + b);
        head + Alnums(a[1..] + b);
        head + (Alnums(a[1..]) + Alnums(b));
        (head + Alnums(a[1..])) + Alnums(b);
      }
    }
  }

  /** `s` without the run of characters outside `[a-zA-Z0-9]` it starts with. */
  function SkipNonAlnum(s: string): (r: string)
    ensures |r| <= |s| && r == s[|s| - |r|..]
    ensures r == [] || IsAlnum(r[0])
    ensures forall i :: 0 <= i < |s| - |r| ==> !IsAlnum(s[i])
    decreases |s|
  {
    if s == [] || IsAlnum(s[0]) then s else SkipNonAlnum(s[1..])
  }

  lemma {:induction false} SkipNonAlnumKeepsAlnums(s: string)
    ensures Alnums(SkipNonAlnum(s)) == Alnums(s)
    decreases |s|
  {
    if s != [] && !IsAlnum(s[0]) {
      SkipNonAlnumKeepsAlnums(s[1..]);
    }
  }

  /**
   * `.replace(/[^a-zA-Z0-9]+/g, '-')`: every maximal run of characters
   * outside `[a-zA-Z0-9]` becomes one hyphen.
   */
  function Hyphenate(s: string): (r: string)
    ensures |r| == 0 <==> |s| == 0
    ensures |r| > 0 ==> (r[0] == '-' <==> !IsAlnum(s[0]))
    ensures forall i :: 0 <= i < |r| ==> IsAlnum(r[i]) || r[i] == '-'
    ensures forall i :: 0 <= i < |r| - 1 ==> !(r[i] == '-' && r[i + 1] == '-')
    ensures Alnums(r) == Alnums(s)
    decreases |s|
  {
    if s == [] then []
    else if IsAlnum(s[0]) then
      var r := [s[0]] + Hyphenate(s[1..]);
      AlnumsAppend([s[0]], Hyphenate(s[1..]));
      r
    else
      var rest := SkipNonAlnum(s[1..]);
      var r := "-" + Hyphenate(rest);
      AlnumsAppend("-", Hyphenate(rest));
      SkipNonAlnumKeepsAlnums(s[1..]);
      r
  }

  /** Every character outside `[a-zA-Z0-9]` replaced by one hyphen, one for one. */
  function Dashes(s: string): (r: string)
    ensures |r| == |s|
    decreases |s|
  {
    if s == [] then [] else [if IsAlnum(s[0]) then s[0] else '-'] + Dashes(s[1..])
  }

  /** Every run of hyphens collapsed to a single hyphen. */
  function Squeeze(s: string): string
    decreases |s|
  {
    if s == [] then []
    else if |s| >= 2 && s[0] == '-' && s[1] == '-' then Squeeze(s[1..])
    else [s[0]] + Squeeze(s[1..])
  }

  /**
   * Replacing each maximal run outside `[a-zA-Z0-9]` by a hyphen is the same as
   * replacing each such character by a hyphen and then collapsing the runs of
   * hyphens: the hyphens stand exactly where the separators stood.
   */
  lemma {:induction false} HyphenateIsSqueezedDashes(s: string)
    ensures Hyphenate(s) == Squeeze(Dashes(s))
    decreases |s|
  {
    if s != [] {
      var d := Dashes(s);
      assert d == [d[0]] + Dashes(s[1..]);
      if IsAlnum(s[0]) {
        HyphenateIsSqueezedDashes(s[1..]);
        assert d[1..] == Dashes(s[1..]);
      } else {
        HyphenateIsSqueezedDashes(SkipNonAlnum(s[1..]));
        SqueezeDashRun(s[1..]);
      }
    }
  }

  /** A hyphen followed by the dashes of `t` squeezes to one hyphen and the squeezed rest after the separators `t` starts with. */
  lemma {:induction false} SqueezeDashRun(t: string)
    ensures Squeeze("-" + Dashes(t)) == "-" + Squeeze(Dashes(SkipNonAlnum(t)))
    decreases |t|
  {
    var x := "-" + Dashes(t);
    assert x[1..] == Dashes(t);
    if t == [] || IsAlnum(t[0]) {
      SkipNonAlnumFixpoint(t);
      if t != [] {
        assert Dashes(t) == [t[0]] + Dashes(t[1..]);
        assert x[1] == t[0];
      }
    } else {
      assert Dashes(t) == "-" + Dashes(t[1..]);
      assert x[1] == '-';
      SqueezeDashRun(t[1..]);
    }
  }

  /** Remove the hyphens `s` starts with. */
  function TrimStart(s: string): (r: string)
    ensures |r| <= |s| && r == s[|s| - |r|..]
    ensures r == [] || r[0] != '-'
    ensures forall i :: 0 <= i < |s| - |r| ==> s[i] == '-'
    decreases |s|
  {
    if s == [] || s[0] != '-' then s else TrimStart(s[1..])
  }

  /** Remove the hyphens `s` ends with. */
  function TrimEnd(s: string): (r: string)
    ensures |r| <= |s| && r == s[..|r|]
    ensures r == [] || r[|r| - 1] != '-'
    ensures forall i :: |r| <= i < |s| ==> s[i] == '-'
    decreases |s|
  {
    if s == [] || s[|s| - 1] != '-' then s else TrimEnd(s[..|s| - 1])
  }

  lemma TrimStartKeepsAlnums(s: string)
    ensures Alnums(TrimStart(s)) == Alnums(s)
  {
    var a := TrimStart(s);
    var k := |s| - |a|;
    var dropped := s[..k];
    assert s == dropped + a;
    assert forall i :: 0 <= i < |dropped| ==> dropped[i] == s[i];
    AlnumsAppend(dropped, a);
    HyphensHaveNoAlnums(dropped);
  }

  lemma TrimEndKeepsAlnums(s: string)
    ensures Alnums(TrimEnd(s)) == Alnums(s)
  {
    var b := TrimEnd(s);
    var dropped := s[|b|..];
    assert s == b + dropped;
    assert forall i :: 0 <= i < |dropped| ==> dropped[i] == s[|b| + i];
    AlnumsAppend(b, dropped);
    HyphensHaveNoAlnums(dropped);
  }

  lemma {:induction false} HyphensHaveNoAlnums(s: string)
    requires forall i :: 0 <= i < |s| ==> s[i] == '-'
    ensures Alnums(s) == []
    decreases |s|
  {
    if s != [] {
      assert forall i :: 0 <= i < |s[1..]| ==> s[1..][i] == s[i + 1];
      HyphensHaveNoAlnums(s[1..]);
    }
  }

  /**
   * `.replace(/^-+|-+$/g, '')`: remove leading and trailing hyphens. What is
   * left neither starts nor ends with a hyphen, keeps every letter and digit,
   * and keeps the hyphenated shape of its input.
   */
  function TrimHyphens(s: string): (r: string)
    ensures |r| <= |s|
    ensures r == [] || (r[0] != '-' && r[|r| - 1] != '-')
    ensures Alnums(r) == Alnums(s)
    ensures HyphenShaped(s) ==> IsSlug(r)
  {
    TrimBothEnds(s);
    TrimEnd(TrimStart(s))
  }

  /**
   * `TrimHyphens` removes only hyphens, and only at the ends: what is left
   * is one run of `s` (so `a-b` stays `a-b`).
   */
  lemma TrimHyphensOnlyEnds(s: string)
    ensures exists k :: TrimmedAt(s, TrimHyphens(s), k)
  {
    var a := TrimStart(s);
    var b := TrimEnd(a);
    var k := |s| - |a|;
    TrimmedOfSuffixPrefix(s, a, b, k);
    assert TrimHyphens(s) == b;
    assert TrimmedAt(s, TrimHyphens(s), k);
  }

  /** A prefix `b` of the suffix `a` of `s`, where the rest of `s` is hyphens, is trimmed out of `s`. */
  lemma TrimmedOfSuffixPrefix(s: string, a: string, b: string, k: int)
    requires 0 <= k <= |s| && a == s[k..] && |b| <= |a| && b == a[..|b|]
    requires forall i :: 0 <= i < k ==> s[i] == '-'
    requires forall i :: |b| <= i < |a| ==> a[i] == '-'
    ensures TrimmedAt(s, b, k)
  {
    forall i | k + |b| <= i < |s|
      ensures s[i] == '-'
    {
      assert s[i] == a[i - k];
    }
  }

  /** `r` is the run of `s` starting at `k`, and everything of `s` before and after that run is a hyphen. */
  predicate TrimmedAt(s: string, r: string, k: int) {
    && 0 <= k <= |s| - |r|
    && r == s[k..k + |r|]
    && (forall i :: 0 <= i < k ==> s[i] == '-')
    && (forall i :: k + |r| <= i < |s| ==> s[i] == '-')
  }

  /** Trimming both ends keeps the letters and digits and the hyphenated shape, and leaves no hyphen at either end. */
  lemma TrimBothEnds(s: string)
    ensures Alnums(TrimEnd(TrimStart(s))) == Alnums(s)
    ensures HyphenShaped(s) ==> HyphenShaped(TrimEnd(TrimStart(s)))
    ensures TrimEnd(TrimStart(s)) == [] || TrimEnd(TrimStart(s))[0] != '-'
  {
    var a := TrimStart(s);
    var b := TrimEnd(a);
    TrimStartKeepsAlnums(s);
    TrimEndKeepsAlnums(a);
    if HyphenShaped(s) {
      SliceShaped(s, |s| - |a|, |s|);
      SliceShaped(a, 0, |b|);
    }
    assert b != [] ==> b[0] == a[0];
  }

  /**
   * `slugify(name)`. A slug is made of letters, digits and single inner
   * hyphens, and keeps every letter and digit of the name without its
   * extension, in order.
   */
  function Slugify(name: string): (slug: string)
    ensures IsSlug(slug)
    ensures Alnums(slug) == Alnums(StripExtension(name))
  {
    var stem := StripExtension(name);
    var h := Hyphenate(stem);
    assert HyphenShaped(h);
    TrimHyphens(h)
  }

  /**
   * The three replacements of `slugify` written with the independent
   * reference for the middle one: every character outside `[a-zA-Z0-9]`
   * becomes '-', runs of '-' are squeezed to one, and only the hyphens at
   * either end are then removed.
   */
  lemma SlugifyIsTrimmedSqueeze(name: string)
    ensures Slugify(name) == TrimEnd(TrimStart(Squeeze(Dashes(StripExtension(name)))))
  {
    HyphenateIsSqueezedDashes(StripExtension(name));
  }

  /** Only ASCII letters, digits and hyphens, never two hyphens in a row. */
  predicate HyphenShaped(s: string) {
    && (forall i :: 0 <= i < |s| ==> IsAlnum(s[i]) || s[i] == '-')
    && (forall i :: 0 <= i < |s| - 1 ==> !(s[i] == '-' && s[i + 1] == '-'))
  }

  /** Only ASCII letters, digits and single inner hyphens. */
  predicate IsSlug(s: string) {
    HyphenShaped(s) && (s != [] ==> s[0] != '-' && s[|s| - 1] != '-')
  }

  lemma SliceShaped(s: string, lo: nat, hi: nat)
    requires HyphenShaped(s) && lo <= hi <= |s|
    ensures HyphenShaped(s[lo..hi])
  {
    var t := s[lo..hi];
    assert forall i :: 0 <= i < |t| ==> t[i] == s[lo + i];
  }

  /**
   * The slug is empty exactly when the name without its extension has no
   * letter or digit (then the stored file is named just `.mid`).
   */
  lemma SlugEmptyIff(name: string)
    ensures Slugify(name) == [] <==> Alnums(StripExtension(name)) == []
  {
    var s := Slugify(name);
    if s != [] {
      assert IsAlnum(s[0]);
      assert Alnums(s) == [s[0]] + Alnums(s[1..]);
    }
  }

  lemma {:induction false} SkipNonAlnumFixpoint(s: string)
    requires s == [] || IsAlnum(s[0])
    ensures SkipNonAlnum(s) == s
  {
  }

  lemma {:induction false} HyphenateFixpoint(s: string)
    requires forall i :: 0 <= i < |s| ==> IsAlnum(s[i]) || s[i] == '-'
    requires forall i :: 0 <= i < |s| - 1 ==> !(s[i] == '-' && s[i + 1] == '-')
    ensures Hyphenate(s) == s
    decreases |s|
  {
    if s != [] {
      HyphenateFixpoint(s[1..]);
      if !IsAlnum(s[0]) {
        assert s[1..] == [] || IsAlnum(s[1..][0]);
        SkipNonAlnumFixpoint(s[1..]);
      }
      assert s == [s[0]] + s[1..];
    }
  }

  /** A slug is its own slug. */
  lemma SlugFixpoint(s: string)
    requires IsSlug(s)
    ensures Slugify(s) == s
  {
    assert StripExtension(s) == s by {
      assert forall i :: !ExtensionAt(s, i);
    }
    HyphenateFixpoint(s);
  }

  /** `slugify` is idempotent. */
  lemma SlugifyIdempotent(name: string)
    ensures Slugify(Slugify(name)) == Slugify(name)
  {
    SlugFixpoint(Slugify(name));
  }

  /** `.replace(/-/g, ' ')`. */
  function SpacesForHyphens(s: string): (r: string)
    ensures |r| == |s| && forall i :: 0 <= i < |r| ==> r[i] != '-'
    ensures forall i :: 0 <= i < |s| ==> (s[i] == '-' ==> r[i] == ' ') && (s[i] != '-' ==> r[i] == s[i])
  {
    seq(|s|, i requires 0 <= i < |s| => if s[i] == '-' then ' ' else s[i])
  }

  /**
   * `\b\w` matches at `i`: a word character at the start of a word;
   * `afterWord` says whether the character before `s` is a word character.
   */
  predicate StartsWord(s: string, i: nat, afterWord: bool)
    requires i < |s|
  {
    IsWordChar(s[i]) && !(if i == 0 then afterWord else IsWordChar(s[i - 1]))
  }

  /** `.replace(/\b\w/g, (c) => c.toUpperCase())`: upper-case every character that starts a word. */
  function CapitalizeWords(s: string, afterWord: bool): (r: string)
    ensures |r| == |s|
    ensures forall i :: 0 <= i < |s| ==> r[i] == if StartsWord(s, i, afterWord) then UpperChar(s[i]) else s[i]
    decreases |s|
  {
    if s == [] then []
    else
      var rest := CapitalizeWords(s[1..], IsWordChar(s[0]));
      StartsWordTail(s, afterWord);
      [if IsWordChar(s[0]) && !afterWord then UpperChar(s[0]) else s[0]] + rest
  }

  /** A word starts at `i` of `s` exactly when one starts at `i - 1` of its tail, read after `s[0]`. */
  lemma StartsWordTail(s: string, afterWord: bool)
    requires s != []
    ensures forall i :: 1 <= i < |s| ==> StartsWord(s, i, afterWord) == StartsWord(s[1..], i - 1, IsWordChar(s[0]))
  {
    forall i | 1 <= i < |s|
      ensures StartsWord(s, i, afterWord) == StartsWord(s[1..], i - 1, IsWordChar(s[0]))
    {
      assert s[1..][i - 1] == s[i];
    }
  }

  /** The song title derived from the slug. */
  function Title(slug: string): (t: string)
    ensures |t| == |slug|
    ensures forall i :: 0 <= i < |slug| && slug[i] == '-' ==> t[i] == ' '
    ensures forall i :: 0 <= i < |slug| && slug[i] != '-' ==> t[i] == slug[i] || t[i] == UpperChar(slug[i])
  {
    CapitalizeWords(SpacesForHyphens(slug), false)
  }

  /**
   * The title of a slug has the slug's length, a space exactly where the slug
   * has a hyphen, and the slug's characters elsewhere, upper-cased at the
   * start of the slug and after each hyphen.
   */
  lemma TitleOfSlug(slug: string)
    requires IsSlug(slug)
    ensures |Title(slug)| == |slug|
    ensures forall i :: 0 <= i < |slug| ==> (Title(slug)[i] == ' ' <==> slug[i] == '-')
    ensures forall i :: 0 <= i < |slug| && slug[i] != '-' ==>
      Title(slug)[i] == if i == 0 || slug[i - 1] == '-' then UpperChar(slug[i]) else slug[i]
  {
    forall i | 0 <= i < |slug|
      ensures Title(slug)[i] == ' ' <==> slug[i] == '-'
      ensures slug[i] != '-' ==>
        Title(slug)[i] == if i == 0 || slug[i - 1] == '-' then UpperChar(slug[i]) else slug[i]
    {
      TitleAt(slug, i);
    }
  }

  /** One position of `TitleOfSlug`. */
  lemma TitleAt(slug: string, i: nat)
    requires IsSlug(slug) && i < |slug|
    ensures |Title(slug)| == |slug|
    ensures Title(slug)[i] == ' ' <==> slug[i] == '-'
    ensures slug[i] != '-' ==>
      Title(slug)[i] == if i == 0 || slug[i - 1] == '-' then UpperChar(slug[i]) else slug[i]
  {
    var spaced := SpacesForHyphens(slug);
    assert spaced[i] == if slug[i] == '-' then ' ' else slug[i];
    assert i > 0 ==> spaced[i - 1] == if slug[i - 1] == '-' then ' ' else slug[i - 1];
    assert StartsWord(spaced, i, false) <==> slug[i] != '-' && (i == 0 || slug[i - 1] == '-');
  }
}
