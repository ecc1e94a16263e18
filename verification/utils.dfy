/**
 * `slugify`: turns a product or brand name into the slug used in links. The
 * text is lower-cased and trimmed, combining accents are dropped, each run
 * of whitespace becomes a hyphen, every other character outside `[A-Za-z0-9_-]`
 * is dropped, runs of hyphens shrink to one, and hyphens at either end go.
 */
module Utils {
  import opened Text
  import JsArray

  /** U+0300 to U+036F, the block of combining diacritical marks. */
  predicate IsCombiningMark(c: char) { '\U{0300}' <= c <= '\U{036F}' }

  /** The characters a slug is made of. */
  predicate IsSlugChar(c: char) { IsLower(c) || IsDigit(c) || c == '_' || c == '-' }

  predicate NoUpper(s: string) { forall i :: 0 <= i < |s| ==> !IsUpper(s[i]) }

  predicate NoWordChar(s: string) { forall i :: 0 <= i < |s| ==> !IsWordChar(s[i]) }

  predicate AllHyphens(s: string) { forall i :: 0 <= i < |s| ==> s[i] == '-' }

  predicate AllSlugChars(s: string) { forall i :: 0 <= i < |s| ==> IsSlugChar(s[i]) }

  /** No two hyphens in a row. */
  predicate NoDoubleHyphen(s: string) { forall i :: 0 <= i < |s| - 1 ==> s[i] != '-' || s[i + 1] != '-' }

  /** Neither the first nor the last character is a hyphen. */
  predicate NoEdgeHyphen(s: string) { s == [] || (s[0] != '-' && s[|s| - 1] != '-') }

  /** What `slugify` produces: lower-case letters, digits, `_` and single inner hyphens. */
  predicate IsSlug(s: string) { AllSlugChars(s) && NoDoubleHyphen(s) && NoEdgeHyphen(s) }

  /** A slice of a string keeps each of the properties above that holds of the whole string. */
  lemma SliceNoUpper(s: string, lo: nat, hi: nat)
    requires lo <= hi <= |s| && NoUpper(s)
    ensures NoUpper(s[lo..hi])
  {
    assert forall i :: 0 <= i < hi - lo ==> s[lo..hi][i] == s[lo + i];
  }

  lemma SliceNoWordChar(s: string, lo: nat, hi: nat)
    requires lo <= hi <= |s| && NoWordChar(s)
    ensures NoWordChar(s[lo..hi])
  {
    assert forall i :: 0 <= i < hi - lo ==> s[lo..hi][i] == s[lo + i];
  }

  lemma SliceAllHyphens(s: string, lo: nat, hi: nat)
    requires lo <= hi <= |s| && AllHyphens(s)
    ensures AllHyphens(s[lo..hi])
  {
    assert forall i :: 0 <= i < hi - lo ==> s[lo..hi][i] == s[lo + i];
  }

  lemma SliceAllSlugChars(s: string, lo: nat, hi: nat)
    requires lo <= hi <= |s| && AllSlugChars(s)
    ensures AllSlugChars(s[lo..hi])
  {
    assert forall i :: 0 <= i < hi - lo ==> s[lo..hi][i] == s[lo + i];
  }

  lemma SliceNoDoubleHyphen(s: string, lo: nat, hi: nat)
    requires lo <= hi <= |s| && NoDoubleHyphen(s)
    ensures NoDoubleHyphen(s[lo..hi])
  {
    assert forall i :: 0 <= i < hi - lo ==> s[lo..hi][i] == s[lo + i];
  }

  /** A slug character is no upper-case letter, no whitespace and no combining mark. */
  lemma SlugCharFacts(c: char)
    requires IsSlugChar(c)
    ensures !IsUpper(c) && !IsJsSpace(c) && !IsCombiningMark(c)
    ensures IsWordChar(c) || c == '-'
  {
  }

  lemma SlugCharsArePlain(s: string)
    requires AllSlugChars(s)
    ensures NoUpper(s)
    ensures forall i :: 0 <= i < |s| ==> !IsJsSpace(s[i]) && !IsCombiningMark(s[i])
    ensures forall i :: 0 <= i < |s| ==> IsWordChar(s[i]) || s[i] == '-'
  {
    forall i | 0 <= i < |s|
      ensures !IsUpper(s[i]) && !IsJsSpace(s[i]) && !IsCombiningMark(s[i])
      ensures IsWordChar(s[i]) || s[i] == '-'
    {
      SlugCharFacts(s[i]);
    }
  }

  lemma ConsNoUpper(c: char, r: string)
    requires !IsUpper(c) && NoUpper(r)
    ensures NoUpper([c] + r)
  {
    assert forall i :: 1 <= i < |r| + 1 ==> ([c] + r)[i] == r[i - 1];
  }

  lemma ConsNoWordChar(c: char, r: string)
    requires !IsWordChar(c) && NoWordChar(r)
    ensures NoWordChar([c] + r)
  {
    assert forall i :: 1 <= i < |r| + 1 ==> ([c] + r)[i] == r[i - 1];
  }

  predicate NotCombiningMark(c: char) { !IsCombiningMark(c) }

  /** The characters `[\w-]` that survive the removal of everything else. */
  predicate IsWordOrHyphen(c: char) { IsWordChar(c) || c == '-' }

  /** Drops every combining diacritical mark. */
  function StripCombiningMarks(s: string): (r: string)
    ensures |r| <= |s|
    ensures forall i :: 0 <= i < |r| ==> !IsCombiningMark(r[i])
    ensures NoUpper(s) ==> NoUpper(r)
    ensures NoWordChar(s) ==> NoWordChar(r)
    ensures (forall i :: 0 <= i < |s| ==> !IsCombiningMark(s[i])) ==> r == s
  {
    if s == [] then []
    else if IsCombiningMark(s[0]) then StripCombiningMarks(s[1..])
    else [s[0]] + StripCombiningMarks(s[1..])
  }

  /** Exactly the combining marks go: the result is `filter` keeping every other character, in order. */
  lemma {:induction false} StripCombiningMarksIsFilter(s: string)
    ensures StripCombiningMarks(s) == JsArray.Filter(s, NotCombiningMark)
  {
    if s != [] {
      StripCombiningMarksIsFilter(s[1..]);
    }
  }

  /** Each run of whitespace becomes one hyphen. */
  function HyphenateWhitespace(s: string): string
    decreases |s|
  {
    if s == [] then []
    else if IsJsSpace(s[0]) then "-" + HyphenateWhitespace(TrimStart(s[1..]))
    else [s[0]] + HyphenateWhitespace(s[1..])
  }

  /** Turning whitespace into hyphens makes no letter upper-case. */
  lemma {:induction false} HyphenateKeepsNoUpper(s: string)
    requires NoUpper(s)
    ensures NoUpper(HyphenateWhitespace(s))
    decreases |s|
  {
    if s != [] {
      var rest := s[1..];
      SliceNoUpper(s, 1, |s|);
      if IsJsSpace(s[0]) {
        var t := TrimStart(rest);
        SliceNoUpper(rest, |rest| - |t|, |rest|);
        HyphenateKeepsNoUpper(t);
        ConsNoUpper('-', HyphenateWhitespace(t));
      } else {
        HyphenateKeepsNoUpper(rest);
        ConsNoUpper(s[0], HyphenateWhitespace(rest));
      }
    }
  }

  /** Turning whitespace into hyphens adds no word character. */
  lemma {:induction false} HyphenateKeepsNoWordChar(s: string)
    requires NoWordChar(s)
    ensures NoWordChar(HyphenateWhitespace(s))
    decreases |s|
  {
    if s != [] {
      var rest := s[1..];
      SliceNoWordChar(s, 1, |s|);
      if IsJsSpace(s[0]) {
        var t := TrimStart(rest);
        SliceNoWordChar(rest, |rest| - |t|, |rest|);
        HyphenateKeepsNoWordChar(t);
        ConsNoWordChar('-', HyphenateWhitespace(t));
      } else {
        HyphenateKeepsNoWordChar(rest);
        ConsNoWordChar(s[0], HyphenateWhitespace(rest));
      }
    }
  }

  /** A text without whitespace is left as it is. */
  lemma {:induction false} HyphenateWhitespaceUnchanged(s: string)
    requires forall i :: 0 <= i < |s| ==> !IsJsSpace(s[i])
    ensures HyphenateWhitespace(s) == s
  {
    if s != [] {
      HyphenateWhitespaceUnchanged(s[1..]);
    }
  }

  /** Only word characters and hyphens remain. */
  function StripNonWord(s: string): (r: string)
    ensures forall i :: 0 <= i < |r| ==> IsWordChar(r[i]) || r[i] == '-'
    ensures NoUpper(s) ==> AllSlugChars(r)
    ensures NoWordChar(s) ==> AllHyphens(r)
    ensures (forall i :: 0 <= i < |s| ==> IsWordChar(s[i]) || s[i] == '-') ==> r == s
  {
    if s == [] then []
    else if IsWordChar(s[0]) || s[0] == '-' then [s[0]] + StripNonWord(s[1..])
    else StripNonWord(s[1..])
  }

  /** Exactly the characters outside `[\w-]` go: the result is `filter` keeping the others, in order. */
  lemma {:induction false} StripNonWordIsFilter(s: string)
    ensures StripNonWord(s) == JsArray.Filter(s, IsWordOrHyphen)
  {
    if s != [] {
      StripNonWordIsFilter(s[1..]);
    }
  }

  /** Drops the hyphens at the start. */
  function TrimLeadingHyphens(s: string): (r: string)
    ensures |r| <= |s| && r == s[|s| - |r|..]
    ensures forall i :: 0 <= i < |s| - |r| ==> s[i] == '-'
    ensures r == [] || r[0] != '-'
  {
    if s != [] && s[0] == '-' then TrimLeadingHyphens(s[1..]) else s
  }

  /** Drops the hyphens at the end. */
  function TrimTrailingHyphens(s: string): (r: string)
    ensures |r| <= |s| && r == s[..|r|]
    ensures forall i :: |r| <= i < |s| ==> s[i] == '-'
    ensures r == [] || r[|r| - 1] != '-'
  {
    if s != [] && s[|s| - 1] == '-' then TrimTrailingHyphens(s[..|s| - 1]) else s
  }

  /** Each run of hyphens becomes one. */
  function CollapseHyphens(s: string): (r: string)
    ensures r == [] <==> s == []
    ensures s != [] ==> r[0] == s[0]
    decreases |s|
  {
    if s == [] then []
    else if s[0] == '-' then "-" + CollapseHyphens(TrimLeadingHyphens(s[1..]))
    else [s[0]] + CollapseHyphens(s[1..])
  }

  /** No two hyphens are left in a row. */
  lemma {:induction false} CollapseHyphensNoDouble(s: string)
    ensures NoDoubleHyphen(CollapseHyphens(s))
    decreases |s|
  {
    if s != [] {
      if s[0] == '-' {
        var t := TrimLeadingHyphens(s[1..]);
        CollapseHyphensNoDouble(t);
      } else {
        CollapseHyphensNoDouble(s[1..]);
      }
    }
  }

  /** A slug character in front of slug characters. */
  lemma ConsSlugChars(c: char, r: string)
    requires IsSlugChar(c) && AllSlugChars(r)
    ensures AllSlugChars([c] + r)
  {
    assert forall i :: 1 <= i < |r| + 1 ==> ([c] + r)[i] == r[i - 1];
  }

  /** Collapsing introduces no character outside the slug alphabet. */
  lemma {:induction false} CollapseHyphensKeepsSlugChars(s: string)
    requires AllSlugChars(s)
    ensures AllSlugChars(CollapseHyphens(s))
    decreases |s|
  {
    if s != [] {
      var rest := s[1..];
      SliceAllSlugChars(s, 1, |s|);
      if s[0] == '-' {
        var t := TrimLeadingHyphens(rest);
        SliceAllSlugChars(rest, |rest| - |t|, |rest|);
        CollapseHyphensKeepsSlugChars(t);
        ConsSlugChars('-', CollapseHyphens(t));
      } else {
        CollapseHyphensKeepsSlugChars(rest);
        ConsSlugChars(s[0], CollapseHyphens(rest));
      }
    }
  }

  /** A run made only of hyphens collapses to at most one hyphen. */
  lemma CollapseHyphensOfHyphens(s: string)
    requires AllHyphens(s)
    ensures |CollapseHyphens(s)| <= 1
  {
    if s != [] {
      var t := TrimLeadingHyphens(s[1..]);
      SliceAllHyphens(s, |s| - |t|, |s|);
      assert t == s[|s| - |t|..|s|];
      assert t == [];
    }
  }

  /** A text without a double hyphen is left as it is. */
  lemma {:induction false} CollapseHyphensUnchanged(s: string)
    requires NoDoubleHyphen(s)
    ensures CollapseHyphens(s) == s
    decreases |s|
  {
    if s != [] {
      SliceNoDoubleHyphen(s, 1, |s|);
      CollapseHyphensUnchanged(s[1..]);
      if s[0] == '-' {
        assert TrimLeadingHyphens(s[1..]) == s[1..];
      }
    }
  }

  /** `slugify` */
  function Slugify(text: string): string {
    var lowered := Trim(ToLower(text));
    var words := StripNonWord(HyphenateWhitespace(StripCombiningMarks(lowered)));
    TrimTrailingHyphens(TrimLeadingHyphens(CollapseHyphens(words)))
  }

  /** Trimming keeps a text free of upper-case letters and of word characters. */
  lemma TrimKeeps(s: string)
    ensures NoUpper(s) ==> NoUpper(Trim(s))
    ensures NoWordChar(s) ==> NoWordChar(Trim(s))
  {
    var t := TrimStart(s);
    assert t == s[|s| - |t|..|s|];
    if NoUpper(s) {
      SliceNoUpper(s, |s| - |t|, |s|);
      SliceNoUpper(t, 0, |TrimEnd(t)|);
    }
    if NoWordChar(s) {
      SliceNoWordChar(s, |s| - |t|, |s|);
      SliceNoWordChar(t, 0, |TrimEnd(t)|);
    }
  }

  /** Dropping hyphens at the start keeps the slug characters and the single hyphens. */
  lemma TrimLeadingKeeps(c: string)
    requires AllSlugChars(c) && NoDoubleHyphen(c)
    ensures AllSlugChars(TrimLeadingHyphens(c)) && NoDoubleHyphen(TrimLeadingHyphens(c))
  {
    var a := TrimLeadingHyphens(c);
    SliceAllSlugChars(c, |c| - |a|, |c|);
    SliceNoDoubleHyphen(c, |c| - |a|, |c|);
  }

  /** Dropping hyphens at the end keeps the slug characters and the single hyphens. */
  lemma TrimTrailingKeeps(a: string)
    requires AllSlugChars(a) && NoDoubleHyphen(a)
    ensures AllSlugChars(TrimTrailingHyphens(a)) && NoDoubleHyphen(TrimTrailingHyphens(a))
  {
    var b := TrimTrailingHyphens(a);
    SliceAllSlugChars(a, 0, |b|);
    SliceNoDoubleHyphen(a, 0, |b|);
  }

  /** The last two steps turn a collapsed text into a slug. */
  lemma TrimHyphensMakesSlug(c: string)
    requires AllSlugChars(c) && NoDoubleHyphen(c)
    ensures IsSlug(TrimTrailingHyphens(TrimLeadingHyphens(c)))
  {
    var a := TrimLeadingHyphens(c);
    TrimLeadingKeeps(c);
    var b := TrimTrailingHyphens(a);
    TrimTrailingKeeps(a);
    assert b != [] ==> b[0] == a[0];
  }

  /** Every slug consists of lower-case letters, digits, `_` and single inner hyphens. */
  lemma SlugifyIsSlug(text: string)
    ensures IsSlug(Slugify(text))
  {
    ToLowerIdempotent(text);
    var lowered := Trim(ToLower(text));
    TrimKeeps(ToLower(text));
    var spaced := StripCombiningMarks(lowered);
    HyphenateKeepsNoUpper(spaced);
    var words := StripNonWord(HyphenateWhitespace(spaced));
    CollapseHyphensNoDouble(words);
    CollapseHyphensKeepsSlugChars(words);
    TrimHyphensMakesSlug(CollapseHyphens(words));
  }

  /** Lower-casing, trimming and dropping accents leave a slug as it is. */
  lemma SlugFirstStages(s: string)
    requires IsSlug(s)
    ensures StripCombiningMarks(Trim(ToLower(s))) == s
  {
    SlugCharsArePlain(s);
    ToLowerNoUpper(s);
    TrimUnchanged(s);
  }

  /** Collapsing hyphens and trimming them at the ends leave a slug as it is. */
  lemma SlugLastStages(s: string)
    requires IsSlug(s)
    ensures TrimTrailingHyphens(TrimLeadingHyphens(CollapseHyphens(s))) == s
  {
    CollapseHyphensUnchanged(s);
    assert TrimLeadingHyphens(s) == s;
  }

  /** A slug is left as it is. */
  lemma SlugifyFixesSlugs(s: string)
    requires IsSlug(s)
    ensures Slugify(s) == s
  {
    SlugFirstStages(s);
    SlugCharsArePlain(s);
    HyphenateWhitespaceUnchanged(s);
    assert StripNonWord(s) == s;
    SlugLastStages(s);
  }

  /** Slugifying twice gives the same slug as once. */
  lemma SlugifyIdempotent(text: string)
    ensures Slugify(Slugify(text)) == Slugify(text)
  {
    SlugifyIsSlug(text);
    SlugifyFixesSlugs(Slugify(text));
  }

  /** The slugs are exactly the texts `slugify` leaves unchanged. */
  lemma SlugifyFixedPoints(s: string)
    ensures Slugify(s) == s <==> IsSlug(s)
  {
    SlugifyIsSlug(s);
    if IsSlug(s) {
      SlugifyFixesSlugs(s);
    }
  }

  /** Dropping marks works character by character, so it distributes over concatenation. */
  lemma {:induction false} StripCombiningMarksAppend(x: string, y: string)
    ensures StripCombiningMarks(x + y) == StripCombiningMarks(x) + StripCombiningMarks(y)
  {
    if x != [] {
      var head := StripCombiningMarks([x[0]]);
      var rest := StripCombiningMarks(x[1..]);
      assert StripCombiningMarks(x + y) == head + (rest + StripCombiningMarks(y)) by {
        AppendHeadTail(x, y);
        StripCombiningMarksStep(x + y);
        StripCombiningMarksAppend(x[1..], y);
      }
      StripCombiningMarksStep(x);
      JoinAfterHead(StripCombiningMarks(x + y), StripCombiningMarks(x), StripCombiningMarks(y), head, rest);
    } else {
      assert x + y == y;
    }
  }

  /** The first character of `x` is kept or dropped on its own. */
  lemma StripCombiningMarksStep(x: string)
    requires x != []
    ensures StripCombiningMarks(x) == StripCombiningMarks([x[0]]) + StripCombiningMarks(x[1..])
  {
    assert [x[0]][1..] == [];
  }

  /** Dropping characters outside `[\w-]` distributes over concatenation. */
  lemma {:induction false} StripNonWordAppend(x: string, y: string)
    ensures StripNonWord(x + y) == StripNonWord(x) + StripNonWord(y)
  {
    if x != [] {
      var head := StripNonWord([x[0]]);
      var rest := StripNonWord(x[1..]);
      assert StripNonWord(x + y) == head + (rest + StripNonWord(y)) by {
        AppendHeadTail(x, y);
        StripNonWordStep(x + y);
        StripNonWordAppend(x[1..], y);
      }
      StripNonWordStep(x);
      JoinAfterHead(StripNonWord(x + y), StripNonWord(x), StripNonWord(y), head, rest);
    } else {
      assert x + y == y;
    }
  }

  /** The first character of `x` is kept or dropped on its own. */
  lemma StripNonWordStep(x: string)
    requires x != []
    ensures StripNonWord(x) == StripNonWord([x[0]]) + StripNonWord(x[1..])
  {
    assert [x[0]][1..] == [];
  }

  /** A text that is `head` followed by `rest` and `t` is `head + rest` followed by `t`. */
  lemma JoinAfterHead(s: string, x: string, t: string, head: string, rest: string)
    requires s == head + (rest + t) && x == head + rest
    ensures s == x + t
  {
  }

  /** Regrouping four pieces of a concatenation. */
  lemma ConcatRegroup(x: string, y: string, z: string, u: string)
    ensures x + y + z + u == x + (y + z + u)
  {
  }

  /**
   * A run of whitespace between a text that does not end in whitespace and
   * one that does not start with it becomes one hyphen, and each side is
   * hyphenated on its own. With HyphenateWhitespaceUnchanged this fixes the
   * result on every text.
   */
  lemma HyphenateSplit(a: string, w: string, b: string)
    requires a == [] || !IsJsSpace(a[|a| - 1])
    requires w != [] && forall i :: 0 <= i < |w| ==> IsJsSpace(w[i])
    requires b == [] || !IsJsSpace(b[0])
    ensures HyphenateWhitespace(a + w + b) == HyphenateWhitespace(a) + "-" + HyphenateWhitespace(b)
  {
    ConcatAssoc(a, w, b);
    HyphenateSplitRun(a, w + b, w, b);
  }

  /** HyphenateSplit with the run and what follows it as one text `y == w + b`. */
  lemma {:induction false} HyphenateSplitRun(a: string, y: string, w: string, b: string)
    requires a == [] || !IsJsSpace(a[|a| - 1])
    requires w != [] && forall i :: 0 <= i < |w| ==> IsJsSpace(w[i])
    requires b == [] || !IsJsSpace(b[0])
    requires y == w + b
    ensures HyphenateWhitespace(a + y) == HyphenateWhitespace(a) + "-" + HyphenateWhitespace(b)
    decreases |a|, 1
  {
    if a == [] {
      HyphenateRunAtStart(a, y, w, b);
    } else if IsJsSpace(a[0]) {
      HyphenateSplitAfterSpace(a, y, w, b);
    } else {
      HyphenateSplitAfterPlain(a, y, w, b);
    }
  }

  /** HyphenateSplitRun where `a` starts with whitespace. */
  lemma {:induction false} HyphenateSplitAfterSpace(a: string, y: string, w: string, b: string)
    requires a != [] && IsJsSpace(a[0]) && !IsJsSpace(a[|a| - 1])
    requires w != [] && forall i :: 0 <= i < |w| ==> IsJsSpace(w[i])
    requires b == [] || !IsJsSpace(b[0])
    requires y == w + b
    ensures HyphenateWhitespace(a + y) == HyphenateWhitespace(a) + "-" + HyphenateWhitespace(b)
    decreases |a|, 0
  {
    var t := TrimStart(a[1..]);
    TrimStartKeepsLast(a[1..]);
    HyphenateSpaceFirst(a, y);
    HyphenateSplitRun(t, y, w, b);
    ConcatRegroup("-", HyphenateWhitespace(t), "-", HyphenateWhitespace(b));
  }

  /** HyphenateSplitRun where `a` starts with another character. */
  lemma {:induction false} HyphenateSplitAfterPlain(a: string, y: string, w: string, b: string)
    requires a != [] && !IsJsSpace(a[0]) && !IsJsSpace(a[|a| - 1])
    requires w != [] && forall i :: 0 <= i < |w| ==> IsJsSpace(w[i])
    requires b == [] || !IsJsSpace(b[0])
    requires y == w + b
    ensures HyphenateWhitespace(a + y) == HyphenateWhitespace(a) + "-" + HyphenateWhitespace(b)
    decreases |a|, 0
  {
    AppendHeadTail(a, y);
    HyphenateSplitRun(a[1..], y, w, b);
    ConcatRegroup([a[0]], HyphenateWhitespace(a[1..]), "-", HyphenateWhitespace(b));
  }

  /** A text that starts with whitespace but is not blank: the run becomes a hyphen, alone and in front of `y`. */
  lemma HyphenateSpaceFirst(a: string, y: string)
    requires a != [] && IsJsSpace(a[0]) && TrimStart(a[1..]) != []
    ensures HyphenateWhitespace(a + y) == "-" + HyphenateWhitespace(TrimStart(a[1..]) + y)
    ensures HyphenateWhitespace(a) == "-" + HyphenateWhitespace(TrimStart(a[1..]))
  {
    AppendHeadTail(a, y);
    TrimStartAppend(a[1..], y);
  }

  /** HyphenateSplitRun where `a` is empty: a run of whitespace at the very start becomes one hyphen. */
  lemma HyphenateRunAtStart(a: string, y: string, w: string, b: string)
    requires a == [] && y == w + b
    requires w != [] && forall i :: 0 <= i < |w| ==> IsJsSpace(w[i])
    requires b == [] || !IsJsSpace(b[0])
    ensures HyphenateWhitespace(a + y) == HyphenateWhitespace(a) + "-" + HyphenateWhitespace(b)
  {
    assert TrimStart(y[1..]) == b by {
      AppendHeadTail(w, b);
      TrimStartSkipsSpace(w[1..], b);
    }
    assert HyphenateWhitespace(y) == "-" + HyphenateWhitespace(b) by {
      AppendHeadTail(w, b);
    }
    assert a + y == y;
    assert HyphenateWhitespace(a) + "-" == "-";
  }

  /** The hyphens that `TrimLeadingHyphens` removes. */
  function LeadingHyphens(s: string): (h: string)
    ensures s == h + TrimLeadingHyphens(s)
    ensures AllHyphens(h)
  {
    s[..|s| - |TrimLeadingHyphens(s)|]
  }

  /** Hyphens in front are skipped: dropping leading hyphens of `h + c` drops those of `c`. */
  lemma {:induction false} TrimLeadingHyphensSkipsRun(h: string, c: string)
    requires AllHyphens(h)
    ensures TrimLeadingHyphens(h + c) == TrimLeadingHyphens(c)
  {
    if h != [] {
      AppendHeadTail(h, c);
      SliceAllHyphens(h, 1, |h|);
      TrimLeadingHyphensSkipsRun(h[1..], c);
    } else {
      assert h + c == c;
    }
  }

  /** Dropping leading hyphens stops inside `x` when `x` has a non-hyphen, so what follows stays. */
  lemma {:induction false} TrimLeadingHyphensAppend(x: string, y: string)
    requires TrimLeadingHyphens(x) != []
    ensures TrimLeadingHyphens(x + y) == TrimLeadingHyphens(x) + y
  {
    AppendHeadTail(x, y);
    if x[0] == '-' {
      TrimLeadingHyphensAppend(x[1..], y);
    }
  }

  /** A text that does not end in a hyphen keeps its last character when leading hyphens go. */
  lemma TrimLeadingHyphensKeepsLast(x: string)
    requires x != [] && x[|x| - 1] != '-'
    ensures TrimLeadingHyphens(x) != [] && TrimLeadingHyphens(x)[|TrimLeadingHyphens(x)| - 1] == x[|x| - 1]
  {
  }

  /**
   * A run of hyphens between a text that does not end in a hyphen and one
   * that does not start with one becomes one hyphen, and each side is
   * collapsed on its own. With CollapseHyphensUnchanged this fixes the
   * result on every text.
   */
  lemma CollapseHyphensSplit(a: string, h: string, b: string)
    requires a == [] || a[|a| - 1] != '-'
    requires h != [] && AllHyphens(h)
    requires b == [] || b[0] != '-'
    ensures CollapseHyphens(a + h + b) == CollapseHyphens(a) + "-" + CollapseHyphens(b)
  {
    ConcatAssoc(a, h, b);
    CollapseSplitRun(a, h + b, h, b);
  }

  /** CollapseHyphensSplit with the run and what follows it as one text `y == h + b`. */
  lemma {:induction false} CollapseSplitRun(a: string, y: string, h: string, b: string)
    requires a == [] || a[|a| - 1] != '-'
    requires h != [] && AllHyphens(h)
    requires b == [] || b[0] != '-'
    requires y == h + b
    ensures CollapseHyphens(a + y) == CollapseHyphens(a) + "-" + CollapseHyphens(b)
    decreases |a|, 1
  {
    if a == [] {
      CollapseRunAtStart(a, y, h, b);
    } else if a[0] == '-' {
      CollapseSplitAfterHyphen(a, y, h, b);
    } else {
      CollapseSplitAfterOther(a, y, h, b);
    }
  }

  /** CollapseSplitRun where `a` starts with a hyphen. */
  lemma {:induction false} CollapseSplitAfterHyphen(a: string, y: string, h: string, b: string)
    requires a != [] && a[0] == '-' && a[|a| - 1] != '-'
    requires h != [] && AllHyphens(h)
    requires b == [] || b[0] != '-'
    requires y == h + b
    ensures CollapseHyphens(a + y) == CollapseHyphens(a) + "-" + CollapseHyphens(b)
    decreases |a|, 0
  {
    var t := TrimLeadingHyphens(a[1..]);
    TrimLeadingHyphensKeepsLast(a[1..]);
    CollapseHyphenFirst(a, y);
    CollapseSplitRun(t, y, h, b);
    ConcatRegroup("-", CollapseHyphens(t), "-", CollapseHyphens(b));
  }

  /** CollapseSplitRun where `a` starts with another character. */
  lemma {:induction false} CollapseSplitAfterOther(a: string, y: string, h: string, b: string)
    requires a != [] && a[0] != '-' && a[|a| - 1] != '-'
    requires h != [] && AllHyphens(h)
    requires b == [] || b[0] != '-'
    requires y == h + b
    ensures CollapseHyphens(a + y) == CollapseHyphens(a) + "-" + CollapseHyphens(b)
    decreases |a|, 0
  {
    AppendHeadTail(a, y);
    CollapseSplitRun(a[1..], y, h, b);
    ConcatRegroup([a[0]], CollapseHyphens(a[1..]), "-", CollapseHyphens(b));
  }

  /** A text that starts with a hyphen and has another character: the run becomes one hyphen, alone and in front of `y`. */
  lemma CollapseHyphenFirst(a: string, y: string)
    requires a != [] && a[0] == '-' && TrimLeadingHyphens(a[1..]) != []
    ensures CollapseHyphens(a + y) == "-" + CollapseHyphens(TrimLeadingHyphens(a[1..]) + y)
    ensures CollapseHyphens(a) == "-" + CollapseHyphens(TrimLeadingHyphens(a[1..]))
  {
    AppendHeadTail(a, y);
    TrimLeadingHyphensAppend(a[1..], y);
  }

  /** CollapseSplitRun where `a` is empty: a run of hyphens at the very start becomes one hyphen. */
  lemma CollapseRunAtStart(a: string, y: string, h: string, b: string)
    requires a == [] && y == h + b
    requires h != [] && AllHyphens(h)
    requires b == [] || b[0] != '-'
    ensures CollapseHyphens(a + y) == CollapseHyphens(a) + "-" + CollapseHyphens(b)
  {
    assert TrimLeadingHyphens(y[1..]) == b by {
      AppendHeadTail(h, b);
      SliceAllHyphens(h, 1, |h|);
      TrimLeadingHyphensSkipsRun(h[1..], b);
    }
    assert CollapseHyphens(y) == "-" + CollapseHyphens(b) by {
      AppendHeadTail(h, b);
    }
    assert a + y == y;
    assert CollapseHyphens(a) + "-" == "-";
  }

  /** Dropping hyphens at the end stops inside `y` when it has a non-hyphen, so the text in front stays. */
  lemma {:induction false} TrimTrailingHyphensAppend(x: string, y: string)
    requires TrimTrailingHyphens(y) != []
    ensures TrimTrailingHyphens(x + y) == x + TrimTrailingHyphens(y)
    decreases |y|
  {
    if y[|y| - 1] == '-' {
      assert (x + y)[..|x + y| - 1] == x + y[..|y| - 1];
      TrimTrailingHyphensAppend(x, y[..|y| - 1]);
    } else {
      assert (x + y)[|x + y| - 1] == y[|y| - 1];
    }
  }

  /** Whitespace at the start becomes at most one leading hyphen. */
  lemma HyphenateLeadingSpace(m: string)
    ensures HyphenateWhitespace(m) == HyphenateWhitespace(TrimStart(m))
         || HyphenateWhitespace(m) == "-" + HyphenateWhitespace(TrimStart(m))
  {
    if m != [] && IsJsSpace(m[0]) {
      assert TrimStart(m) == TrimStart(m[1..]);
    }
  }

  /** Collapsing hyphen runs and dropping the leading hyphens may come in either order. */
  lemma CollapseThenTrimLeading(x: string)
    ensures TrimLeadingHyphens(CollapseHyphens(x)) == CollapseHyphens(TrimLeadingHyphens(x))
  {
    if x != [] && x[0] == '-' {
      var c := CollapseHyphens(TrimLeadingHyphens(x[1..]));
      assert CollapseHyphens(x) == "-" + c;
      assert ("-" + c)[1..] == c;
      assert TrimLeadingHyphens(c) == c;
    }
  }

  /** Leading whitespace makes no difference to the slug once leading hyphens are dropped. */
  lemma SlugMiddleStages(m: string)
    ensures TrimLeadingHyphens(CollapseHyphens(StripNonWord(HyphenateWhitespace(m))))
         == CollapseHyphens(TrimLeadingHyphens(StripNonWord(HyphenateWhitespace(TrimStart(m)))))
  {
    var q := HyphenateWhitespace(TrimStart(m));
    HyphenateLeadingSpace(m);
    assert ("-" + q)[0] == '-' && ("-" + q)[1..] == q;
    var r := StripNonWord(q);
    assert ("-" + r)[1..] == r;
    CollapseThenTrimLeading(StripNonWord(HyphenateWhitespace(m)));
  }

  /** The slug of a text, read off the text after its first stages. */
  lemma SlugOfStages(b: string)
    ensures Slugify(b) == TrimTrailingHyphens(CollapseHyphens(TrimLeadingHyphens(StripNonWord(
              HyphenateWhitespace(TrimStart(StripCombiningMarks(Trim(ToLower(b)))))))))
    ensures Slugify(b) != [] ==> Trim(ToLower(b)) != []
  {
    SlugMiddleStages(StripCombiningMarks(Trim(ToLower(b))));
  }

  /** Lower-casing two texts around whitespace lower-cases each text and keeps the whitespace. */
  lemma LowerSpacedJoin(a: string, w: string, b: string)
    requires forall i :: 0 <= i < |w| ==> IsJsSpace(w[i])
    ensures ToLower(a + w + b) == ToLower(a) + w + ToLower(b)
  {
    forall i | 0 <= i < |w|
      ensures !IsUpper(w[i])
    {
    }
    ToLowerNoUpper(w);
    ToLowerAppend(a + w, b);
    ToLowerAppend(a, w);
  }

  /** Two runs of whitespace make one run. */
  lemma SpaceRunsJoin(u: string, v: string)
    requires forall i :: 0 <= i < |u| ==> IsJsSpace(u[i])
    requires forall i :: 0 <= i < |v| ==> IsJsSpace(v[i])
    ensures forall i :: 0 <= i < |u + v| ==> IsJsSpace((u + v)[i])
  {
    forall i | |u| <= i < |u + v|
      ensures IsJsSpace((u + v)[i])
    {
      assert (u + v)[i] == v[i - |u|];
    }
  }

  /** Lower-casing leaves slug characters and whitespace as they are. */
  lemma LowerAfterSlug(a: string, w: string, b: string)
    requires AllSlugChars(a)
    requires forall i :: 0 <= i < |w| ==> IsJsSpace(w[i])
    ensures ToLower(a + w + b) == a + w + ToLower(b)
  {
    SlugCharsArePlain(a);
    ToLowerNoUpper(a);
    LowerSpacedJoin(a, w, b);
  }

  /** Slug characters followed by whitespace hold no combining mark. */
  lemma SlugSpaceHasNoMark(a: string, ws: string)
    requires AllSlugChars(a)
    requires forall i :: 0 <= i < |ws| ==> IsJsSpace(ws[i])
    ensures forall i :: 0 <= i < |a + ws| ==> !IsCombiningMark((a + ws)[i])
  {
    SlugCharsArePlain(a);
    forall i | |a| <= i < |a + ws|
      ensures !IsCombiningMark((a + ws)[i])
    {
      assert (a + ws)[i] == ws[i - |a|];
    }
  }

  /** Dropping marks keeps a mark-free text in front and works on the rest. */
  lemma StripCombiningMarksAfterPlain(p: string, s: string)
    requires forall i :: 0 <= i < |p| ==> !IsCombiningMark(p[i])
    ensures StripCombiningMarks(p + s) == p + StripCombiningMarks(s)
  {
    StripCombiningMarksAppend(p, s);
  }

  /** Trimming keeps slug characters and whitespace in front of a text that is not blank. */
  lemma TrimAfterSlug(a: string, w: string, s: string)
    requires AllSlugChars(a) && a != []
    requires Trim(s) != []
    ensures Trim(a + w + s) == a + (w + LeadingSpace(s)) + Trim(s)
  {
    SlugCharFacts(a[0]);
    AppendHeadTail(a, w);
    TrimAfterWord(a + w, s);
    ConcatAssoc(a, w, LeadingSpace(s));
  }

  /**
   * A slug and whitespace in front of `b` come through lower-casing,
   * trimming and dropping marks as they are, followed by the whitespace
   * that starts `b` and what `b` itself becomes.
   */
  lemma FirstStagesAfterSlug(a: string, w: string, b: string)
    requires IsSlug(a) && a != []
    requires forall i :: 0 <= i < |w| ==> IsJsSpace(w[i])
    requires Trim(ToLower(b)) != []
    ensures StripCombiningMarks(Trim(ToLower(a + w + b)))
         == a + (w + LeadingSpace(ToLower(b))) + StripCombiningMarks(Trim(ToLower(b)))
  {
    var lb := ToLower(b);
    var ws := w + LeadingSpace(lb);
    assert Trim(ToLower(a + w + b)) == a + ws + Trim(lb) by {
      LowerAfterSlug(a, w, b);
      TrimAfterSlug(a, w, lb);
    }
    assert forall i :: 0 <= i < |a + ws| ==> !IsCombiningMark((a + ws)[i]) by {
      SpaceRunsJoin(w, LeadingSpace(lb));
      SlugSpaceHasNoMark(a, ws);
    }
    StripCombiningMarksAfterPlain(a + ws, Trim(lb));
  }

  /** After a slug, a hyphen and `r`, collapsing and trimming at the start keep the slug and the hyphen. */
  lemma CollapseAfterSlug(a: string, r: string)
    requires IsSlug(a) && a != []
    ensures TrimLeadingHyphens(CollapseHyphens(a + "-" + r)) == a + "-" + CollapseHyphens(TrimLeadingHyphens(r))
  {
    var t := TrimLeadingHyphens(r);
    var h := "-" + LeadingHyphens(r);
    assert AllHyphens(h) by {
      assert forall i :: 1 <= i < |h| ==> h[i] == LeadingHyphens(r)[i - 1];
    }
    assert a + "-" + r == a + h + t;
    CollapseHyphensSplit(a, h, t);
    CollapseHyphensUnchanged(a);
    assert (a + "-" + CollapseHyphens(t))[0] == a[0];
  }

  /** After a slug, a run of whitespace and the rest, hyphenating gives the slug, one hyphen and the rest hyphenated. */
  lemma HyphenateAfterSlug(a: string, ws: string, m: string)
    requires IsSlug(a) && a != []
    requires ws != [] && forall i :: 0 <= i < |ws| ==> IsJsSpace(ws[i])
    ensures HyphenateWhitespace(a + ws + m) == a + "-" + HyphenateWhitespace(TrimStart(m))
  {
    var t := TrimStart(m);
    var run := ws + LeadingSpace(m);
    ConcatAssoc(ws, LeadingSpace(m), t);
    ConcatAssoc(a, ws, m);
    ConcatAssoc(a, run, t);
    assert forall i :: 0 <= i < |run| ==> IsJsSpace(run[i]) by {
      SpaceRunsJoin(ws, LeadingSpace(m));
    }
    assert HyphenateWhitespace(a) == a by {
      SlugCharsArePlain(a);
      HyphenateWhitespaceUnchanged(a);
    }
    assert !IsJsSpace(a[|a| - 1]) by {
      SlugCharFacts(a[|a| - 1]);
    }
    HyphenateSplit(a, run, t);
  }

  /** A slug and a hyphen in front survive the removal of other characters. */
  lemma StripNonWordAfterSlug(a: string, q: string)
    requires AllSlugChars(a)
    ensures StripNonWord(a + "-" + q) == a + "-" + StripNonWord(q)
  {
    SlugCharsArePlain(a);
    forall i | 0 <= i < |a + "-"|
      ensures IsWordChar((a + "-")[i]) || (a + "-")[i] == '-'
    {
      if i < |a| {
        assert (a + "-")[i] == a[i];
      }
    }
    StripNonWordAppend(a + "-", q);
  }

  /** After a slug and a run of whitespace, the middle stages give the slug, one hyphen and the rest. */
  lemma MiddleStagesAfterSlug(a: string, ws: string, m: string)
    requires IsSlug(a) && a != []
    requires ws != [] && forall i :: 0 <= i < |ws| ==> IsJsSpace(ws[i])
    ensures TrimLeadingHyphens(CollapseHyphens(StripNonWord(HyphenateWhitespace(a + ws + m))))
         == a + "-" + CollapseHyphens(TrimLeadingHyphens(StripNonWord(HyphenateWhitespace(TrimStart(m)))))
  {
    HyphenateAfterSlug(a, ws, m);
    var q := HyphenateWhitespace(TrimStart(m));
    StripNonWordAfterSlug(a, q);
    CollapseAfterSlug(a, StripNonWord(q));
  }

  /** After a slug and a run of whitespace, the stages from hyphenation on give the slug, one hyphen and the rest's slug. */
  lemma LastStagesAfterSlug(a: string, ws: string, m: string)
    requires IsSlug(a) && a != []
    requires ws != [] && forall i :: 0 <= i < |ws| ==> IsJsSpace(ws[i])
    requires TrimTrailingHyphens(CollapseHyphens(TrimLeadingHyphens(StripNonWord(HyphenateWhitespace(TrimStart(m)))))) != []
    ensures TrimTrailingHyphens(CollapseHyphens(TrimLeadingHyphens(StripNonWord(HyphenateWhitespace(TrimStart(a + ws + m))))))
         == a + "-" + TrimTrailingHyphens(CollapseHyphens(TrimLeadingHyphens(StripNonWord(HyphenateWhitespace(TrimStart(m))))))
  {
    assert TrimStart(a + ws + m) == a + ws + m by {
      SlugCharFacts(a[0]);
      ConcatAssoc(a, ws, m);
      AppendHeadTail(a, ws + m);
    }
    MiddleStagesAfterSlug(a, ws, m);
    var z := CollapseHyphens(TrimLeadingHyphens(StripNonWord(HyphenateWhitespace(TrimStart(m)))));
    TrimTrailingHyphensAppend(a + "-", z);
  }

  /**
   * A non-empty slug followed by a run of whitespace and any text with a
   * non-empty slug becomes the slug, one hyphen and that text's slug.
   * Applied word by word, every inner whitespace run becomes one hyphen.
   */
  lemma WhitespaceBecomesHyphen(a: string, w: string, b: string)
    requires IsSlug(a) && a != []
    requires w != [] && forall i :: 0 <= i < |w| ==> IsJsSpace(w[i])
    requires Slugify(b) != []
    ensures Slugify(a + w + b) == a + "-" + Slugify(b)
  {
    var lb := ToLower(b);
    var m := StripCombiningMarks(Trim(lb));
    var ws := w + LeadingSpace(lb);
    assert StripCombiningMarks(Trim(ToLower(a + w + b))) == a + ws + m by {
      SlugOfStages(b);
      FirstStagesAfterSlug(a, w, b);
    }
    assert forall i :: 0 <= i < |ws| ==> IsJsSpace(ws[i]) by {
      SpaceRunsJoin(w, LeadingSpace(lb));
    }
    SlugOfStages(b);
    SlugOfStages(a + w + b);
    LastStagesAfterSlug(a, ws, m);
  }

  /** Letter case does not matter: a text has the slug of its lower-case form. */
  lemma SlugifyIgnoresCase(text: string)
    ensures Slugify(text) == Slugify(ToLower(text))
  {
    ToLowerIdempotent(text);
  }

  /**
   * Two words whose lower-case forms are slugs, separated by a run of
   * whitespace, slugify to the lower-case words joined by one hyphen
   * ("Hot  Sauce" becomes "hot-sauce").
   */
  lemma WordsJoinedByHyphen(a: string, w: string, b: string)
    requires IsSlug(ToLower(a)) && IsSlug(ToLower(b)) && a != [] && b != []
    requires w != [] && forall i :: 0 <= i < |w| ==> IsJsSpace(w[i])
    ensures Slugify(a + w + b) == ToLower(a) + "-" + ToLower(b)
  {
    LowerSpacedJoin(a, w, b);
    SlugifyIgnoresCase(a + w + b);
    SlugifyFixesSlugs(ToLower(b));
    WhitespaceBecomesHyphen(ToLower(a), w, ToLower(b));
  }

  /** A text without letters, digits or `_` has the empty slug. */
  lemma NoWordCharsEmptySlug(text: string)
    requires NoWordChar(text)
    ensures Slugify(text) == ""
  {
    var lower := ToLower(text);
    assert NoWordChar(lower);
    TrimKeeps(lower);
    var spaced := StripCombiningMarks(Trim(lower));
    HyphenateKeepsNoWordChar(spaced);
    var words := StripNonWord(HyphenateWhitespace(spaced));
    CollapseHyphensOfHyphens(words);
  }
}
