/** The locale-prefixed links of the storefront: `/{locale}/{section}/{slug}`. */
module Links {
  predicate NoSlash(s: string) {
    forall i :: 0 <= i < |s| ==> s[i] != '/'
  }

  function LocalePath(locale: string, section: string, slug: string): string {
    "/" + locale + "/" + section + "/" + slug
  }

  lemma SlashAfter(a: string, r: string)
    ensures (a + "/" + r)[|a|] == '/'
    ensures forall i :: 0 <= i < |a| ==> (a + "/" + r)[i] == a[i]
  {
  }

  /** The first segment of `"/" + a + "/" + rest` is `a` when `a` has no slash. */
  lemma {:induction false} SegmentDetermined(a: string, ra: string, b: string, rb: string)
    requires NoSlash(a) && NoSlash(b)
    requires a + "/" + ra == b + "/" + rb
    ensures a == b && ra == rb
  {
    var x, y := a + "/" + ra, b + "/" + rb;
    SlashAfter(a, ra);
    SlashAfter(b, rb);
    if |a| != |b| {
      assert false;
    }
    assert a == x[..|a|] && b == y[..|b|];
    assert ra == x[|a| + 1..] && rb == y[|b| + 1..];
  }

  /**
   * A link names its locale, its section and its slug: two links are equal
   * only when all three are, as long as locale and section have no slash.
   */
  lemma LocalePathInjective(l1: string, sec1: string, s1: string, l2: string, sec2: string, s2: string)
    requires NoSlash(l1) && NoSlash(l2) && NoSlash(sec1) && NoSlash(sec2)
    requires LocalePath(l1, sec1, s1) == LocalePath(l2, sec2, s2)
    ensures l1 == l2 && sec1 == sec2 && s1 == s2
  {
    var p1, p2 := LocalePath(l1, sec1, s1), LocalePath(l2, sec2, s2);
    assert p1[1..] == l1 + "/" + (sec1 + "/" + s1);
    assert p2[1..] == l2 + "/" + (sec2 + "/" + s2);
    SegmentDetermined(l1, sec1 + "/" + s1, l2, sec2 + "/" + s2);
    SegmentDetermined(sec1, s1, sec2, s2);
  }
}
