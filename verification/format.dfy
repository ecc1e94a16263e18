/** `capitalize`: a text with its first letter upper-case and the rest lower-case. */
module Format {
  import opened Text

  /** `capitalize`: only the letter case changes; the first character is not lower-case, the rest not upper-case. */
  function Capitalize(s: string): (r: string)
    ensures |r| == |s|
    ensures ToLower(r) == ToLower(s)
    ensures r != [] ==> !IsLower(r[0])
    ensures forall i :: 1 <= i < |r| ==> !IsUpper(r[i])
  {
    if s == [] then ""
    else
      ToLowerIdempotent(s[1..]);
      ToLowerIdempotent(s);
      var r := [UpperChar(s[0])] + ToLower(s[1..]);
      assert ToLower(r)[0] == ToLower(s)[0];
      assert forall i :: 1 <= i < |r| ==> ToLower(r)[i] == ToLower(s)[i];
      r
  }

  /** Texts that differ only in letter case capitalize alike. */
  lemma CapitalizeIgnoresCase(a: string, b: string)
    requires ToLower(a) == ToLower(b)
    ensures Capitalize(a) == Capitalize(b)
  {
    assert |a| == |ToLower(a)| == |b|;
    if a != [] {
      assert LowerChar(a[0]) == LowerChar(b[0]);
      assert UpperChar(a[0]) == UpperChar(b[0]);
      assert ToLower(a[1..]) == ToLower(a)[1..] == ToLower(b)[1..] == ToLower(b[1..]);
    }
  }

  /** Capitalizing a capitalized text changes nothing. */
  lemma CapitalizeIdempotent(s: string)
    ensures Capitalize(Capitalize(s)) == Capitalize(s)
  {
    CapitalizeIgnoresCase(Capitalize(s), s);
  }

  lemma CapitalizeExample()
    ensures Capitalize("hELLO") == "Hello"
  {
    assert "hELLO"[1..] == "ELLO";
    assert ToLower("ELLO") == "ello";
  }
}
