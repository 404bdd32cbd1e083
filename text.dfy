/** The string helpers the Go code takes from its standard library, restricted
    to ASCII: `strings.ToLower`, `strings.Contains`, `strings.Join`,
    `strings.TrimSpace`, and the "first k bytes plus ..." truncation that the
    table renderers write out by hand. */
module Text {

  predicate IsUpper(c: char) { 'A' <= c <= 'Z' }
  predicate IsLower(c: char) { 'a' <= c <= 'z' }

  function LowerChar(c: char): char
  {
    if IsUpper(c) then (c as int - 'A' as int + 'a' as int) as char else c
  }

  function UpperChar(c: char): char
  {
    if IsLower(c) then (c as int - 'a' as int + 'A' as int) as char else c
  }

  /** ASCII `strings.ToLower`: every character is mapped on its own. */
  function ToLower(s: string): (r: string)
    ensures |r| == |s|
    ensures forall i :: 0 <= i < |s| ==> r[i] == LowerChar(s[i])
  {
    if s == [] then [] else [LowerChar(s[0])] + ToLower(s[1..])
  }

  function ToUpper(s: string): (r: string)
    ensures |r| == |s|
    ensures forall i :: 0 <= i < |s| ==> r[i] == UpperChar(s[i])
  {
    if s == [] then [] else [UpperChar(s[0])] + ToUpper(s[1..])
  }

  /** Lower-casing forgets the case a string was written in. */
  lemma ToLowerForgetsCase(s: string)
    ensures ToLower(ToUpper(s)) == ToLower(s)
    ensures ToLower(ToLower(s)) == ToLower(s)
  {
    forall i | 0 <= i < |s|
      ensures ToLower(ToUpper(s))[i] == ToLower(s)[i] && ToLower(ToLower(s))[i] == ToLower(s)[i]
    {
      LowerCharForgetsCase(s[i]);
    }
  }

  lemma LowerCharForgetsCase(c: char)
    ensures LowerChar(UpperChar(c)) == LowerChar(c)
    ensures LowerChar(LowerChar(c)) == LowerChar(c)
  {
  }

  predicate HasPrefix(s: string, prefix: string)
  {
    |prefix| <= |s| && s[..|prefix|] == prefix
  }

  /** `sub` occurs in `s` starting at position `i`. */
  predicate OccursAt(s: string, sub: string, i: int)
  {
    0 <= i && i + |sub| <= |s| && s[i..i + |sub|] == sub
  }

  /** `strings.Contains`: `sub` is a substring of `s`. */
  function Contains(s: string, sub: string): (r: bool)
    ensures r <==> exists i :: OccursAt(s, sub, i)
    decreases |s|
  {
    if HasPrefix(s, sub) then
      assert OccursAt(s, sub, 0);
      true
    else if s == [] then
      false
    else
      var rest := Contains(s[1..], sub);
      if rest then
        var i :| OccursAt(s[1..], sub, i);
        assert OccursAt(s, sub, i + 1) by { assert s[1..][i..i + |sub|] == s[i + 1..i + 1 + |sub|]; }
        true
      else
        assert forall i :: OccursAt(s, sub, i) ==> i == 0 || OccursAt(s[1..], sub, i - 1) by {
          forall i | OccursAt(s, sub, i) && i != 0 ensures OccursAt(s[1..], sub, i - 1) {
            assert s[1..][i - 1..i - 1 + |sub|] == s[i..i + |sub|];
          }
        }
        false
  }

  /** Every string contains the empty string. */
  lemma ContainsEmpty(s: string)
    ensures Contains(s, "")
  {
    assert OccursAt(s, "", 0);
  }

  /** The case-insensitive containment both MatchesSearch functions use:
      both sides lower-cased, then `strings.Contains`. */
  predicate ContainsFold(s: string, query: string)
  {
    Contains(ToLower(s), ToLower(query))
  }

  /** Queries that lower-case alike give the same answer. */
  lemma ContainsFoldCaseBlind(s: string, query: string)
    ensures ContainsFold(s, ToUpper(query)) == ContainsFold(s, query)
    ensures ContainsFold(s, ToLower(query)) == ContainsFold(s, query)
  {
    ToLowerForgetsCase(query);
  }

  /** `strings.Join`. */
  function Join(parts: seq<string>, sep: string): (r: string)
    ensures |parts| == 1 ==> r == parts[0]
    ensures (exists i :: 0 <= i < |parts| && parts[i] != "") ==> r != ""
    ensures parts == [] ==> r == ""
  {
    if parts == [] then ""
    else if |parts| == 1 then parts[0]
    else
      parts[0] + sep + Join(parts[1..], sep)
  }

  /** The ASCII white space that `strings.TrimSpace` removes. */
  predicate IsSpace(c: char)
  {
    c == ' ' || c == '\t' || c == '\n' || c == '\r' || c == '\U{0B}' || c == '\U{0C}'
  }

  /** The first index at or after `i` that does not hold white space. */
  function SkipSpace(s: string, i: nat): (k: nat)
    requires i <= |s|
    ensures i <= k <= |s|
    ensures forall j :: i <= j < k ==> IsSpace(s[j])
    ensures k == |s| || !IsSpace(s[k])
    decreases |s| - i
  {
    if i < |s| && IsSpace(s[i]) then SkipSpace(s, i + 1) else i
  }

  /** Walks back from the end index `k`, but not below `lo`, over white
      space: the result is the end of `s[lo..k]` without trailing spaces. */
  function SkipSpaceBack(s: string, lo: nat, k: nat): (e: nat)
    requires lo <= k <= |s|
    ensures lo <= e <= k
    ensures forall j :: e <= j < k ==> IsSpace(s[j])
    ensures e == lo || !IsSpace(s[e - 1])
    decreases k
  {
    if lo < k && IsSpace(s[k - 1]) then SkipSpaceBack(s, lo, k - 1) else k
  }

  /** `strings.TrimSpace`: the result is a contiguous slice of `s`, only white
      space is cut from either end, and the result neither starts nor ends with
      white space. */
  function TrimSpace(s: string): (r: string)
    ensures exists i, e ::
      (0 <= i <= e <= |s| && r == s[i..e]
       && (forall j :: 0 <= j < i ==> IsSpace(s[j]))
       && (forall j :: e <= j < |s| ==> IsSpace(s[j])))
    ensures r == [] || (!IsSpace(r[0]) && !IsSpace(r[|r| - 1]))
  {
    var i := SkipSpace(s, 0);
    var e := SkipSpaceBack(s, i, |s|);
    s[i..e]
  }

  /** Trimming twice is trimming once. */
  lemma TrimSpaceIdempotent(s: string)
    ensures TrimSpace(TrimSpace(s)) == TrimSpace(s)
  {
    var t := TrimSpace(s);
    assert SkipSpace(t, 0) == 0;
    assert SkipSpaceBack(t, 0, |t|) == |t|;
  }

  /** Shortens `s` for a table column of `width` bytes: a longer `s` becomes
      its first `width - 3` bytes followed by "...". */
  function Ellipsize(s: string, width: nat): (r: string)
    requires width >= 3
    ensures |r| <= width
    ensures |s| <= width ==> r == s
    ensures |s| > width ==> |r| == width && HasPrefix(s, r[..width - 3]) && r[width - 3..] == "..."
  {
    if |s| > width then s[..width - 3] + "..." else s
  }
}
