/** The string primitives the forms rely on: JavaScript's `\s` class,
    `String.prototype.trim` and `String.prototype.toLowerCase`, restricted to
    ASCII. */
module Text {
  import opened Wrappers

  /** ASCII white space: space, tab, line feed, vertical tab, form feed and
      carriage return. */
  predicate IsSpace(c: char) {
    c == ' ' || c == '\t' || c == '\n' || c == '\U{B}' || c == '\U{C}' || c == '\r'
  }

  predicate NoSpace(s: string) {
    forall i :: 0 <= i < |s| ==> !IsSpace(s[i])
  }

  predicate AllSpace(s: string) {
    forall i :: 0 <= i < |s| ==> IsSpace(s[i])
  }

  /** The end of the run of white space in `s` that starts at `i`. */
  function SpaceRunEnd(s: string, i: nat): (j: nat)
    requires i <= |s|
    ensures i <= j <= |s|
    ensures forall p :: i <= p < j ==> IsSpace(s[p])
    ensures j == |s| || !IsSpace(s[j])
    decreases |s| - i
  {
    if i < |s| && IsSpace(s[i]) then SpaceRunEnd(s, i + 1) else i
  }

  /** The start of the run of white space in `s` that ends at `j`. */
  function SpaceRunStart(s: string, j: nat): (i: nat)
    requires j <= |s|
    ensures i <= j
    ensures forall p :: i <= p < j ==> IsSpace(s[p])
    ensures i == 0 || !IsSpace(s[i - 1])
  {
    if j > 0 && IsSpace(s[j - 1]) then SpaceRunStart(s, j - 1) else j
  }

  /** The number of white-space characters `s` starts with. */
  function LeadingSpace(s: string): (n: nat)
    ensures n <= |s|
    ensures forall i :: 0 <= i < n ==> IsSpace(s[i])
    ensures n == |s| || !IsSpace(s[n])
  {
    SpaceRunEnd(s, 0)
  }

  /** The number of white-space characters `s` ends with. */
  function TrailingSpace(s: string): (n: nat)
    ensures n <= |s|
    ensures forall i :: |s| - n <= i < |s| ==> IsSpace(s[i])
    ensures n == |s| || !IsSpace(s[|s| - n - 1])
  {
    |s| - SpaceRunStart(s, |s|)
  }

  /** `String.prototype.trim`: white space removed from both ends. The result
      neither starts nor ends with white space, it is the slice of `s` that
      starts after the leading white space, and only white space lies outside
      that slice. */
  function Trim(s: string): (r: string)
    ensures var k := LeadingSpace(s);
      && k + |r| <= |s|
      && r == s[k..k + |r|]
      && (forall i :: k + |r| <= i < |s| ==> IsSpace(s[i]))
    ensures r == [] || (!IsSpace(r[0]) && !IsSpace(r[|r| - 1]))
  {
    var k := LeadingSpace(s);
    if k == |s| then []
    else
      var m := TrailingSpace(s);
      assert m < |s| - k by {
        assert !IsSpace(s[k]);
      }
      s[k..|s| - m]
  }

  /** A string is trimmed to nothing exactly when it is all white space. */
  lemma TrimEmptyIff(s: string)
    ensures Trim(s) == [] <==> AllSpace(s)
  {
  }

  /** A string without white space is its own trim. */
  lemma TrimNoSpace(s: string)
    requires NoSpace(s)
    ensures Trim(s) == s
  {
    assert LeadingSpace(s) == 0;
  }

  /** Trimming twice is trimming once. */
  lemma TrimIdempotent(s: string)
    ensures Trim(Trim(s)) == Trim(s)
  {
    var r := Trim(s);
    if r != [] {
      assert LeadingSpace(r) == 0;
      assert TrailingSpace(r) == 0;
    }
  }

  predicate IsUpper(c: char) {
    'A' <= c <= 'Z'
  }

  /** ASCII lower-casing of one character. */
  function LowerChar(c: char): char {
    if IsUpper(c) then (c as int + 32) as char else c
  }

  /** `String.prototype.toLowerCase` on ASCII: every character is lower-cased
      in place, so length and positions are kept. */
  function Lower(s: string): (r: string)
    ensures |r| == |s|
    ensures forall i :: 0 <= i < |s| ==> r[i] == LowerChar(s[i])
  {
    seq(|s|, i requires 0 <= i < |s| => LowerChar(s[i]))
  }

  /** Lower-casing leaves no upper-case letter behind and touches nothing
      else, so doing it twice changes nothing. */
  lemma LowerIdempotent(s: string)
    ensures Lower(Lower(s)) == Lower(s)
    ensures forall i :: 0 <= i < |s| ==> !IsUpper(Lower(s)[i])
    ensures forall i :: 0 <= i < |s| && !IsUpper(s[i]) ==> Lower(s)[i] == s[i]
  {
  }

  /** The leading white-space count is fixed by its three properties. */
  lemma LeadingSpaceUnique(s: string, n: nat)
    requires n <= |s|
    requires forall i :: 0 <= i < n ==> IsSpace(s[i])
    requires n == |s| || !IsSpace(s[n])
    ensures LeadingSpace(s) == n
  {
  }

  /** The trailing white-space count is fixed by its three properties. */
  lemma TrailingSpaceUnique(s: string, n: nat)
    requires n <= |s|
    requires forall i :: |s| - n <= i < |s| ==> IsSpace(s[i])
    requires n == |s| || !IsSpace(s[|s| - n - 1])
    ensures TrailingSpace(s) == n
  {
  }

  /** Lower-casing a slice is slicing the lower-cased string. */
  lemma LowerSlice(s: string, lo: nat, hi: nat)
    requires lo <= hi <= |s|
    ensures Lower(s[lo..hi]) == Lower(s)[lo..hi]
  {
  }

  /** Lower-casing keeps the leading white space. */
  lemma LeadingSpaceOfLower(s: string)
    ensures LeadingSpace(Lower(s)) == LeadingSpace(s)
  {
    LowerKeeps(s, ' ');
    LeadingSpaceUnique(Lower(s), LeadingSpace(s));
  }

  /** Lower-casing keeps the trailing white space. */
  lemma TrailingSpaceOfLower(s: string)
    ensures TrailingSpace(Lower(s)) == TrailingSpace(s)
  {
    LowerKeeps(s, ' ');
    TrailingSpaceUnique(Lower(s), TrailingSpace(s));
  }

  /** `Trim` as one slice: from after the leading white space to before the
      trailing white space, or nothing when all of `s` is white space. */
  lemma TrimAsSlice(s: string)
    ensures LeadingSpace(s) == |s| ==> Trim(s) == []
    ensures LeadingSpace(s) < |s| ==>
      LeadingSpace(s) <= |s| - TrailingSpace(s) && Trim(s) == s[LeadingSpace(s)..|s| - TrailingSpace(s)]
  {
  }

  /** Lower-casing keeps white space where it is, so it commutes with
      trimming. */
  lemma TrimOfLower(s: string)
    ensures Trim(Lower(s)) == Lower(Trim(s))
  {
    var l := Lower(s);
    LeadingSpaceOfLower(s);
    TrailingSpaceOfLower(s);
    TrimAsSlice(s);
    TrimAsSlice(l);
    var k, m := LeadingSpace(s), TrailingSpace(s);
    if k < |s| {
      LowerSlice(s, k, |s| - m);
    }
  }

  /** Lower-casing does not turn any character into white space or into
      `c` when `c` is not an upper-case letter, and does not change such `c`. */
  lemma LowerKeeps(s: string, c: char)
    requires !IsUpper(c) && ('a' > c || c > 'z')
    ensures forall i :: 0 <= i < |s| ==> (Lower(s)[i] == c <==> s[i] == c)
    ensures forall i :: 0 <= i < |s| ==> (IsSpace(Lower(s)[i]) <==> IsSpace(s[i]))
  {
  }

  /** The first position of `c` in `s`. */
  function IndexOf(s: string, c: char): (r: Option<nat>)
    ensures r.Some? ==> r.value < |s| && s[r.value] == c
    ensures r.Some? ==> forall j :: 0 <= j < r.value ==> s[j] != c
    ensures r.None? ==> forall j :: 0 <= j < |s| ==> s[j] != c
  {
    if s == [] then None
    else if s[0] == c then Some(0)
    else
      match IndexOf(s[1..], c)
      case None => None
      case Some(i) => Some(i + 1)
  }

  /** The last position of `c` in `s`. */
  function LastIndexOf(s: string, c: char): (r: Option<nat>)
    ensures r.Some? ==> r.value < |s| && s[r.value] == c
    ensures r.Some? ==> forall j :: r.value < j < |s| ==> s[j] != c
    ensures r.None? ==> forall j :: 0 <= j < |s| ==> s[j] != c
  {
    if s == [] then None
    else if s[|s| - 1] == c then Some(|s| - 1)
    else
      var r := LastIndexOf(s[..|s| - 1], c);
      assert forall j :: 0 <= j < |s| - 1 ==> s[j] == s[..|s| - 1][j];
      r
  }
}
