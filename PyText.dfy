/**
 * The handful of Python string operations the discussion analysis relies on,
 * over ASCII: `str.lower`, `in`, `str.find`, `str.split(sep)[1]`, `str.strip`
 * and `sep.join`.
 */
module PyText {
  import opened Wrappers

  // ---------------------------------------------------------------- lower()

  /** An ASCII capital letter: the only characters `lower` changes here. */
  predicate IsUpper(c: char) { 'A' <= c <= 'Z' }

  function LowerChar(c: char): (d: char)
    ensures !IsUpper(d)
    ensures !IsUpper(c) ==> d == c
  {
    if IsUpper(c) then (c as int + 32) as char else c
  }

  /** `s.lower()`, restricted to ASCII letters. */
  function Lower(s: string): (r: string)
    ensures |r| == |s|
    ensures forall i :: 0 <= i < |s| ==> r[i] == LowerChar(s[i])
    ensures forall i :: 0 <= i < |r| ==> !IsUpper(r[i])
  {
    seq(|s|, i requires 0 <= i < |s| => LowerChar(s[i]))
  }

  /** Lower-casing works character by character, so it distributes over concatenation. */
  lemma LowerConcat(a: string, b: string)
    ensures Lower(a + b) == Lower(a) + Lower(b)
  {
    var x, y := Lower(a + b), Lower(a) + Lower(b);
    forall i | 0 <= i < |x|
      ensures x[i] == y[i]
    {
      if i < |a| {
        assert (a + b)[i] == a[i];
      } else {
        assert (a + b)[i] == b[i - |a|];
      }
    }
  }

  /** A slice of a text without capitals has none either. */
  lemma SliceKeepsLowered(s: string, lo: nat, r: string)
    requires lo + |r| <= |s| && r == s[lo..lo + |r|]
    requires forall i :: 0 <= i < |s| ==> !IsUpper(s[i])
    ensures forall i :: 0 <= i < |r| ==> !IsUpper(r[i])
  {
    forall i | 0 <= i < |r|
      ensures !IsUpper(r[i])
    {
      assert r[i] == s[lo + i];
    }
  }

  /** Lower-casing maps every occurrence of a pattern to an occurrence of the lowered pattern. */
  lemma LowerKeepsOccurrence(s: string, pat: string, i: nat)
    requires OccursAt(s, pat, i)
    ensures OccursAt(Lower(s), Lower(pat), i)
  {
    assert forall k :: 0 <= k < |pat| ==> Lower(s)[i + k] == LowerChar(s[i + k]) == LowerChar(pat[k]);
  }

  /** A pattern holding a capital letter never occurs in lowered text. */
  lemma NoCapitalInLowered(s: string, pat: string, k: nat)
    requires k < |pat| && IsUpper(pat[k])
    ensures !Contains(Lower(s), pat)
  {
    var low := Lower(s);
    forall i | 0 <= i && i + |pat| <= |low|
      ensures !OccursAt(low, pat, i)
    {
      assert low[i..i + |pat|][k] == low[i + k];
    }
  }

  // --------------------------------------------------------- in and find()

  /** `pat` occurs in `s` starting at index `i`. */
  ghost predicate OccursAt(s: string, pat: string, i: int)
  {
    0 <= i && i + |pat| <= |s| && s[i..i + |pat|] == pat
  }

  /** `s.find(pat, from)`: the first occurrence of `pat` starting at or after `from`. */
  function FindFrom(s: string, pat: string, from: nat): (r: Option<nat>)
    ensures r.Some? ==> from <= r.value && OccursAt(s, pat, r.value)
    ensures r.Some? ==> forall j :: from <= j < r.value ==> !OccursAt(s, pat, j)
    ensures r.None? ==> forall j :: from <= j ==> !OccursAt(s, pat, j)
    decreases |s| - from
  {
    if from + |pat| > |s| then None
    else if s[from..from + |pat|] == pat then Some(from)
    else FindFrom(s, pat, from + 1)
  }

  /** `pat in s`: `pat` occurs somewhere in `s`. */
  predicate Contains(s: string, pat: string)
    ensures Contains(s, pat) <==> exists i :: OccursAt(s, pat, i)
  {
    var r := FindFrom(s, pat, 0);
    assert r.None? ==> forall j :: 0 <= j ==> !OccursAt(s, pat, j);
    r.Some?
  }

  /** A pattern holding a character the text lacks does not occur in it. */
  lemma AbsentCharNoOccurrence(s: string, pat: string, k: nat)
    requires k < |pat| && pat[k] !in s
    ensures !Contains(s, pat)
  {
    forall i | 0 <= i && i + |pat| <= |s|
      ensures !OccursAt(s, pat, i)
    {
      assert s[i..i + |pat|][k] == s[i + k];
      assert s[i + k] in s;
    }
  }

  /** Lower-casing brings in a lowercase character only where it or its capital stood. */
  lemma LowerAvoids(s: string, c: char, cap: char)
    requires c !in s && !IsUpper(c)
    requires 'a' <= c <= 'z' ==> cap !in s && cap as int + 32 == c as int
    ensures c !in Lower(s)
  {
    forall i | 0 <= i < |s|
      ensures Lower(s)[i] != c
    {
      assert s[i] in s;
    }
  }

  /** The index of the first occurrence of `pat` in `s`. */
  function FirstIndex(s: string, pat: string): (i: nat)
    requires Contains(s, pat)
    ensures OccursAt(s, pat, i)
    ensures forall j :: 0 <= j < i ==> !OccursAt(s, pat, j)
  {
    FindFrom(s, pat, 0).value
  }

  // ------------------------------------------------------- split(sep)[1]

  /**
   * `s.split(sep)[1]` where `sep` occurs in `s`: the text after the first
   * occurrence of `sep`, up to the next occurrence (searched from the end of
   * the first one) or to the end of `s`.
   */
  function SplitSecond(s: string, sep: string): (r: string)
    requires |sep| > 0 && Contains(s, sep)
    ensures var b := FirstIndex(s, sep) + |sep|;
            && b + |r| <= |s| && s[b..b + |r|] == r
            && (b + |r| == |s| || OccursAt(s, sep, b + |r|))
            && forall j :: b <= j < b + |r| ==> !OccursAt(s, sep, j)
  {
    var b := FirstIndex(s, sep) + |sep|;
    match FindFrom(s, sep, b)
    case None => s[b..]
    case Some(e) => s[b..e]
  }

  /** A slice of `s` in which no occurrence of `sep` starts holds no occurrence of `sep`. */
  lemma NoOccurrenceInSlice(s: string, sep: string, lo: nat, hi: nat, piece: string)
    requires lo <= hi <= |s| && piece == s[lo..hi]
    requires forall j :: lo <= j < hi ==> !OccursAt(s, sep, j)
    requires |sep| > 0
    ensures !Contains(piece, sep)
  {
    forall p | 0 <= p && p + |sep| <= |piece|
      ensures !OccursAt(piece, sep, p)
    {
      assert !OccursAt(s, sep, lo + p);
      var w, v := piece[p..p + |sep|], s[lo + p..lo + p + |sep|];
      forall k | 0 <= k < |sep|
        ensures w[k] == v[k]
      {
        assert w[k] == piece[p + k] == s[lo + p + k];
      }
      assert w == v;
    }
  }

  // --------------------------------------------------------------- strip()

  /** The characters Python's `str.isspace` accepts, within ASCII: tab to carriage return, and the separators 0x1C to 0x1F with the space. */
  predicate IsSpace(c: char)
  {
    ('\t' <= c <= '\r') || ('\U{1C}' <= c <= ' ')
  }

  /** How many whitespace characters `s` starts with. */
  function LeadingSpaces(s: string): (n: nat)
    ensures n <= |s|
    ensures forall k :: 0 <= k < n ==> IsSpace(s[k])
    ensures n < |s| ==> !IsSpace(s[n])
  {
    if |s| > 0 && IsSpace(s[0]) then 1 + LeadingSpaces(s[1..]) else 0
  }

  /** How many whitespace characters `s` ends with. */
  function TrailingSpaces(s: string): (n: nat)
    ensures n <= |s|
    ensures forall k :: |s| - n <= k < |s| ==> IsSpace(s[k])
    ensures n < |s| ==> !IsSpace(s[|s| - n - 1])
  {
    if |s| > 0 && IsSpace(s[|s| - 1]) then 1 + TrailingSpaces(s[..|s| - 1]) else 0
  }

  /** `s` neither starts nor ends with whitespace. */
  predicate Trimmed(s: string)
  {
    |s| > 0 ==> !IsSpace(s[0]) && !IsSpace(s[|s| - 1])
  }

  /** `s.strip()`: `s` without its leading and trailing whitespace. */
  function Strip(s: string): (r: string)
    ensures var a := LeadingSpaces(s);
            && a + |r| <= |s| && s[a..a + |r|] == r
            && (forall k :: 0 <= k < a ==> IsSpace(s[k]))
            && (forall k :: a + |r| <= k < |s| ==> IsSpace(s[k]))
    ensures Trimmed(r)
  {
    var a := LeadingSpaces(s);
    var rest := s[a..];
    rest[..|rest| - TrailingSpaces(rest)]
  }

  lemma StripIsSlice(s: string)
    ensures LeadingSpaces(s) + |Strip(s)| <= |s|
    ensures s[LeadingSpaces(s)..LeadingSpaces(s) + |Strip(s)|] == Strip(s)
  {
  }

  // ------------------------------------------------------------ sep.join()

  /**
   * `sep.join(parts)`: as long as the parts together plus one separator
   * between each two.
   */
  function Join(parts: seq<string>, sep: string): (r: string)
    ensures |parts| > 0 ==> |r| == TotalLength(parts) + (|parts| - 1) * |sep|
  {
    if |parts| == 0 then ""
    else if |parts| == 1 then parts[0]
    else
      var init, last := parts[..|parts| - 1], parts[|parts| - 1];
      TotalLengthSnoc(init, last);
      assert init + [last] == parts;
      Join(init, sep) + sep + last
  }

  /** Every part occurs verbatim in the joined text. */
  lemma {:induction false} JoinContainsPart(parts: seq<string>, sep: string, i: nat)
    requires i < |parts|
    ensures exists k :: OccursAt(Join(parts, sep), parts[i], k)
  {
    var n := |parts|;
    var j := Join(parts, sep);
    if n == 1 {
      assert OccursAt(j, parts[i], 0);
    } else if i == n - 1 {
      assert j[|j| - |parts[i]|..] == parts[i];
      assert OccursAt(j, parts[i], |j| - |parts[i]|);
    } else {
      var init := parts[..n - 1];
      JoinContainsPart(init, sep, i);
      var k :| OccursAt(Join(init, sep), init[i], k);
      assert j[k..k + |parts[i]|] == Join(init, sep)[k..k + |parts[i]|];
      assert OccursAt(j, parts[i], k);
    }
  }

  /** The combined length of `parts`. */
  function TotalLength(parts: seq<string>): nat
  {
    if |parts| == 0 then 0 else |parts[0]| + TotalLength(parts[1..])
  }

  lemma {:induction false} TotalLengthSnoc(parts: seq<string>, x: string)
    ensures TotalLength(parts + [x]) == TotalLength(parts) + |x|
  {
    if |parts| > 0 {
      assert (parts + [x])[1..] == parts[1..] + [x];
      TotalLengthSnoc(parts[1..], x);
    }
  }
}
