/** Searching a sequence for a subsequence, and how much of a text may still begin one. */
module Search {
  import opened Basics

  /** `needle` stands in `haystack` at position `i`. */
  ghost predicate OccursAt<T>(haystack: seq<T>, needle: seq<T>, i: int) {
    0 <= i && i + |needle| <= |haystack| && haystack[i..i + |needle|] == needle
  }

  /** The first occurrence at or after `from`. */
  function FindFrom<T(==)>(haystack: seq<T>, needle: seq<T>, from: nat): (r: Option<nat>)
    requires needle != []
    ensures r.Some? ==> from <= r.value && OccursAt(haystack, needle, r.value)
    ensures forall i | from <= i :: OccursAt(haystack, needle, i) ==> r.Some? && r.value <= i
    decreases |haystack| - from
  {
    if from + |needle| > |haystack| then None
    else if haystack[from..from + |needle|] == needle then Some(from)
    else FindFrom(haystack, needle, from + 1)
  }

  /** The first window of the haystack that equals the needle; an empty window size panics. */
  function FindSubsequence<T(==)>(haystack: seq<T>, needle: seq<T>): (r: Option<nat>)
    requires needle != []
    ensures r.Some? ==> OccursAt(haystack, needle, r.value)
    ensures forall i | 0 <= i :: OccursAt(haystack, needle, i) ==> r.Some? && r.value <= i
  {
    FindFrom(haystack, needle, 0)
  }

  /** `FindSubsequence` is pinned down by what it says: a first occurrence is the answer. */
  lemma FirstOccurrenceIsFound<T>(haystack: seq<T>, needle: seq<T>, p: nat)
    requires needle != []
    requires OccursAt(haystack, needle, p)
    requires forall i | 0 <= i < p :: !OccursAt(haystack, needle, i)
    ensures FindSubsequence(haystack, needle) == Some(p)
  {
    var r := FindSubsequence(haystack, needle);
    assert r.Some? && r.value <= p;
  }

  /** More input never moves a first occurrence. */
  lemma FoundStays<T>(s: seq<T>, more: seq<T>, needle: seq<T>)
    requires needle != []
    requires FindSubsequence(s, needle).Some?
    ensures FindSubsequence(s + more, needle) == FindSubsequence(s, needle)
  {
    var p := FindSubsequence(s, needle).value;
    assert (s + more)[p..p + |needle|] == s[p..p + |needle|];
    forall i | 0 <= i < p ensures !OccursAt(s + more, needle, i) {
      if OccursAt(s + more, needle, i) {
        assert (s + more)[i..i + |needle|] == s[i..i + |needle|];
        assert OccursAt(s, needle, i);
      }
    }
    FirstOccurrenceIsFound(s + more, needle, p);
  }

  lemma OccursAfterCut<T>(s: seq<T>, needle: seq<T>, cut: nat, i: nat)
    requires cut <= |s|
    ensures OccursAt(s[cut..], needle, i) <==> OccursAt(s, needle, cut + i)
  {
    if cut + i + |needle| <= |s| {
      assert s[cut..][i..i + |needle|] == s[cut + i..cut + i + |needle|];
    }
  }

  /** Cutting bytes off the front in which no occurrence starts shifts the answer. */
  lemma FindAfterCut<T>(s: seq<T>, needle: seq<T>, cut: nat)
    requires needle != [] && cut <= |s|
    requires forall i | 0 <= i < cut :: !OccursAt(s, needle, i)
    ensures var whole := FindSubsequence(s, needle); var rest := FindSubsequence(s[cut..], needle);
            if whole.Some? then cut <= whole.value && rest == Some(whole.value - cut) else rest.None?
  {
    var whole := FindSubsequence(s, needle);
    var rest := FindSubsequence(s[cut..], needle);
    if rest.Some? {
      OccursAfterCut(s, needle, cut, rest.value);
    }
    if whole.Some? {
      OccursAfterCut(s, needle, cut, whole.value - cut);
    }
  }

  /** The last `k` elements of `s` are the first `k` of `needle`. */
  predicate EndsWithPrefix<T(==)>(s: seq<T>, needle: seq<T>, k: int) {
    0 <= k <= |s| && k <= |needle| && s[|s| - k..] == needle[..k]
  }

  /** The longest suffix of `s` that is a proper prefix of `needle`, looked for downwards from `bound`. */
  function KeepUpTo<T(==)>(s: seq<T>, needle: seq<T>, bound: nat): (k: nat)
    requires bound < |needle|
    ensures k <= bound && k <= |s|
  {
    if bound == 0 then 0
    else if EndsWithPrefix(s, needle, bound) then bound
    else KeepUpTo(s, needle, bound - 1)
  }

  /** How many bytes at the end of `s` may begin an occurrence that is still to be completed. */
  function Keep<T(==)>(s: seq<T>, needle: seq<T>): (k: nat)
    requires needle != []
    ensures k < |needle| && k <= |s|
  {
    KeepUpTo(s, needle, |needle| - 1)
  }

  lemma {:induction false} KeepUpToIsLongest<T>(s: seq<T>, needle: seq<T>, bound: nat)
    requires bound < |needle|
    ensures EndsWithPrefix(s, needle, KeepUpTo(s, needle, bound))
    ensures forall j | KeepUpTo(s, needle, bound) < j <= bound :: !EndsWithPrefix(s, needle, j)
  {
    if bound > 0 && !EndsWithPrefix(s, needle, bound) {
      KeepUpToIsLongest(s, needle, bound - 1);
    }
  }

  /** `Keep` is the length of the longest suffix that is a proper prefix of the needle. */
  lemma KeepIsLongest<T>(s: seq<T>, needle: seq<T>, k: nat)
    requires needle != []
    ensures Keep(s, needle) == k <==>
            k < |needle| && EndsWithPrefix(s, needle, k) && forall j | k < j < |needle| :: !EndsWithPrefix(s, needle, j)
  {
    KeepUpToIsLongest(s, needle, |needle| - 1);
  }

  /** An occurrence that starts in `s` and ends after it leaves a prefix of the needle at the end of `s`. */
  lemma StraddlingOccurrence<T>(s: seq<T>, more: seq<T>, needle: seq<T>, i: nat)
    requires i <= |s| <= i + |needle|
    requires OccursAt(s + more, needle, i)
    ensures EndsWithPrefix(s, needle, |s| - i)
  {
    var k := |s| - i;
    var t := s + more;
    assert needle[..k] == t[i..i + |needle|][..k];
    forall j | 0 <= j < k ensures s[i..][j] == needle[j] {
      assert t[i + j] == t[i..i + |needle|][j];
    }
    assert s[i..] == needle[..k];
  }

  /**
   The key fact: when `s` holds no occurrence, whatever follows, none can start before the longest
   suffix of `s` that is a proper prefix of the needle.
   */
  lemma NoneStartsBeforeKeep<T>(s: seq<T>, more: seq<T>, needle: seq<T>, i: nat)
    requires needle != []
    requires FindSubsequence(s, needle).None?
    requires i < |s| - Keep(s, needle)
    ensures !OccursAt(s + more, needle, i)
  {
    if OccursAt(s + more, needle, i) {
      if i + |needle| <= |s| {
        assert (s + more)[i..i + |needle|] == s[i..i + |needle|];
        assert OccursAt(s, needle, i);
      } else {
        StraddlingOccurrence(s, more, needle, i);
        KeepIsLongest(s, needle, Keep(s, needle));
      }
    }
  }

  /** And that suffix has to be held back: some continuation completes it to an occurrence. */
  lemma KeepIsNeeded<T>(s: seq<T>, needle: seq<T>)
    requires needle != []
    ensures OccursAt(s + needle[Keep(s, needle)..], needle, |s| - Keep(s, needle))
  {
    var k := Keep(s, needle);
    KeepIsLongest(s, needle, k);
    var t := s + needle[k..];
    assert t[|s| - k..] == s[|s| - k..] + needle[k..] == needle[..k] + needle[k..] == needle;
    assert t[|s| - k..|s| - k + |needle|] == t[|s| - k..];
  }

  /** A border of `s + more` that reaches into `s` is a border of `s` without `more`. */
  lemma BorderWithoutMore<T>(s: seq<T>, more: seq<T>, needle: seq<T>, k: nat)
    requires |more| <= k && EndsWithPrefix(s + more, needle, k)
    ensures EndsWithPrefix(s, needle, k - |more|)
  {
    var j := k - |more|;
    var t := s + more;
    assert s[|s| - j..] == t[|t| - k..][..j];
    assert needle[..k][..j] == needle[..j];
  }

  /** Only the last bytes of a text decide which of its suffixes are prefixes of the needle. */
  lemma BorderDependsOnEnd<T>(front: seq<T>, s: seq<T>, needle: seq<T>, k: nat)
    requires k <= |s|
    ensures EndsWithPrefix(front + s, needle, k) <==> EndsWithPrefix(s, needle, k)
  {
    var t := front + s;
    assert t[|t| - k..] == s[|s| - k..];
  }

  /** Holding back from the kept suffix onwards is as good as holding back everything. */
  lemma KeepAfterCut<T>(s: seq<T>, more: seq<T>, needle: seq<T>)
    requires needle != []
    ensures Keep(s[|s| - Keep(s, needle)..] + more, needle) == Keep(s + more, needle)
  {
    var cut := |s| - Keep(s, needle);
    var short := s[cut..] + more;
    assert s + more == s[..cut] + short;
    var k := Keep(s + more, needle);
    KeepIsLongest(s + more, needle, k);
    if |more| <= k {
      BorderWithoutMore(s, more, needle, k);
      KeepIsLongest(s, needle, Keep(s, needle));
    }
    assert k <= |short|;
    forall j | k <= j < |needle| ensures EndsWithPrefix(short, needle, j) <==> j == k {
      if j <= |short| {
        BorderDependsOnEnd(s[..cut], short, needle, j);
      }
    }
    KeepIsLongest(short, needle, k);
  }

  /** The first element of the needle does not come back in it, so occurrences cannot overlap. */
  ghost predicate HeadIsUnique<T(!new)>(needle: seq<T>) {
    needle != [] && forall i | 0 < i < |needle| :: needle[i] != needle[0]
  }

  lemma NoOccurrenceOverlapsNeedle<T(!new)>(before: seq<T>, needle: seq<T>, rest: seq<T>, i: nat)
    requires HeadIsUnique(needle)
    requires FindSubsequence(before, needle).None?
    requires i < |before|
    ensures !OccursAt(before + (needle + rest), needle, i)
  {
    var s := before + (needle + rest);
    var window := s[i..i + |needle|];
    if i + |needle| <= |before| {
      assert window == before[i..i + |needle|];
      assert !OccursAt(before, needle, i);
    } else {
      var k := |before| - i;
      assert window[k] == s[|before|] == needle[0] != needle[k];
    }
  }

  lemma FirstAfterPlainText<T(!new)>(before: seq<T>, needle: seq<T>, rest: seq<T>)
    requires HeadIsUnique(needle)
    requires FindSubsequence(before, needle).None?
    ensures FindSubsequence(before + (needle + rest), needle) == Some(|before|)
  {
    var s := before + (needle + rest);
    assert s[|before|..|before| + |needle|] == needle;
    forall i | 0 <= i < |before| ensures !OccursAt(s, needle, i) {
      NoOccurrenceOverlapsNeedle(before, needle, rest, i);
    }
    FirstOccurrenceIsFound(s, needle, |before|);
  }

  lemma NoneWithoutHead<T>(s: seq<T>, needle: seq<T>)
    requires needle != [] && needle[0] !in s
    ensures FindSubsequence(s, needle).None?
  {
    forall i | 0 <= i ensures !OccursAt(s, needle, i) {
      if i + |needle| <= |s| {
        assert s[i..i + |needle|][0] == s[i];
      }
    }
  }
}
