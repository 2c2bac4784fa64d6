/** Rearranging part of a sequence. */
module Segments {

  /** s' rearranges the elements from lo up to (not including) end, and touches nothing else. */
  ghost predicate Rearranged<T>(s: seq<T>, s': seq<T>, lo: int, end: int) {
    && |s| == |s'| && 0 <= lo <= end <= |s|
    && s[..lo] == s'[..lo] && s[end..] == s'[end..]
    && multiset(s[lo..end]) == multiset(s'[lo..end])
  }

  ghost function Swapped<T>(s: seq<T>, i: int, j: int): seq<T>
    requires 0 <= i < |s| && 0 <= j < |s|
  {
    s[i := s[j]][j := s[i]]
  }

  lemma SwapRearranges<T>(s: seq<T>, i: int, j: int, lo: int, end: int)
    requires 0 <= lo <= i < end <= |s| && lo <= j < end
    ensures Rearranged(s, Swapped(s, i, j), lo, end)
  {
    var t := Swapped(s, i, j);
    var part := s[lo..end];
    assert t[lo..end] == Swapped(part, i - lo, j - lo);
    SwapKeeps(part, i - lo, j - lo);
    assert t[..lo] == s[..lo] && t[end..] == s[end..];
  }

  lemma SwapKeeps<T>(s: seq<T>, i: int, j: int)
    requires 0 <= i < |s| && 0 <= j < |s|
    ensures multiset(Swapped(s, i, j)) == multiset(s)
  {
  }

  lemma RearrangedTwice<T>(s: seq<T>, t: seq<T>, u: seq<T>, lo: int, end: int)
    requires Rearranged(s, t, lo, end) && Rearranged(t, u, lo, end)
    ensures Rearranged(s, u, lo, end)
  {
  }

  /** A rearrangement of a part is one of the whole. */
  lemma RearrangedWithin<T>(s: seq<T>, t: seq<T>, lo: int, end: int, lo': int, end': int)
    requires Rearranged(s, t, lo', end') && 0 <= lo <= lo' && end' <= end <= |s|
    ensures Rearranged(s, t, lo, end)
  {
    var a, c := s[lo..lo'], s[end'..end];
    assert a == s[..lo'][lo..] && t[lo..lo'] == t[..lo'][lo..];
    assert c == s[end'..][..end - end'] && t[end'..end] == t[end'..][..end - end'];
    assert s[lo..end] == a + s[lo'..end'] + c;
    assert t[lo..end] == a + t[lo'..end'] + c;
    assert s[..lo] == s[..lo'][..lo] && t[..lo] == t[..lo'][..lo];
    assert s[end..] == s[end'..][end - end'..] && t[end..] == t[end'..][end - end'..];
  }

  lemma OutsideKept<T>(s: seq<T>, t: seq<T>, lo: int, end: int)
    requires Rearranged(s, t, lo, end)
    ensures forall i | 0 <= i < |s| && !(lo <= i < end) :: s[i] == t[i]
  {
    forall i | 0 <= i < |s| && !(lo <= i < end)
      ensures s[i] == t[i]
    {
      if i < lo {
        assert s[..lo][i] == t[..lo][i];
      } else {
        assert s[end..][i - end] == t[end..][i - end];
      }
    }
  }

  /** Every element of a rearranged segment was there before. */
  lemma CameFrom<T>(s: seq<T>, t: seq<T>, lo: int, end: int, i: int) returns (k: int)
    requires Rearranged(s, t, lo, end) && lo <= i < end
    ensures lo <= k < end && s[k] == t[i]
  {
    assert t[lo..end][i - lo] == t[i];
    assert t[i] in multiset(t[lo..end]);
    assert t[i] in s[lo..end];
    var j :| 0 <= j < end - lo && s[lo..end][j] == t[i];
    k := lo + j;
  }
}
