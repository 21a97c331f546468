/** Case-insensitive substring search, as the listing's `contains` filter
    with insensitive mode uses it. Case folding covers ASCII letters. */
module TextSearch {

  function LowerChar(c: char): char {
    if 'A' <= c <= 'Z' then (c as int + ('a' as int - 'A' as int)) as char else c
  }

  function Lower(s: string): (r: string)
    ensures |r| == |s|
  {
    seq(|s|, i requires 0 <= i < |s| => LowerChar(s[i]))
  }

  /** `needle` sits in `hay` starting at position `i`. */
  ghost predicate OccursAt(hay: string, needle: string, i: int) {
    0 <= i && i + |needle| <= |hay| && hay[i..i + |needle|] == needle
  }

  /** The executable substring test: a prefix match here, or further on. */
  function Contains(hay: string, needle: string): bool
    decreases |hay|
  {
    if |needle| <= |hay| && hay[..|needle|] == needle then true
    else if |hay| == 0 then false
    else Contains(hay[1..], needle)
  }

  /** `hay` contains `needle` ignoring the case of either. */
  function ContainsInsensitive(hay: string, needle: string): bool {
    Contains(Lower(hay), Lower(needle))
  }

  /** Contains agrees with the reference definition: some position holds the needle. */
  lemma {:induction false} ContainsIsSubstring(hay: string, needle: string)
    ensures Contains(hay, needle) <==> exists i :: OccursAt(hay, needle, i)
    decreases |hay|
  {
    if |needle| <= |hay| && hay[..|needle|] == needle {
      assert OccursAt(hay, needle, 0);
    } else if |hay| == 0 {
    } else {
      forall j | 0 <= j
        ensures OccursAt(hay, needle, j + 1) <==> OccursAt(hay[1..], needle, j)
      {
        if j + 1 + |needle| <= |hay| {
          assert hay[1..][j..j + |needle|] == hay[j + 1..j + 1 + |needle|];
        }
      }
      forall i | OccursAt(hay, needle, i)
        ensures OccursAt(hay[1..], needle, i - 1)
      {
        assert i != 0;
        assert OccursAt(hay, needle, (i - 1) + 1);
      }
      ContainsIsSubstring(hay[1..], needle);
      if Contains(hay[1..], needle) {
        var j :| OccursAt(hay[1..], needle, j);
        assert OccursAt(hay, needle, j + 1);
      }
    }
  }

  /** Folding case twice is folding it once. */
  lemma LowerIdempotent(s: string)
    ensures Lower(Lower(s)) == Lower(s)
  {
  }

  /** The search ignores the case of the search term. */
  lemma SearchIgnoresTermCase(hay: string, needle: string)
    ensures ContainsInsensitive(hay, Lower(needle)) == ContainsInsensitive(hay, needle)
  {
    LowerIdempotent(needle);
  }

  /** A term found as typed is found by the insensitive search. */
  lemma ExactMatchIsFound(hay: string, needle: string)
    ensures Contains(hay, needle) ==> ContainsInsensitive(hay, needle)
  {
    ContainsIsSubstring(hay, needle);
    ContainsIsSubstring(Lower(hay), Lower(needle));
    if Contains(hay, needle) {
      var i :| OccursAt(hay, needle, i);
      assert Lower(hay)[i..i + |needle|] == Lower(needle);
      assert OccursAt(Lower(hay), Lower(needle), i);
    }
  }
}
