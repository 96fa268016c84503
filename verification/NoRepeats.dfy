/** Sequences without repeats, and the sets of their elements. */
module NoRepeats {
  ghost predicate Distinct<T>(s: seq<T>) {
    forall i, j | 0 <= i < j < |s| :: s[i] != s[j]
  }

  ghost function SetOf<T>(s: seq<T>): set<T> {
    set x | x in s
  }

  lemma DistinctSplit<T>(s: seq<T>)
    requires Distinct(s) && s != []
    ensures var init, last := s[..|s| - 1], s[|s| - 1];
      Distinct(init) && last !in init && SetOf(s) == SetOf(init) + {last}
  {
    var init, last := s[..|s| - 1], s[|s| - 1];
    assert forall i | 0 <= i < |init| :: init[i] == s[i];
    assert s == init + [last];
  }

  lemma {:induction false} DistinctCount<T>(s: seq<T>)
    requires Distinct(s)
    ensures |SetOf(s)| == |s|
  {
    if s != [] {
      DistinctSplit(s);
      DistinctCount(s[..|s| - 1]);
    }
  }

  lemma SetOfSnoc<T>(s: seq<T>, x: T)
    ensures SetOf(s + [x]) == SetOf(s) + {x}
  {
  }
}
