/** What the sanitiser promises, stated against definitions that do not
    mention `Clean`: subsequence, occurrence counts and character counts. */
module PathSegmentLemmas {
  import opened Wrappers
  import opened PathSegment

  /** `r` can be obtained from `s` by deleting characters: at each step the
      next character of `s` is either skipped or matched. */
  predicate IsSubsequence(r: string, s: string)
    decreases |s|
  {
    || r == []
    || (&& s != []
        && (|| (r[0] == s[0] && IsSubsequence(r[1..], s[1..]))
            || IsSubsequence(r, s[1..])))
  }

  /** How many characters of `s` are forbidden. */
  function CountForbidden(s: string): (n: nat)
    ensures n <= |s|
  {
    if s == [] then 0
    else (if IsForbidden(s[0]) then 1 else 0) + CountForbidden(s[1..])
  }

  /** The output keeps the order of the input: it is a subsequence of it. */
  lemma {:induction false} CleanIsSubsequence(s: string)
    ensures IsSubsequence(Clean(s), s)
  {
    if s != [] {
      CleanIsSubsequence(s[1..]);
    }
  }

  /** The output is shorter than the input by exactly the number of
      forbidden characters. */
  lemma {:induction false} CleanLength(s: string)
    ensures |Clean(s)| == |s| - CountForbidden(s)
  {
    if s != [] {
      CleanLength(s[1..]);
    }
  }

  /** Every allowed character occurs in the output as often as in the
      input; no forbidden character occurs at all. */
  lemma {:induction false} CleanContents(s: string)
    ensures forall c :: multiset(Clean(s))[c] == if IsForbidden(c) then 0 else multiset(s)[c]
  {
    if s != [] {
      CleanContents(s[1..]);
      assert s == [s[0]] + s[1..];
      assert multiset(s) == multiset{s[0]} + multiset(s[1..]);
    }
  }

  /** Every forbidden-free way of deleting characters from `s` is also a way
      of deleting characters from `Clean(s)`: the output is the greatest
      forbidden-free subsequence of the input. */
  lemma {:induction false} CleanIsGreatest(r: string, s: string)
    requires IsSubsequence(r, s) && IsClean(r)
    ensures IsSubsequence(r, Clean(s))
    decreases |s|
  {
    if r != [] {
      assert s != [];
      if r[0] == s[0] && IsSubsequence(r[1..], s[1..]) {
        assert !IsForbidden(r[0]);
        CleanIsGreatest(r[1..], s[1..]);
        assert Clean(s) == [s[0]] + Clean(s[1..]);
      } else {
        CleanIsGreatest(r, s[1..]);
        if !IsForbidden(s[0]) {
          var t := Clean(s);
          assert t == [s[0]] + Clean(s[1..]);
          assert t[1..] == Clean(s[1..]);
        }
      }
    }
  }

  /** A subsequence is never longer than the sequence it is taken from, and
      one of the same length is that sequence. */
  lemma {:induction false} SubsequenceLength(r: string, s: string)
    requires IsSubsequence(r, s)
    ensures |r| <= |s|
    ensures |r| == |s| ==> r == s
    decreases |s|
  {
    if r != [] {
      if r[0] == s[0] && IsSubsequence(r[1..], s[1..]) {
        SubsequenceLength(r[1..], s[1..]);
        if |r| == |s| {
          assert r == [r[0]] + r[1..];
          assert s == [s[0]] + s[1..];
        }
      } else {
        SubsequenceLength(r, s[1..]);
      }
    }
  }

  /** The output is exactly the input with the forbidden characters removed:
      the only forbidden-free subsequence of that length is `Clean(s)`. */
  lemma {:induction false} CleanIsUnique(r: string, s: string)
    requires IsSubsequence(r, s) && IsClean(r)
    requires |r| == |s| - CountForbidden(s)
    ensures r == Clean(s)
  {
    CleanIsGreatest(r, s);
    CleanLength(s);
    SubsequenceLength(r, Clean(s));
  }

  /** The sanitiser leaves a string unchanged exactly when it has nothing
      to delete. */
  lemma {:induction false} CleanFixesExactlyClean(s: string)
    ensures Clean(s) == s <==> IsClean(s)
  {
    if s != [] && IsClean(s) {
      assert IsClean(s[1..]) by {
        forall i | 0 <= i < |s[1..]| ensures !IsForbidden(s[1..][i]) {
          assert s[1..][i] == s[i + 1];
        }
      }
      CleanFixesExactlyClean(s[1..]);
      assert s == [s[0]] + s[1..];
    }
  }

  /** Sanitising twice deletes nothing more. */
  lemma {:induction false} CleanIdempotent(s: string)
    ensures Clean(Clean(s)) == Clean(s)
  {
    CleanFixesExactlyClean(Clean(s));
  }

  /** A non-empty segment without forbidden characters is returned as is. */
  lemma {:induction false} CleanPathSegmentKeepsValid(s: string)
    requires IsClean(s) && |s| > 0
    ensures CleanPathSegment(s).Ok? && CleanPathSegment(s).value == s
  {
    CleanFixesExactlyClean(s);
  }

  /** A successful result is the input with the forbidden characters
      removed: a forbidden-free subsequence of the input, shorter than it by
      the forbidden count, which by `CleanIsUnique` determines it. */
  lemma {:induction false} CleanPathSegmentValue(s: string)
    ensures CleanPathSegment(s).Ok? ==>
      && IsSubsequence(CleanPathSegment(s).value, s)
      && IsClean(CleanPathSegment(s).value)
      && |CleanPathSegment(s).value| == |s| - CountForbidden(s)
  {
    CleanIsSubsequence(s);
    CleanLength(s);
  }

  /** Feeding a successful result back in succeeds with the same string. */
  lemma {:induction false} CleanPathSegmentIdempotent(s: string)
    requires CleanPathSegment(s).Ok?
    ensures CleanPathSegment(CleanPathSegment(s).value) == CleanPathSegment(s)
  {
    CleanIdempotent(s);
  }

  /** The sanitiser fails exactly on segments made only of forbidden
      characters, the empty segment among them. The second clause only pins
      the text of the exception message. */
  lemma {:induction false} CleanPathSegmentFailsIffAllForbidden(s: string)
    ensures CleanPathSegment(s).Err? <==> CountForbidden(s) == |s|
    ensures CleanPathSegment(s).Err? ==>
      CleanPathSegment(s).error.Message()
        == "Path segment " + s + " has not valid characters and is thus empty"
  {
    CleanLength(s);
  }
}
