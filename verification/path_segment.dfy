/** The path-segment sanitiser of the Neo4j graph provider: it removes the
    characters that are not acceptable in a file path (mostly on Windows),
    and refuses a segment that nothing is left of. */
module PathSegment {
  import opened Wrappers

  /** The fourteen characters matched by the character class
      `[.\\/:*?"<>|\[\]\(\)]` that the sanitiser deletes. */
  const Forbidden: set<char> :=
    {'.', '\\', '/', ':', '*', '?', '\"', '<', '>', '|', '[', ']', '(', ')'}

  predicate IsForbidden(c: char) {
    c in Forbidden
  }

  /** No character of `s` is one the sanitiser would delete. */
  predicate IsClean(s: string) {
    forall i :: 0 <= i < |s| ==> !IsForbidden(s[i])
  }

  /** `s` with every forbidden character deleted and every other one kept,
      in order: the effect of `replaceAll(<class>, "")`. */
  function Clean(s: string): (r: string)
    ensures |r| <= |s|
    ensures forall c :: c in r <==> c in s && !IsForbidden(c)
    ensures IsClean(r)
  {
    if s == [] then []
    else if IsForbidden(s[0]) then Clean(s[1..])
    else [s[0]] + Clean(s[1..])
  }

  /** Deleting characters one at a time commutes with concatenation. */
  lemma {:induction false} CleanAppend(a: string, b: string)
    ensures Clean(a + b) == Clean(a) + Clean(b)
  {
    if a == [] {
      assert a + b == b;
    } else {
      assert (a + b)[0] == a[0];
      assert (a + b)[1..] == a[1..] + b;
      CleanAppend(a[1..], b);
    }
  }

  /** A left-to-right scan with the same output as `replaceAll(<class>, "")`:
      each character that does not match the class is appended to the
      output, each one that does is dropped. */
  method ReplaceAllForbidden(s: string) returns (r: string)
    ensures r == Clean(s)
  {
    r := [];
    var i := 0;
    while i < |s|
      invariant 0 <= i <= |s|
      invariant r == Clean(s[..i])
    {
      assert s[..i + 1] == s[..i] + [s[i]];
      CleanAppend(s[..i], [s[i]]);
      if !IsForbidden(s[i]) {
        r := r + [s[i]];
      }
      i := i + 1;
    }
    assert s[..i] == s;
  }

  /** The `IllegalStateException` raised for a segment with nothing left. */
  datatype PathError = EmptySegment(toClean: string) {
    function Message(): string {
      "Path segment " + toClean + " has not valid characters and is thus empty"
    }
  }

  /** Sanitises a path segment; fails exactly when nothing survives. */
  function CleanPathSegment(toClean: string): (r: Result<string, PathError>)
    ensures r.Ok? <==> exists i :: 0 <= i < |toClean| && !IsForbidden(toClean[i])
    ensures r.Ok? ==> 0 < |r.value| <= |toClean| && IsClean(r.value)
    ensures r.Ok? ==> r.value == Clean(toClean)
    ensures r.Err? ==> r.error == EmptySegment(toClean)
  {
    var cleaned := Clean(toClean);
    if |cleaned| == 0 then
      Err(EmptySegment(toClean))
    else
      assert cleaned[0] in cleaned;
      Ok(cleaned)
  }
}
