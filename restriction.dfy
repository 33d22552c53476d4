/**
 * The restriction filter (`is_restricted`): a file name is skipped when any
 * of the configured exclusion patterns matches it. A pattern's match is the
 * parameter `matches`; the patterns are passed in rather than read from a
 * process-wide variable.
 */
module Restriction {

  /** Some pattern of the list matches the file name. */
  predicate Restricted<P>(patterns: seq<P>, matches: (P, string) -> bool, filename: string) {
    exists i :: 0 <= i < |patterns| && matches(patterns[i], filename)
  }

  /** The linear search with early return of `is_restricted`. */
  method IsRestricted<P>(filename: string, patterns: seq<P>, matches: (P, string) -> bool) returns (restricted: bool)
    ensures restricted <==> Restricted(patterns, matches, filename)
    ensures patterns == [] ==> !restricted
  {
    for i := 0 to |patterns|
      invariant forall j :: 0 <= j < i ==> !matches(patterns[j], filename)
    {
      if matches(patterns[i], filename) {
        return true;
      }
    }
    return false;
  }

  /** The answer depends only on which patterns are configured, not on their
      order or on repetitions. */
  lemma RestrictedIgnoresOrder<P>(ps: seq<P>, qs: seq<P>, matches: (P, string) -> bool, filename: string)
    requires forall p :: p in ps <==> p in qs
    ensures Restricted(ps, matches, filename) <==> Restricted(qs, matches, filename)
  {
    if Restricted(ps, matches, filename) {
      var i :| 0 <= i < |ps| && matches(ps[i], filename);
      assert ps[i] in qs;
    }
    if Restricted(qs, matches, filename) {
      var i :| 0 <= i < |qs| && matches(qs[i], filename);
      assert qs[i] in ps;
    }
  }

  /** Splitting the pattern list anywhere: the whole list restricts a name
      exactly when one of its parts does. */
  lemma RestrictedAppend<P>(ps: seq<P>, qs: seq<P>, matches: (P, string) -> bool, filename: string)
    ensures Restricted(ps + qs, matches, filename) <==>
            Restricted(ps, matches, filename) || Restricted(qs, matches, filename)
  {
    if Restricted(ps + qs, matches, filename) {
      var i :| 0 <= i < |ps + qs| && matches((ps + qs)[i], filename);
      if i >= |ps| {
        assert (ps + qs)[i] == qs[i - |ps|];
      }
    }
    if Restricted(ps, matches, filename) {
      var i :| 0 <= i < |ps| && matches(ps[i], filename);
      assert (ps + qs)[i] == ps[i];
    }
    if Restricted(qs, matches, filename) {
      var i :| 0 <= i < |qs| && matches(qs[i], filename);
      assert (ps + qs)[|ps| + i] == qs[i];
    }
  }
}
