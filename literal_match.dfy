/**
 * A concrete exclusion pattern: a word searched for anywhere in the file
 * name, ignoring (ASCII) case. This is how a case-insensitive regular
 * expression without metacharacters behaves, and the default exclusion
 * words (`plenum`, `lf-plenum`, `oving`) are such expressions.
 */
module LiteralMatch {
  import opened Restriction

  const DefaultWords: seq<string> := ["plenum", "lf-plenum", "oving"]

  /** ASCII lower-casing. */
  function Lower(c: char): (l: char)
    ensures 'A' <= c <= 'Z' ==> l as int == c as int + 32
    ensures !('A' <= c <= 'Z') ==> l == c
  {
    if 'A' <= c <= 'Z' then (c as int + 32) as char else c
  }

  /** s begins with word, ignoring case. */
  predicate StartsWithIgnoringCase(s: string, word: string) {
    |word| <= |s| && forall i :: 0 <= i < |word| ==> Lower(s[i]) == Lower(word[i])
  }

  /** The search: does word occur in s at some position, ignoring case? */
  predicate ContainsIgnoringCase(s: string, word: string) {
    StartsWithIgnoringCase(s, word) || (s != [] && ContainsIgnoringCase(s[1..], word))
  }

  /** ContainsIgnoringCase finds exactly the occurrences there are. */
  lemma {:induction false} ContainsAt(s: string, word: string)
    ensures ContainsIgnoringCase(s, word) <==>
            exists k :: 0 <= k <= |s| && StartsWithIgnoringCase(s[k..], word)
  {
    assert s[0..] == s;
    if s != [] {
      ContainsAt(s[1..], word);
      if exists k :: 0 <= k <= |s| - 1 && StartsWithIgnoringCase(s[1..][k..], word) {
        var k :| 0 <= k <= |s| - 1 && StartsWithIgnoringCase(s[1..][k..], word);
        assert s[1..][k..] == s[k + 1..];
      }
      if exists k :: 0 <= k <= |s| && StartsWithIgnoringCase(s[k..], word) {
        var k :| 0 <= k <= |s| && StartsWithIgnoringCase(s[k..], word);
        if k > 0 {
          assert s[1..][k - 1..] == s[k..];
        }
      }
    }
  }

  /** A word pattern matches the file name when it occurs in it. */
  predicate WordMatches(word: string, filename: string) {
    ContainsIgnoringCase(filename, word)
  }

  /** A file name that contains one of the words, in any case, is restricted. */
  lemma ContainedWordRestricts(words: seq<string>, filename: string, i: nat, k: nat)
    requires i < |words| && k <= |filename|
    requires StartsWithIgnoringCase(filename[k..], words[i])
    ensures Restricted(words, WordMatches, filename)
  {
    ContainsAt(filename, words[i]);
    assert WordMatches(words[i], filename);
  }

  /** "lf-plenum-2024.pdf" contains "plenum", so the default words skip it. */
  lemma PlenumHandoutIsRestricted()
    ensures Restricted(DefaultWords, WordMatches, "lf-plenum-2024.pdf")
  {
    var name := "lf-plenum-2024.pdf";
    assert name[3..][..6] == "plenum";
    ContainedWordRestricts(DefaultWords, name, 0, 3);
  }

  /** Upper case does not escape the filter. */
  lemma UpperCaseIsRestricted()
    ensures Restricted(["plenum"], WordMatches, "PLENUM.pdf")
  {
    ContainedWordRestricts(["plenum"], "PLENUM.pdf", 0, 0);
  }

  /** A file name that contains none of the words is not restricted. */
  lemma NoWordNoRestriction(words: seq<string>, filename: string)
    requires forall i, k :: 0 <= i < |words| && 0 <= k <= |filename| ==>
               !StartsWithIgnoringCase(filename[k..], words[i])
    ensures !Restricted(words, WordMatches, filename)
  {
    forall i | 0 <= i < |words|
      ensures !WordMatches(words[i], filename)
    {
      ContainsAt(filename, words[i]);
    }
  }

  /** "notes.pdf" does not contain "plenum", so it is downloaded. */
  lemma NotesIsNotRestricted()
    ensures !Restricted(["plenum"], WordMatches, "notes.pdf")
  {
    var name := "notes.pdf";
    forall i, k | 0 <= i < 1 && 0 <= k <= |name|
      ensures !StartsWithIgnoringCase(name[k..], ["plenum"][i])
    {
      if k <= |name| - 6 {
        assert Lower(name[k..][0]) != Lower('p');
      }
    }
    NoWordNoRestriction(["plenum"], name);
  }
}
