/** The string operations of the Rust standard library that the downloader
    relies on, over `string` (a sequence of `char`). */
module Text {
  import opened Wrappers

  /** `pat` occurs in `s` starting at index `i`. */
  predicate MatchAt(s: string, pat: string, i: nat) {
    i + |pat| <= |s| && s[i..i + |pat|] == pat
  }

  /** `pat` occurs somewhere in `s`. */
  ghost predicate Occurs(s: string, pat: string) {
    exists i: nat :: MatchAt(s, pat, i)
  }

  /** No occurrence of `pat` in `a + b` starts inside `a` and ends inside `b`. */
  ghost predicate NoStraddle(a: string, b: string, pat: string) {
    forall i: nat :: i < |a| < i + |pat| ==> !MatchAt(a + b, pat, i)
  }

  /** `s.replace(pat, "")`: every occurrence of `pat` found by a left-to-right
      scan that resumes after each match is deleted. */
  function RemoveAll(s: string, pat: string): (r: string)
    requires pat != []
    ensures |r| <= |s|
    decreases |s|
  {
    if s == [] then []
    else if MatchAt(s, pat, 0) then RemoveAll(s[|pat|..], pat)
    else [s[0]] + RemoveAll(s[1..], pat)
  }

  /** Removing a pattern that does not occur changes nothing. */
  lemma {:induction false} RemoveAbsent(s: string, pat: string)
    requires pat != []
    ensures !Occurs(s, pat) ==> RemoveAll(s, pat) == s
    decreases |s|
  {
    if s != [] && !Occurs(s, pat) {
      assert !MatchAt(s, pat, 0);
      forall i: nat
        ensures !MatchAt(s[1..], pat, i)
      {
        assert !MatchAt(s, pat, i + 1);
        if i + |pat| <= |s[1..]| {
          assert s[1..][i..i + |pat|] == s[i + 1..i + 1 + |pat|];
        }
      }
      RemoveAbsent(s[1..], pat);
      assert [s[0]] + s[1..] == s;
    }
  }

  /** Removal only deletes: every character of the result occurs in the input. */
  lemma {:induction false} RemoveKeeps(s: string, pat: string)
    requires pat != []
    ensures forall c | c in RemoveAll(s, pat) :: c in s
    decreases |s|
  {
    if s != [] {
      if MatchAt(s, pat, 0) {
        RemoveKeeps(s[|pat|..], pat);
        assert forall c | c in s[|pat|..] :: c in s;
      } else {
        RemoveKeeps(s[1..], pat);
        assert forall c | c in s[1..] :: c in s;
      }
    }
  }

  /** Removing a single character keeps every other character with its
      multiplicity and leaves none of the removed one. */
  lemma {:induction false} RemoveChar(s: string, c: char)
    ensures c !in RemoveAll(s, [c])
    ensures multiset(RemoveAll(s, [c])) == multiset(s)[c := 0]
    decreases |s|
  {
    if s != [] {
      assert MatchAt(s, [c], 0) <==> s[0] == c by {
        assert s[0..1] == [s[0]];
      }
      RemoveChar(s[1..], c);
      assert s == [s[0]] + s[1..];
      assert multiset(s) == multiset{s[0]} + multiset(s[1..]);
    }
  }

  /** Dropping a prefix of `a` keeps the seam free of occurrences. */
  lemma NoStraddleDrop(a: string, b: string, pat: string, k: nat)
    requires k <= |a| && NoStraddle(a, b, pat)
    ensures NoStraddle(a[k..], b, pat)
  {
    var a' := a[k..];
    assert (a + b)[k..] == a' + b;
    forall i: nat | i < |a'| < i + |pat|
      ensures !MatchAt(a' + b, pat, i)
    {
      assert !MatchAt(a + b, pat, i + k);
      if i + |pat| <= |a' + b| {
        assert (a' + b)[i..i + |pat|] == (a + b)[i + k..i + k + |pat|];
      }
    }
  }

  /** Removal distributes over concatenation when no occurrence spans the seam. */
  lemma {:induction false} RemoveAppend(a: string, b: string, pat: string)
    requires pat != []
    requires NoStraddle(a, b, pat)
    ensures RemoveAll(a + b, pat) == RemoveAll(a, pat) + RemoveAll(b, pat)
    decreases |a|
  {
    if a == [] {
      assert a + b == b;
    } else if MatchAt(a + b, pat, 0) {
      assert |pat| <= |a|;
      assert a[0..|pat|] == (a + b)[0..|pat|];
      assert MatchAt(a, pat, 0);
      assert (a + b)[|pat|..] == a[|pat|..] + b;
      NoStraddleDrop(a, b, pat, |pat|);
      RemoveAppend(a[|pat|..], b, pat);
    } else {
      if |pat| <= |a| {
        assert a[0..|pat|] == (a + b)[0..|pat|];
      }
      assert !MatchAt(a, pat, 0);
      assert (a + b)[1..] == a[1..] + b;
      NoStraddleDrop(a, b, pat, 1);
      RemoveAppend(a[1..], b, pat);
      assert (a + b)[0] == a[0];
    }
  }

  /** An occurrence that spans the seam of `a + b` would have to contain
      `b[0]` at a position other than its first; if the pattern has no such
      character there, no occurrence spans the seam. */
  lemma NoStraddleByFirst(a: string, b: string, pat: string)
    requires b != []
    requires forall k :: 0 < k < |pat| ==> pat[k] != b[0]
    ensures NoStraddle(a, b, pat)
  {
    forall i: nat | i < |a| < i + |pat|
      ensures !MatchAt(a + b, pat, i)
    {
      if i + |pat| <= |a + b| {
        var k := |a| - i;
        assert (a + b)[i..i + |pat|][k] == (a + b)[|a|] == b[0] != pat[k];
      }
    }
  }

  /** A pattern without a repeat of its first character, appended to a stem
      that does not contain it, is removed again exactly. */
  lemma RemoveTrailing(stem: string, pat: string)
    requires pat != []
    requires !Occurs(stem, pat)
    requires forall k :: 0 < k < |pat| ==> pat[k] != pat[0]
    ensures RemoveAll(stem + pat, pat) == stem
  {
    NoStraddleByFirst(stem, pat, pat);
    RemoveAppend(stem, pat, pat);
    RemoveAbsent(stem, pat);
    assert MatchAt(pat, pat, 0);
    assert pat[|pat|..] == [];
  }

  /** `s.rsplit_once(c)`: the text before and after the last `c`, or `None`
      when `s` has no `c`. */
  function RsplitOnce(s: string, c: char): (r: Option<(string, string)>)
    ensures r.None? <==> c !in s
    ensures r.Some? ==> s == r.value.0 + [c] + r.value.1 && c !in r.value.1
    decreases |s|
  {
    if s == [] then None
    else
      var init, last := s[..|s| - 1], s[|s| - 1];
      assert s == init + [last];
      if last == c then Some((init, []))
      else match RsplitOnce(init, c)
        case None => None
        case Some((before, after)) => Some((before, after + [last]))
  }

  /** There is only one way to split a string at the last occurrence of `c`. */
  lemma LastSplitUnique(a: string, b: string, a': string, b': string, c: char)
    requires a + [c] + b == a' + [c] + b'
    requires c !in b && c !in b'
    ensures a == a' && b == b'
  {
    var s := a + [c] + b;
    assert s[|s| - |b| - 1] == c && s[|s| - |b'| - 1] == c;
    assert forall j :: |s| - |b| <= j < |s| ==> s[j] == b[j - (|s| - |b|)] != c;
    assert forall j :: |s| - |b'| <= j < |s| ==> s[j] == b'[j - (|s| - |b'|)] != c;
    assert |b| == |b'|;
    assert b == s[|s| - |b|..] == b';
    assert a == s[..|a|] == a';
  }

  /** The last path component of `s`: what follows its last `/`, or all of `s`
      when it has none. */
  function FileName(s: string): (r: string)
    ensures '/' !in r
    ensures |r| <= |s| && r == s[|s| - |r|..]
    ensures |r| < |s| ==> s[|s| - |r| - 1] == '/'
    ensures '/' !in s ==> r == s
  {
    match RsplitOnce(s, '/')
    case Some((_, name)) => name
    case None => s
  }

  /** The file name of a path that ends in `/` followed by a slash-free name is that name. */
  lemma FileNameOfPath(dir: string, name: string)
    requires '/' !in name
    ensures FileName(dir + "/" + name) == name
  {
    var s := dir + "/" + name;
    var r := RsplitOnce(s, '/');
    assert '/' in s by { assert s[|dir|] == '/'; }
    LastSplitUnique(r.value.0, r.value.1, dir, name, '/');
  }
}
