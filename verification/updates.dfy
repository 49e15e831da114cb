/** `check_updates` (src-tauri/src/helpers.rs): decides, from the installed
    version marker and the remote release metadata, which update archives to
    fetch. The network request, the version file read and the crate's version
    parser are inputs; dialogs are not modelled. */
module Updates {
  import opened Wrappers
  import opened Versions
  import Text

  /** The remote metadata document (`UpdateInfo`). */
  datatype UpdateInfo = UpdateInfo(latest: string, least: string, updates: map<string, string>)

  /** How a call to `check_updates` ends. */
  datatype CheckOutcome =
    | Found(paths: seq<string>)   // `Ok(updates)`; the empty list covers every "nothing to do" case
    | Failed(reason: string)      // `Err(..)` from the metadata request
    | Panicked(reason: string)    // a `panic!` or a failed `unwrap()`

  /** The crate's `Version::from`: `None` for a string it cannot read. */
  type Parser = string -> Option<Version>

  const NewerThanLatest := "You are using a newer version than expected"

  /** The version an update key or path denotes once every `v` is removed. */
  function VersionOf(parse: Parser, s: string): Option<Version> {
    parse(Text.RemoveAll(s, "v"))
  }

  /** The update keyed `k` is strictly newer than the installed version. */
  predicate Newer(parse: Parser, current: Version, k: string) {
    VersionOf(parse, k).Some? && Compare(current, VersionOf(parse, k).value) == Lt
  }

  /** `order` lists every key of the map exactly once: a `HashMap` iteration order. */
  predicate Enumerates(order: seq<string>, keys: set<string>) {
    && (forall i | 0 <= i < |order| :: order[i] in keys)
    && (forall k | k in keys :: k in order)
    && (forall i, j | 0 <= i < j < |order| :: order[i] != order[j])
  }

  /** The loop over the update map: keeps, in iteration order, the values of
      the keys newer than `current`; `None` when some key cannot be parsed
      (the `unwrap()` panics). */
  function Select(parse: Parser, current: Version, order: seq<string>, updates: map<string, string>): (r: Option<seq<string>>)
    requires forall i | 0 <= i < |order| :: order[i] in updates
    ensures r.None? <==> exists i :: 0 <= i < |order| && VersionOf(parse, order[i]).None?
    ensures r.Some? ==> forall x ::
      x in r.value <==> exists i :: 0 <= i < |order| && Newer(parse, current, order[i]) && updates[order[i]] == x
    ensures r.Some? ==> |r.value| <= |order|
    decreases |order|
  {
    if order == [] then Some([])
    else
      var rest := Select(parse, current, order[1..], updates);
      assert forall i :: 1 <= i < |order| ==> order[i] == order[1..][i - 1];
      if VersionOf(parse, order[0]).None? || rest.None? then None
      else
        var head := if Newer(parse, current, order[0]) then [updates[order[0]]] else [];
        Some(head + rest.value)
  }

  /** Every string of `s` has a readable version. */
  predicate AllParse(parse: Parser, s: seq<string>) {
    forall i | 0 <= i < |s| :: VersionOf(parse, s[i]).Some?
  }

  /** `s` is in ascending version order: each entry is no older than the one before. */
  predicate SortedByVersion(parse: Parser, s: seq<string>)
    requires AllParse(parse, s)
  {
    forall i | 0 < i < |s| :: Le(VersionOf(parse, s[i - 1]).value, VersionOf(parse, s[i]).value)
  }

  /** Ascending order between neighbours is ascending order between any two entries. */
  lemma {:induction false} SortedPairwise(parse: Parser, s: seq<string>)
    requires AllParse(parse, s) && SortedByVersion(parse, s)
    ensures forall i, j | 0 <= i < j < |s| :: Le(VersionOf(parse, s[i]).value, VersionOf(parse, s[j]).value)
    decreases |s|
  {
    if s != [] {
      var t := s[1..];
      assert forall k | 0 <= k < |t| :: t[k] == s[k + 1];
      SortedPairwise(parse, t);
      forall j | 1 < j < |s| ensures Le(VersionOf(parse, s[0]).value, VersionOf(parse, s[j]).value) {
        CompareTransitive(VersionOf(parse, s[0]).value, VersionOf(parse, s[1]).value, VersionOf(parse, s[j]).value);
      }
    }
  }

  /** Inserts `x` before the first element that is not older than it. */
  function Insert(parse: Parser, x: string, s: seq<string>): (r: seq<string>)
    requires AllParse(parse, s) && VersionOf(parse, x).Some?
    requires SortedByVersion(parse, s)
    ensures AllParse(parse, r) && SortedByVersion(parse, r)
    ensures |r| == |s| + 1 && (r[0] == x || (s != [] && r[0] == s[0]))
    decreases |s|
  {
    if s == [] then [x]
    else
      var vx, v0 := VersionOf(parse, x).value, VersionOf(parse, s[0]).value;
      if Le(vx, v0) then
        var r := [x] + s;
        assert forall i | 1 <= i < |r| :: r[i] == s[i - 1];
        r
      else
        CompareFlip(vx, v0);
        assert s == [s[0]] + s[1..];
        var tail := Insert(parse, x, s[1..]);
        assert Le(v0, VersionOf(parse, tail[0]).value) by {
          if tail[0] != x { assert tail[0] == s[1]; }
        }
        var r := [s[0]] + tail;
        assert forall i | 1 <= i < |r| :: r[i] == tail[i - 1];
        r
  }

  /** `sort_by` on the version of each entry: a stable insertion sort. */
  function SortByVersion(parse: Parser, s: seq<string>): (r: seq<string>)
    requires AllParse(parse, s)
    ensures AllParse(parse, r) && SortedByVersion(parse, r)
    decreases |s|
  {
    if s == [] then []
    else
      assert s == [s[0]] + s[1..];
      Insert(parse, s[0], SortByVersion(parse, s[1..]))
  }

  /** Insertion adds exactly `x` to the entries. */
  lemma {:induction false} InsertPermutes(parse: Parser, x: string, s: seq<string>)
    requires AllParse(parse, s) && VersionOf(parse, x).Some?
    requires SortedByVersion(parse, s)
    ensures multiset(Insert(parse, x, s)) == multiset(s) + multiset{x}
    decreases |s|
  {
    if s != [] && !Le(VersionOf(parse, x).value, VersionOf(parse, s[0]).value) {
      assert s == [s[0]] + s[1..];
      InsertPermutes(parse, x, s[1..]);
    }
  }

  /** The sort only reorders: it is a permutation of its input. */
  lemma {:induction false} SortPermutes(parse: Parser, s: seq<string>)
    requires AllParse(parse, s)
    ensures multiset(SortByVersion(parse, s)) == multiset(s)
    decreases |s|
  {
    if s != [] {
      assert s == [s[0]] + s[1..];
      SortPermutes(parse, s[1..]);
      InsertPermutes(parse, s[0], SortByVersion(parse, s[1..]));
    }
  }

  /** The sort step. Its comparator reads both compared entries' versions and
      panics on an unreadable one; with fewer than two entries it is never called. */
  function Order(parse: Parser, s: seq<string>): (r: Option<seq<string>>)
    ensures r.None? <==> |s| >= 2 && !AllParse(parse, s)
    ensures r.Some? ==> multiset(r.value) == multiset(s)
    ensures r.Some? && |s| >= 2 ==> AllParse(parse, r.value) && SortedByVersion(parse, r.value)
  {
    if |s| < 2 then Some(s)
    else if AllParse(parse, s) then
      SortPermutes(parse, s);
      Some(SortByVersion(parse, s))
    else None
  }

  /** `check_updates(downloading, directory)`. `versionFile` is the content of
      `version.txt` (`None` when absent), `fetched` the decoded metadata
      response, `order` the map's iteration order, `parse` the crate's parser. */
  function CheckUpdates(versionFile: Option<string>, fetched: Result<UpdateInfo, string>,
                        order: seq<string>, parse: Parser): (r: CheckOutcome)
    requires fetched.Ok? ==> Enumerates(order, fetched.value.updates.Keys)
    ensures versionFile.None? ==> r == Found([])
    ensures versionFile.Some? && fetched.Err? ==> r == Failed(fetched.error)
    ensures versionFile.Some? && fetched.Ok? ==>
      var current, latest, least := parse(versionFile.value), parse(fetched.value.latest), parse(fetched.value.least);
      && (current.None? || latest.None? || least.None? ==> r.Panicked?)
      && (current.Some? && latest.Some? && least.Some? ==>
          && (Compare(current.value, least.value) == Lt ==> r == Found([]))
          && (Compare(current.value, least.value) != Lt && Compare(current.value, latest.value) == Eq ==> r == Found([]))
          && (Compare(current.value, least.value) != Lt && Compare(current.value, latest.value) == Gt ==> r.Panicked?))
  {
    match versionFile
    case None => Found([])
    case Some(text) =>
      match fetched
      case Err(e) => Failed(e)
      case Ok(info) =>
        var current, latest, least := parse(text), parse(info.latest), parse(info.least);
        if current.None? || latest.None? || least.None? then Panicked(UnwrapNone)
        else if Compare(current.value, least.value) == Lt then Found([])
        else match Compare(current.value, latest.value)
          case Eq => Found([])
          case Gt => Panicked(NewerThanLatest)
          case Lt => Pending(parse, current.value, order, info.updates)
  }

  /** The branch of `check_updates` taken when the installed version is older
      than the latest release: select, then sort. */
  function Pending(parse: Parser, current: Version, order: seq<string>, updates: map<string, string>): (r: CheckOutcome)
    requires forall i | 0 <= i < |order| :: order[i] in updates
    ensures !r.Failed?
    ensures r.Panicked? ==> r.reason == UnwrapNone
    ensures r.Found? ==> |r.paths| <= |order|
  {
    match Select(parse, current, order, updates)
    case None => Panicked(UnwrapNone)
    case Some(selected) =>
      match Order(parse, selected)
      case None => Panicked(UnwrapNone)
      case Some(sorted) =>
        assert |sorted| == |multiset(sorted)| == |multiset(selected)| == |selected|;
        Found(sorted)
  }

  /** The keys of `order` that are newer than `current`. */
  function NewerKeys(parse: Parser, current: Version, order: seq<string>): set<string> {
    set k | k in order && Newer(parse, current, k)
  }

  /** Taking the first key off the list takes it off the newer keys. */
  lemma NewerKeysCons(parse: Parser, current: Version, order: seq<string>)
    requires order != [] && order[0] !in order[1..]
    ensures |NewerKeys(parse, current, order)| ==
      |NewerKeys(parse, current, order[1..])| + (if Newer(parse, current, order[0]) then 1 else 0)
  {
    var k0, rest := order[0], order[1..];
    assert order == [k0] + rest;
    var head := if Newer(parse, current, k0) then {k0} else {};
    assert NewerKeys(parse, current, order) == head + NewerKeys(parse, current, rest);
  }

  /** With each key listed once, the selection holds one entry per newer key. */
  lemma {:induction false} SelectCount(parse: Parser, current: Version, order: seq<string>, updates: map<string, string>)
    requires forall i | 0 <= i < |order| :: order[i] in updates
    requires forall i, j | 0 <= i < j < |order| :: order[i] != order[j]
    requires Select(parse, current, order, updates).Some?
    ensures |Select(parse, current, order, updates).value| == |NewerKeys(parse, current, order)|
    decreases |order|
  {
    if order == [] {
      assert NewerKeys(parse, current, order) == {};
    } else {
      var rest := order[1..];
      assert forall i :: 1 <= i < |order| ==> order[i] == rest[i - 1];
      SelectCount(parse, current, rest, updates);
      assert order[0] !in rest by {
        forall i | 0 <= i < |rest| ensures rest[i] != order[0] {
          assert rest[i] == order[i + 1];
        }
      }
      NewerKeysCons(parse, current, order);
    }
  }

  /** The newer keys of `order` whose update is `x`. */
  function NewerKeysTo(parse: Parser, current: Version, order: seq<string>, updates: map<string, string>, x: string): set<string> {
    set k | k in order && k in updates && Newer(parse, current, k) && updates[k] == x
  }

  /** Taking the first key off the list takes it off the newer keys with update `x`. */
  lemma NewerKeysToCons(parse: Parser, current: Version, order: seq<string>, updates: map<string, string>, x: string)
    requires order != [] && order[0] !in order[1..] && order[0] in updates
    ensures |NewerKeysTo(parse, current, order, updates, x)| ==
      |NewerKeysTo(parse, current, order[1..], updates, x)|
        + (if Newer(parse, current, order[0]) && updates[order[0]] == x then 1 else 0)
  {
    var k0, rest := order[0], order[1..];
    assert order == [k0] + rest;
    var head := if Newer(parse, current, k0) && updates[k0] == x then {k0} else {};
    assert NewerKeysTo(parse, current, order, updates, x) == head + NewerKeysTo(parse, current, rest, updates, x);
  }

  /** With each key listed once, a value occurs in the selection once for
      every newer key whose update it is. */
  lemma {:induction false} SelectMultiplicity(parse: Parser, current: Version, order: seq<string>, updates: map<string, string>, x: string)
    requires forall i | 0 <= i < |order| :: order[i] in updates
    requires forall i, j | 0 <= i < j < |order| :: order[i] != order[j]
    requires Select(parse, current, order, updates).Some?
    ensures multiset(Select(parse, current, order, updates).value)[x] == |NewerKeysTo(parse, current, order, updates, x)|
    decreases |order|
  {
    if order == [] {
      assert NewerKeysTo(parse, current, order, updates, x) == {};
    } else {
      var rest := order[1..];
      assert forall i :: 1 <= i < |order| ==> order[i] == rest[i - 1];
      SelectMultiplicity(parse, current, rest, updates, x);
      assert order[0] !in rest by {
        forall i | 0 <= i < |rest| ensures rest[i] != order[0] {
          assert rest[i] == order[i + 1];
        }
      }
      NewerKeysToCons(parse, current, order, updates, x);
      var head := if Newer(parse, current, order[0]) then [updates[order[0]]] else [];
      assert Select(parse, current, order, updates).value == head + Select(parse, current, rest, updates).value;
      assert multiset(head + Select(parse, current, rest, updates).value)
          == multiset(head) + multiset(Select(parse, current, rest, updates).value);
    }
  }

  /** The keys of the map that are newer than `current`. */
  function NewerInMap(parse: Parser, current: Version, updates: map<string, string>): set<string> {
    set k | k in updates && Newer(parse, current, k)
  }

  /** The update branch panics when some key of the map cannot be read. */
  lemma PendingUnreadableKey(parse: Parser, current: Version, order: seq<string>, updates: map<string, string>, k: string)
    requires Enumerates(order, updates.Keys)
    requires k in updates && VersionOf(parse, k).None?
    ensures Pending(parse, current, order, updates).Panicked?
  {
  }

  /** With every key readable, the update branch returns a list unless two or
      more updates are selected and the value of one of them cannot be read. */
  lemma PendingReturnsList(parse: Parser, current: Version, order: seq<string>, updates: map<string, string>)
    requires Enumerates(order, updates.Keys)
    requires forall k :: k in updates ==> VersionOf(parse, k).Some?
    ensures var newer := NewerInMap(parse, current, updates);
      Pending(parse, current, order, updates).Found? <==>
        |newer| < 2 || forall k :: k in newer ==> VersionOf(parse, updates[k]).Some?
  {
    var newer := NewerInMap(parse, current, updates);
    var sel := Select(parse, current, order, updates);
    assert sel.Some?;
    var selected := sel.value;
    assert newer == NewerKeys(parse, current, order);
    SelectCount(parse, current, order, updates);
    if AllParse(parse, selected) {
      forall k | k in newer ensures VersionOf(parse, updates[k]).Some? {
        var i :| 0 <= i < |order| && order[i] == k;
        assert updates[k] in selected;
      }
    }
    if forall k :: k in newer ==> VersionOf(parse, updates[k]).Some? {
      forall i | 0 <= i < |selected| ensures VersionOf(parse, selected[i]).Some? {
        assert selected[i] in selected;
      }
    }
  }

  /** A list returned by the update branch holds exactly the values of the
      newer keys, one per key, in ascending version order. */
  lemma PendingList(parse: Parser, current: Version, order: seq<string>, updates: map<string, string>)
    requires Enumerates(order, updates.Keys)
    requires Pending(parse, current, order, updates).Found?
    ensures var paths := Pending(parse, current, order, updates).paths;
      var newer := NewerInMap(parse, current, updates);
      && (forall x :: x in paths <==> exists k :: k in newer && updates[k] == x)
      && |paths| == |newer|
      && (|paths| >= 2 ==> AllParse(parse, paths) && SortedByVersion(parse, paths))
      && (forall x :: multiset(paths)[x] == |set k | k in newer && updates[k] == x|)
  {
    var paths := Pending(parse, current, order, updates).paths;
    var newer := NewerInMap(parse, current, updates);
    var selected := Select(parse, current, order, updates).value;
    assert newer == NewerKeys(parse, current, order);
    SelectCount(parse, current, order, updates);
    assert multiset(paths) == multiset(selected);
    forall x ensures x in paths <==> x in selected {
      assert x in paths <==> x in multiset(paths);
      assert x in selected <==> x in multiset(selected);
    }
    forall x ensures x in selected <==> exists k :: k in newer && updates[k] == x {
      if x in selected {
        var i :| 0 <= i < |order| && Newer(parse, current, order[i]) && updates[order[i]] == x;
        assert order[i] in newer;
      }
      if exists k :: k in newer && updates[k] == x {
        var k :| k in newer && updates[k] == x;
        var i :| 0 <= i < |order| && order[i] == k;
      }
    }
    forall x ensures multiset(paths)[x] == |set k | k in newer && updates[k] == x| {
      SelectMultiplicity(parse, current, order, updates, x);
      assert (set k | k in newer && updates[k] == x) == NewerKeysTo(parse, current, order, updates, x);
    }
  }

  /** When the installed version is supported and older than the latest
      release, a list returned by `check_updates` holds exactly the values of
      the map whose key, with every `v` removed, is a newer version than the
      installed one, one per such key, sorted ascending by the version of the
      value with every `v` removed. */
  lemma CheckUpdatesList(text: string, info: UpdateInfo, order: seq<string>, parse: Parser)
    requires Enumerates(order, info.updates.Keys)
    requires parse(text).Some? && parse(info.latest).Some? && parse(info.least).Some?
    requires Compare(parse(text).value, parse(info.least).value) != Lt
    requires Compare(parse(text).value, parse(info.latest).value) == Lt
    requires CheckUpdates(Some(text), Ok(info), order, parse).Found?
    ensures var paths := CheckUpdates(Some(text), Ok(info), order, parse).paths;
      var newer := set k | k in info.updates && Newer(parse, parse(text).value, k);
      && (forall x :: x in paths <==> exists k :: k in newer && info.updates[k] == x)
      && |paths| == |newer|
      && (|paths| >= 2 ==> AllParse(parse, paths) && SortedByVersion(parse, paths))
      && (forall x :: multiset(paths)[x] == |set k | k in newer && info.updates[k] == x|)
  {
    PendingList(parse, parse(text).value, order, info.updates);
  }
}
