/** Employee records, the search test of `refresh_list`, and the semantics of
    `list.remove` that `delete_employee` relies on. */
module Records {
  import opened PyStr

  /** One entry of the list: a `{"name": ..., "short": ...}` dict. Two dicts
      are equal (`==`, as `list.remove` compares them) when both fields are. */
  datatype Record = Record(name: string, short: string)

  /** The test `query.lower() in emp["name"].lower() or query in emp["short"]`:
      the name is searched without regard to case, the short number as typed.
      With ASCII lower-casing, a query longer than both fields never
      matches. */
  predicate Matches(query: string, r: Record): (b: bool)
    ensures b ==> |query| <= |r.name| || |query| <= |r.short|
  {
    Contains(Lower(r.name), Lower(query)) || Contains(r.short, query)
  }

  /** A record matches exactly when the lower-cased query occurs somewhere
      in the lower-cased name, or the query occurs somewhere in the short
      number. */
  lemma MatchesIff(query: string, r: Record)
    ensures Matches(query, r) <==> Occurs(Lower(r.name), Lower(query)) || Occurs(r.short, query)
  {
    ContainsIff(Lower(r.name), Lower(query));
    ContainsIff(r.short, query);
  }

  /** The records of `s` that match `query`, kept in list order. The
      definition peels off the last record, so that the front-to-back loop
      of `RefreshList` extends a prefix. */
  function Filter(query: string, s: seq<Record>): (r: seq<Record>)
    ensures |r| <= |s|
  {
    if s == [] then []
    else
      var last := s[|s| - 1];
      Filter(query, s[..|s| - 1]) + (if Matches(query, last) then [last] else [])
  }

  /** The positions in `s` of the records that match `query`, ascending. */
  function MatchPositions(query: string, s: seq<Record>): (p: seq<nat>)
    ensures forall k :: 0 <= k < |p| ==> p[k] < |s|
  {
    if s == [] then []
    else
      MatchPositions(query, s[..|s| - 1]) + (if Matches(query, s[|s| - 1]) then [|s| - 1] else [])
  }

  /** The search result is exactly the matching records, in their relative
      order: its k-th entry is the record at the k-th matching position,
      positions ascend, and a position is selected exactly when its record
      matches. */
  lemma {:induction false} FilterSelectsMatches(query: string, s: seq<Record>)
    ensures |Filter(query, s)| == |MatchPositions(query, s)|
    ensures forall k :: 0 <= k < |Filter(query, s)| ==>
              Filter(query, s)[k] == s[MatchPositions(query, s)[k]]
    ensures forall k, l :: 0 <= k < l < |MatchPositions(query, s)| ==>
              MatchPositions(query, s)[k] < MatchPositions(query, s)[l]
    ensures forall j :: 0 <= j < |s| ==> (j in MatchPositions(query, s) <==> Matches(query, s[j]))
  {
    if s != [] {
      var init := s[..|s| - 1];
      FilterSelectsMatches(query, init);
      var p := MatchPositions(query, s);
      forall j | 0 <= j < |s| ensures j in p <==> Matches(query, s[j]) {
        if j < |s| - 1 {
          assert s[j] == init[j];
        }
      }
    }
  }

  lemma FilterSingleton(query: string, r: Record)
    ensures Filter(query, [r]) == if Matches(query, r) then [r] else []
  {
  }

  /** A record is in the result exactly when it is in the list and matches. */
  lemma FilterMembers(query: string, s: seq<Record>, x: Record)
    ensures x in Filter(query, s) <==> x in s && Matches(query, x)
  {
    if x in s && Matches(query, x) {
      var j :| 0 <= j < |s| && s[j] == x;
      FilterSelectsMatches(query, s);
      var p := MatchPositions(query, s);
      var k :| 0 <= k < |p| && p[k] == j;
      assert Filter(query, s)[k] == x;
    }
  }

  /** The empty query matches every record (`"" in t` holds for every `t`). */
  lemma EmptyQueryMatches(r: Record)
    ensures Matches("", r)
  {
    assert Lower("") == "";
    ContainsEmpty(Lower(r.name));
  }

  /** Searching for the empty query gives back the whole list, in order. */
  lemma {:induction false} FilterEmptyQuery(s: seq<Record>)
    ensures Filter("", s) == s
  {
    if s != [] {
      FilterEmptyQuery(s[..|s| - 1]);
      EmptyQueryMatches(s[|s| - 1]);
      assert s == s[..|s| - 1] + [s[|s| - 1]];
    }
  }

  /** The index `list.remove(x)` deletes at: the first position holding a
      record equal to `x`, or `|s|` when there is none (where `list.remove`
      raises `ValueError`). */
  function IndexOf(s: seq<Record>, x: Record): (k: nat)
    ensures k <= |s|
    ensures k < |s| <==> x in s
    ensures k < |s| ==> s[k] == x
    ensures forall j :: 0 <= j < k ==> s[j] != x
  {
    if s == [] then 0
    else if s[0] == x then 0
    else 1 + IndexOf(s[1..], x)
  }

  /** `s` with the element at position `i` taken out. */
  function Without(s: seq<Record>, i: nat): (r: seq<Record>)
    requires i < |s|
    ensures |r| == |s| - 1
    ensures multiset(r) == multiset(s) - multiset{s[i]}
    ensures forall j :: 0 <= j < |r| ==> r[j] == if j < i then s[j] else s[j + 1]
  {
    assert s == s[..i] + [s[i]] + s[i + 1..];
    s[..i] + s[i + 1..]
  }

  lemma {:induction false} EqualRun(s: seq<Record>, k: nat, i: nat)
    requires k <= i < |s|
    requires forall j :: k <= j < i ==> s[j] == s[j + 1]
    ensures forall j :: k <= j <= i ==> s[j] == s[i]
    decreases i - k
  {
    if k < i {
      EqualRun(s, k + 1, i);
      assert s[k] == s[k + 1];
    }
  }

  /** The edit dialog holds the record at position `i`, but delete removes
      the FIRST record equal to it. That position is never later than `i`;
      either way one copy of the same value goes; and the two lists are the
      same exactly when every record from the first equal one up to `i`
      equals the selected one. With `[a, b, a]` and `i == 2` the result is
      `[b, a]`, not `[a, b]`. */
  lemma RemoveFirstVersusSelected(s: seq<Record>, i: nat)
    requires i < |s|
    ensures IndexOf(s, s[i]) <= i
    ensures multiset(Without(s, IndexOf(s, s[i]))) == multiset(Without(s, i))
    ensures Without(s, IndexOf(s, s[i])) == Without(s, i) <==>
            forall j :: IndexOf(s, s[i]) <= j <= i ==> s[j] == s[i]
  {
    var k := IndexOf(s, s[i]);
    if Without(s, k) == Without(s, i) {
      SameRemovalIsRun(s, k, i);
    }
    if forall j :: k <= j <= i ==> s[j] == s[i] {
      RunGivesSameRemoval(s, k, i);
    }
  }

  lemma SameRemovalIsRun(s: seq<Record>, k: nat, i: nat)
    requires k <= i < |s|
    requires Without(s, k) == Without(s, i)
    ensures forall j :: k <= j <= i ==> s[j] == s[i]
  {
    var a, b := Without(s, k), Without(s, i);
    forall j | k <= j < i ensures s[j] == s[j + 1] {
      assert a[j] == s[j + 1];
      assert b[j] == s[j];
    }
    EqualRun(s, k, i);
  }

  lemma RunGivesSameRemoval(s: seq<Record>, k: nat, i: nat)
    requires k <= i < |s|
    requires forall j :: k <= j <= i ==> s[j] == s[i]
    ensures Without(s, k) == Without(s, i)
  {
    var a, b := Without(s, k), Without(s, i);
    forall j | 0 <= j < |a| ensures a[j] == b[j] {
      if k <= j < i {
        assert a[j] == s[j + 1] && b[j] == s[j];
      }
    }
  }
}
