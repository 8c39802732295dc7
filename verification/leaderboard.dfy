/**
 * The live leaderboard's handling of a realtime UPDATE event: the record whose id
 * matches the payload is replaced by the payload's fields, and the list is sorted
 * again by votes, highest first, with a stable sort. Each row is then shown with
 * position `index + 1`.
 */
module Leaderboard {
  import opened Options

  /** The `Contestant` record the leaderboard keeps. */
  datatype Entry = Entry(id: string, fullName: string, votes: int, photoUrl: Option<string>, uniqueSlug: string)

  /** Votes never increase along the list. */
  predicate SortedByVotes(s: seq<Entry>) {
    forall i, j :: 0 <= i < j < |s| ==> s[i].votes >= s[j].votes
  }

  /** The entries with exactly `v` votes, in list order. */
  function WithVotes(s: seq<Entry>, v: int): seq<Entry>
    decreases |s|
  {
    if s == [] then []
    else (if s[0].votes == v then [s[0]] else []) + WithVotes(s[1..], v)
  }

  /** Places `x` in a sorted list just before the first entry with no more votes than it has. */
  function Insert(x: Entry, s: seq<Entry>): (r: seq<Entry>)
    requires SortedByVotes(s)
    ensures |r| == |s| + 1
    ensures r[0] == x || (s != [] && r[0] == s[0])
    decreases |s|
  {
    if s == [] then [x]
    else if x.votes >= s[0].votes then [x] + s
    else [s[0]] + Insert(x, s[1..])
  }

  /** Inserting keeps the list sorted. */
  lemma {:induction false} InsertSorted(x: Entry, s: seq<Entry>)
    requires SortedByVotes(s)
    ensures SortedByVotes(Insert(x, s))
    decreases |s|
  {
    if s != [] && x.votes < s[0].votes {
      var t := Insert(x, s[1..]);
      InsertSorted(x, s[1..]);
      assert t[0].votes <= s[0].votes;
      var r := [s[0]] + t;
      forall i, j | 0 <= i < j < |r| ensures r[i].votes >= r[j].votes {
        if i > 0 {
          assert r[i] == t[i - 1] && r[j] == t[j - 1];
        } else {
          assert r[j] == t[j - 1];
        }
      }
    }
  }

  /** Inserting adds exactly `x`. */
  lemma {:induction false} InsertPermutes(x: Entry, s: seq<Entry>)
    requires SortedByVotes(s)
    ensures multiset(Insert(x, s)) == multiset(s) + multiset{x}
    decreases |s|
  {
    if s != [] && x.votes < s[0].votes {
      InsertPermutes(x, s[1..]);
      assert s == [s[0]] + s[1..];
    }
  }

  /**
   * `sort((a, b) => b.votes - a.votes)`: votes descending, and, the sort being
   * stable, entries with equal votes in their previous order.
   */
  function SortByVotes(s: seq<Entry>): (r: seq<Entry>)
    ensures SortedByVotes(r)
    ensures |r| == |s|
    ensures multiset(r) == multiset(s)
    ensures forall v :: WithVotes(r, v) == WithVotes(s, v)
    decreases |s|
  {
    if s == [] then []
    else
      assert s == [s[0]] + s[1..];
      var rest := SortByVotes(s[1..]);
      InsertSorted(s[0], rest);
      InsertPermutes(s[0], rest);
      InsertGroups(s[0], rest);
      forall v ensures WithVotes(s, v) == (if s[0].votes == v then [s[0]] else []) + WithVotes(s[1..], v) {
        WithVotesCons(s[0], s[1..], v);
      }
      Insert(s[0], rest)
  }

  /** `prev.map(c => c.id === p.id ? { ...c, ...p } : c)`; the payload carries every column, so it replaces the record. */
  function MergeById(prev: seq<Entry>, p: Entry): seq<Entry> {
    seq(|prev|, i requires 0 <= i < |prev| => if prev[i].id == p.id then p else prev[i])
  }

  /** The state after an UPDATE event whose new row is `p`. */
  function OnUpdate(prev: seq<Entry>, p: Entry): seq<Entry> {
    SortByVotes(MergeById(prev, p))
  }

  /** A row of the table: the position shown and the record. */
  datatype Row = Row(position: nat, entry: Entry)

  /** `contestants.map((contestant, index) => ... index + 1 ...)`. */
  function Rows(list: seq<Entry>): seq<Row> {
    seq(|list|, i requires 0 <= i < |list| => Row(i + 1, list[i]))
  }

  // ---------------------------------------------------------------------------
  // Properties

  lemma WithVotesCons(e: Entry, s: seq<Entry>, v: int)
    ensures WithVotes([e] + s, v) == (if e.votes == v then [e] else []) + WithVotes(s, v)
  {
    assert ([e] + s)[1..] == s;
  }

  /** Inserting `x` puts it ahead of every entry with the same votes, and moves nothing else. */
  lemma {:induction false} InsertGroup(x: Entry, s: seq<Entry>, v: int)
    requires SortedByVotes(s)
    ensures WithVotes(Insert(x, s), v) == (if x.votes == v then [x] else []) + WithVotes(s, v)
    decreases |s|
  {
    if s == [] {
      WithVotesCons(x, [], v);
      assert [x] + [] == [x];
    } else if x.votes >= s[0].votes {
      WithVotesCons(x, s, v);
    } else {
      var t := Insert(x, s[1..]);
      InsertGroup(x, s[1..], v);
      WithVotesCons(s[0], t, v);
      WithVotesCons(s[0], s[1..], v);
      assert s == [s[0]] + s[1..];
    }
  }

  lemma InsertGroups(x: Entry, s: seq<Entry>)
    requires SortedByVotes(s)
    ensures forall v :: WithVotes(Insert(x, s), v) == (if x.votes == v then [x] else []) + WithVotes(s, v)
  {
    forall v ensures WithVotes(Insert(x, s), v) == (if x.votes == v then [x] else []) + WithVotes(s, v) {
      InsertGroup(x, s, v);
    }
  }

  /** Membership in the filtered list: exactly the entries with that many votes. */
  lemma {:induction false} WithVotesMembers(s: seq<Entry>, v: int)
    ensures forall e :: e in WithVotes(s, v) <==> e in s && e.votes == v
    decreases |s|
  {
    if s != [] {
      WithVotesMembers(s[1..], v);
      assert s == [s[0]] + s[1..];
    }
  }

  /**
   * A sorted list is determined by its groups of equal votes: two sorted lists
   * whose entries with each vote count come in the same order are the same list.
   * So the result does not depend on which stable sort the browser runs.
   */
  lemma {:induction false} SortedGroupsDetermine(a: seq<Entry>, b: seq<Entry>)
    requires SortedByVotes(a) && SortedByVotes(b)
    requires forall v :: WithVotes(a, v) == WithVotes(b, v)
    ensures a == b
    decreases |a|
  {
    if a != [] {
      WithVotesMembers(b, a[0].votes);
      assert a[0] in WithVotes(a, a[0].votes);
    }
    if b != [] {
      WithVotesMembers(a, b[0].votes);
      assert b[0] in WithVotes(b, b[0].votes);
    }
    if a != [] {
      assert a[0].votes == b[0].votes;
      assert a[0] == WithVotes(a, a[0].votes)[0] == WithVotes(b, a[0].votes)[0] == b[0];
      forall v ensures WithVotes(a[1..], v) == WithVotes(b[1..], v) {
        var pre := if a[0].votes == v then [a[0]] else [];
        assert WithVotes(a, v) == pre + WithVotes(a[1..], v);
        assert WithVotes(b, v) == pre + WithVotes(b[1..], v);
        assert (pre + WithVotes(a[1..], v))[|pre|..] == WithVotes(a[1..], v);
        assert (pre + WithVotes(b[1..], v))[|pre|..] == WithVotes(b[1..], v);
      }
      SortedGroupsDetermine(a[1..], b[1..]);
      assert a == [a[0]] + a[1..] && b == [b[0]] + b[1..];
    }
  }

  /** Sorting an already sorted list leaves it as it is. */
  lemma SortSortedIsIdentity(s: seq<Entry>)
    requires SortedByVotes(s)
    ensures SortByVotes(s) == s
  {
    SortedGroupsDetermine(SortByVotes(s), s);
  }

  /**
   * After an UPDATE the list is sorted by votes, highest first; it is a
   * permutation of the merged list; records with equal votes keep their order;
   * and its records are exactly the untouched ones plus, when some record carried
   * the payload's id, the payload.
   */
  lemma AfterUpdate(prev: seq<Entry>, p: Entry)
    ensures SortedByVotes(OnUpdate(prev, p))
    ensures |OnUpdate(prev, p)| == |prev|
    ensures multiset(OnUpdate(prev, p)) == multiset(MergeById(prev, p))
    ensures forall v :: WithVotes(OnUpdate(prev, p), v) == WithVotes(MergeById(prev, p), v)
    ensures forall e :: e in OnUpdate(prev, p) <==>
              (e in prev && e.id != p.id) || (e == p && exists i :: 0 <= i < |prev| && prev[i].id == p.id)
  {
    var m := MergeById(prev, p);
    var r := OnUpdate(prev, p);
    forall e
      ensures e in r <==> (e in prev && e.id != p.id) || (e == p && exists i :: 0 <= i < |prev| && prev[i].id == p.id)
    {
      assert e in r <==> e in multiset(r);
      assert e in m <==> e in multiset(m);
      if e in prev && e.id != p.id {
        var i :| 0 <= i < |prev| && prev[i] == e;
        assert m[i] == e;
      }
      if e == p && exists i :: 0 <= i < |prev| && prev[i].id == p.id {
        var i :| 0 <= i < |prev| && prev[i].id == p.id;
        assert m[i] == p;
      }
    }
  }

  /**
   * An UPDATE for an id the list does not hold keeps the same records, only
   * re-sorted; when the list was already sorted it stays exactly as it was.
   */
  lemma UnmatchedUpdate(prev: seq<Entry>, p: Entry)
    requires forall i :: 0 <= i < |prev| ==> prev[i].id != p.id
    ensures multiset(OnUpdate(prev, p)) == multiset(prev)
    ensures SortedByVotes(prev) ==> OnUpdate(prev, p) == prev
  {
    assert MergeById(prev, p) == prev;
    if SortedByVotes(prev) {
      SortSortedIsIdentity(prev);
    }
  }

  /**
   * Positions count from 1 in list order; on a sorted list the leader is shown
   * first and a record with strictly more votes always has a smaller position.
   */
  lemma PositionsRank(list: seq<Entry>)
    requires SortedByVotes(list)
    ensures |Rows(list)| == |list|
    ensures forall i :: 0 <= i < |list| ==> Rows(list)[i].entry == list[i] && Rows(list)[i].position == i + 1
    ensures forall i, j :: 0 <= i < |list| && 0 <= j < |list| && list[i].votes > list[j].votes ==>
              Rows(list)[i].position < Rows(list)[j].position
    ensures |list| > 0 ==> Rows(list)[0].position == 1 && forall i :: 0 <= i < |list| ==> list[i].votes <= list[0].votes
  {
  }
}
