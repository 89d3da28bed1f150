/** The `Task` record of the to-do app and the list vocabulary shared by the
    in-memory store, the SQL table contract and the view model: "has a record
    with id k", "ids are unique", "position j holds the first record with id k",
    the `indexOfFirst` search, sub-sequences and the order-preserving filter. */
module Tasks {

  /** One to-do item: the table row `tasks(id, description, is_completed)`.
      Kotlin's `Int` id is only ever compared for equality here, so its 32-bit
      width plays no role and it is an unbounded `int`. */
  datatype Task = Task(id: int, description: string, isCompleted: bool)

  /** Some record of `s` carries id `k`. */
  predicate HasId(s: seq<Task>, k: int) {
    exists i :: 0 <= i < |s| && s[i].id == k
  }

  /** No two positions of `s` carry the same id: what the table's primary key
      guarantees and what the in-memory list must be kept to. */
  predicate UniqueIds(s: seq<Task>) {
    forall i, j :: 0 <= i < j < |s| ==> s[i].id != s[j].id
  }

  /** Position `j` holds the first record of `s` whose id is `k`. */
  predicate IsFirstWithId(s: seq<Task>, j: int, k: int) {
    0 <= j < |s| && s[j].id == k && forall i :: 0 <= i < j ==> s[i].id != k
  }

  /** Kotlin's `indexOfFirst { it.id == k }`: the first position holding id `k`,
      or -1 when there is none. */
  function IndexOfFirst(s: seq<Task>, k: int): (i: int)
    ensures -1 <= i < |s|
    ensures i == -1 <==> !HasId(s, k)
    ensures i != -1 ==> IsFirstWithId(s, i, k)
  {
    if s == [] then -1
    else if s[0].id == k then 0
    else
      var j := IndexOfFirst(s[1..], k);
      assert forall i :: 1 <= i < |s| ==> s[i] == s[1..][i - 1];
      if j == -1 then -1 else j + 1
  }

  /** `r` is obtained from `s` by deleting elements: matching greedily, each
      element of `r` is met in `s` in order. */
  predicate Subseq(r: seq<Task>, s: seq<Task>)
    decreases |s|
  {
    if r == [] then true
    else if s == [] then false
    else if r[0] == s[0] then Subseq(r[1..], s[1..])
    else Subseq(r, s[1..])
  }

  /** Every element of a sub-sequence occurs in the sequence it was taken from. */
  lemma {:induction false} SubseqMembers(r: seq<Task>, s: seq<Task>)
    requires Subseq(r, s)
    ensures forall t :: t in r ==> t in s
    decreases |s|
  {
    if r != [] {
      if r[0] == s[0] {
        SubseqMembers(r[1..], s[1..]);
        forall t | t in r ensures t in s {
          if t != r[0] {
            assert t in r[1..];
            assert t in s[1..];
          }
        }
      } else {
        SubseqMembers(r, s[1..]);
        forall t | t in r ensures t in s {
          assert t in s[1..];
        }
      }
    }
  }

  /** Deleting records cannot create a duplicate id. */
  lemma {:induction false} SubseqUniqueIds(r: seq<Task>, s: seq<Task>)
    requires Subseq(r, s)
    requires UniqueIds(s)
    ensures UniqueIds(r)
    decreases |s|
  {
    if r != [] {
      assert forall i, j :: 0 <= i < j < |s| - 1 ==> s[1..][i] == s[i + 1] && s[1..][j] == s[j + 1];
      assert UniqueIds(s[1..]);
      if r[0] == s[0] {
        SubseqUniqueIds(r[1..], s[1..]);
        SubseqMembers(r[1..], s[1..]);
        forall i, j | 0 <= i < j < |r| ensures r[i].id != r[j].id {
          if i == 0 {
            assert r[j] == r[1..][j - 1];
            assert r[j] in s[1..];
            var m :| 0 <= m < |s[1..]| && s[1..][m] == r[j];
            assert s[m + 1] == r[j];
          } else {
            assert r[i] == r[1..][i - 1] && r[j] == r[1..][j - 1];
          }
        }
      } else {
        SubseqUniqueIds(r, s[1..]);
      }
    }
  }

  /** Kotlin's `filter(keep)`: the elements satisfying `keep`, in their
      original order (`removeIf(p)` is the filter on `!p`). */
  function Filter(s: seq<Task>, keep: Task -> bool): (r: seq<Task>)
    ensures forall t :: multiset(r)[t] == if keep(t) then multiset(s)[t] else 0
    ensures forall t :: t in r <==> t in s && keep(t)
    ensures Subseq(r, s)
  {
    if s == [] then []
    else
      var rest := Filter(s[1..], keep);
      assert s == [s[0]] + s[1..];
      if keep(s[0]) then
        assert ([s[0]] + rest)[1..] == rest;
        [s[0]] + rest
      else
        assert Subseq(rest, s[1..]);
        SubseqSkip(rest, s);
        rest
  }

  /** Dropping the head of the source keeps a sub-sequence a sub-sequence. */
  lemma {:induction false} SubseqSkip(r: seq<Task>, s: seq<Task>)
    requires s != []
    requires Subseq(r, s[1..])
    ensures Subseq(r, s)
    decreases |s|, 0
  {
    if r != [] && r[0] == s[0] {
      // r[0] == s[0] and Subseq(r, s[1..]) means r[1..] is also inside s[1..]
      SubseqTail(r, s[1..]);
    }
  }

  /** Whatever follows the head of a sub-sequence is a sub-sequence too. */
  lemma {:induction false} SubseqTail(r: seq<Task>, s: seq<Task>)
    requires r != []
    requires Subseq(r, s)
    ensures Subseq(r[1..], s)
    decreases |s|, 1
  {
    if r[0] == s[0] {
      SubseqSkip(r[1..], s);
    } else {
      SubseqTail(r, s[1..]);
      SubseqSkip(r[1..], s);
    }
  }

  /** A filter that keeps every element returns the sequence itself. */
  lemma {:induction false} FilterKeepAll(s: seq<Task>, keep: Task -> bool)
    requires forall t :: t in s ==> keep(t)
    ensures Filter(s, keep) == s
    decreases |s|
  {
    if s != [] {
      assert forall t :: t in s[1..] ==> t in s;
      FilterKeepAll(s[1..], keep);
      assert s == [s[0]] + s[1..];
    }
  }
}
