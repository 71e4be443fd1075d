/** The task record carried on the board and dragged between columns, and
    the id-based removal every drop applies to the columns it does not
    target. */
module Tasks {
  import opened Uniquing

  /** Stands for the record's `UUID`. Only equality of ids matters here. */
  type TaskId = int

  /** One card. Equality of two values compares all four fields, as the
      record's synthesised `Hashable` conformance does (`RecordEquality`).
      Text fields compare character by character, not by Unicode canonical
      equivalence as Swift strings do. */
  datatype Task = Task(id: TaskId, title: string, owner: string, note: string)

  /** Two records are equal exactly when all four stored fields are. */
  lemma RecordEquality(a: Task, b: Task)
    ensures a == b <==> a.id == b.id && a.title == b.title && a.owner == b.owner && a.note == b.note
  {
  }

  /** The ids of the records in `s`. */
  function IdsOf(s: seq<Task>): set<TaskId> {
    set t | t in s :: t.id
  }

  /** `s` without every record whose id is in `ids`: the effect of
      `removeAll { $0.id == ... }` once per id. */
  function Without(s: seq<Task>, ids: set<TaskId>): (r: seq<Task>)
    ensures forall t :: t in r ==> t in s && t.id !in ids
    ensures |r| <= |s|
  {
    if s == [] then []
    else if s[0].id in ids then Without(s[1..], ids)
    else [s[0]] + Without(s[1..], ids)
  }

  /** A record survives removal exactly when its id is not removed. */
  lemma {:induction false} WithoutMembers(s: seq<Task>, ids: set<TaskId>)
    ensures forall t :: t in Without(s, ids) <==> t in s && t.id !in ids
    ensures |Without(s, ids)| <= |s|
  {
    if s != [] {
      WithoutMembers(s[1..], ids);
      assert forall t :: t in s <==> t == s[0] || t in s[1..];
    }
  }

  /** Removal takes away exactly the removed ids. */
  lemma IdsOfWithout(s: seq<Task>, ids: set<TaskId>)
    ensures IdsOf(Without(s, ids)) == IdsOf(s) - ids
  {
    WithoutMembers(s, ids);
  }

  /** Removal works element by element: it distributes over concatenation,
      so survivors keep their relative order. */
  lemma {:induction false} WithoutAppend(a: seq<Task>, b: seq<Task>, ids: set<TaskId>)
    ensures Without(a + b, ids) == Without(a, ids) + Without(b, ids)
  {
    if a == [] {
      assert a + b == b;
    } else {
      assert (a + b)[0] == a[0];
      assert (a + b)[1..] == a[1..] + b;
      WithoutAppend(a[1..], b, ids);
    }
  }

  /** A sequence none of whose ids is removed comes back unchanged. */
  lemma {:induction false} WithoutNothing(s: seq<Task>, ids: set<TaskId>)
    requires IdsOf(s) !! ids
    ensures Without(s, ids) == s
  {
    if s != [] {
      assert s[0].id in IdsOf(s);
      assert IdsOf(s[1..]) <= IdsOf(s);
      WithoutNothing(s[1..], ids);
    }
  }

  /** Removing one set of ids after another is removing their union; this
      is why the per-task removal loop equals one removal of all dropped
      ids, in whatever order the tasks come. */
  lemma {:induction false} WithoutWithout(s: seq<Task>, a: set<TaskId>, b: set<TaskId>)
    ensures Without(Without(s, a), b) == Without(s, a + b)
  {
    if s != [] {
      WithoutWithout(s[1..], a, b);
    }
  }

  /** Removal never introduces a duplicate. */
  lemma {:induction false} WithoutDistinct(s: seq<Task>, ids: set<TaskId>)
    requires Distinct(s)
    ensures Distinct(Without(s, ids))
  {
    if s != [] {
      assert Distinct(s[1..]) by {
        forall i, j | 0 <= i < j < |s[1..]| ensures s[1..][i] != s[1..][j] {
          assert s[1..][i] == s[i + 1] && s[1..][j] == s[j + 1];
        }
      }
      WithoutDistinct(s[1..], ids);
      WithoutMembers(s[1..], ids);
      assert s[0] !in s[1..];
    }
  }

  /** The ids of a prefix one element longer. */
  lemma IdsOfLongerPrefix(s: seq<Task>, i: nat)
    requires i < |s|
    ensures IdsOf(s[..i + 1]) == IdsOf(s[..i]) + {s[i].id}
  {
    assert s[..i + 1] == s[..i] + [s[i]];
  }
}
