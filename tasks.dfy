/** The task record and the array operations the handlers of `App` build their
    new lists with: `filter` by id, `map` that rewrites a description, and
    `find` by id. */
module Tasks {

  /** A task: an identifier fixed at creation and a free-text description. */
  datatype Task = Task(id: string, desc: string)

  datatype Option<T> = None | Some(value: T)

  /** The identifiers that occur in a list. */
  function Ids(s: seq<Task>): set<string>
  {
    set t | t in s :: t.id
  }

  /** No identifier occurs twice in the list. */
  predicate DistinctIds(s: seq<Task>)
  {
    forall i, j | 0 <= i < j < |s| :: s[i].id != s[j].id
  }

  /** The number of records of the list that carry identifier `id`. */
  function Count(s: seq<Task>, id: string): nat
  {
    if s == [] then 0 else (if s[0].id == id then 1 else 0) + Count(s[1..], id)
  }

  /** `r` keeps some of the elements of `s`, in their order in `s`. */
  ghost predicate IsSubsequence(r: seq<Task>, s: seq<Task>)
    decreases |s|
  {
    && |r| <= |s|
    && (|| r == []
        || (r[0] == s[0] && IsSubsequence(r[1..], s[1..]))
        || IsSubsequence(r, s[1..]))
  }

  /** The identifiers of a non-empty list: those of its head and of its tail. */
  lemma IdsCons(s: seq<Task>)
    requires s != []
    ensures Ids(s) == {s[0].id} + Ids(s[1..])
  {
    assert s == [s[0]] + s[1..];
    assert forall t :: t in s <==> t == s[0] || t in s[1..];
  }

  /** A non-empty list has distinct identifiers exactly when its tail has and
      the head's identifier does not occur in the tail. */
  lemma DistinctCons(s: seq<Task>)
    requires s != []
    ensures DistinctIds(s) <==> s[0].id !in Ids(s[1..]) && DistinctIds(s[1..])
  {
    if DistinctIds(s) {
      forall t | t in s[1..] ensures t.id != s[0].id {
        var j :| 0 <= j < |s[1..]| && s[1..][j] == t;
        assert s[j + 1] == t;
      }
    }
    if s[0].id !in Ids(s[1..]) && DistinctIds(s[1..]) {
      forall i, j | 0 <= i < j < |s| ensures s[i].id != s[j].id {
        assert s[j] == s[1..][j - 1];
        if i > 0 {
          assert s[i] == s[1..][i - 1];
        }
      }
    }
  }

  /** `s.filter((task) => task.id !== id)`: one record fewer for every record
      carrying `id`, and no change at all when no record carries it. Which
      records are kept, and in what order, is stated by WithoutMembers and
      WithoutIsSubsequence. */
  function Without(s: seq<Task>, id: string): (r: seq<Task>)
    ensures |r| == |s| - Count(s, id)
    ensures id !in Ids(s) ==> r == s
  {
    if s == [] then []
    else
      IdsCons(s);
      var rest := Without(s[1..], id);
      if s[0].id == id then rest
      else
        assert s == [s[0]] + s[1..];
        [s[0]] + rest
  }

  /** Filtering keeps exactly the records whose identifier differs from `id`. */
  lemma {:induction false} WithoutMembers(s: seq<Task>, id: string)
    ensures forall t :: t in Without(s, id) <==> t in s && t.id != id
  {
    if s != [] {
      WithoutMembers(s[1..], id);
      assert s == [s[0]] + s[1..];
      assert forall t :: t in s <==> t == s[0] || t in s[1..];
    }
  }

  /** Filtering keeps the relative order of the records it keeps. */
  lemma {:induction false} WithoutIsSubsequence(s: seq<Task>, id: string)
    ensures IsSubsequence(Without(s, id), s)
  {
    if s != [] {
      WithoutIsSubsequence(s[1..], id);
      var r := Without(s, id);
      if s[0].id != id {
        assert r[0] == s[0] && r[1..] == Without(s[1..], id);
      }
    }
  }

  /** Filtering removes exactly the one identifier from the set of identifiers. */
  lemma WithoutIds(s: seq<Task>, id: string)
    ensures Ids(Without(s, id)) == Ids(s) - {id}
  {
    var r := Without(s, id);
    WithoutMembers(s, id);
    forall x | x in Ids(s) - {id} ensures x in Ids(r) {
      var t :| t in s && t.id == x;
      assert t in r;
    }
  }

  /** Filtering keeps identifiers distinct. */
  lemma {:induction false} WithoutKeepsDistinct(s: seq<Task>, id: string)
    requires DistinctIds(s)
    ensures DistinctIds(Without(s, id))
  {
    if s != [] {
      DistinctCons(s);
      WithoutKeepsDistinct(s[1..], id);
      WithoutIds(s[1..], id);
      if s[0].id != id {
        var r := Without(s, id);
        assert r == [s[0]] + Without(s[1..], id);
        assert r[1..] == Without(s[1..], id);
        DistinctCons(r);
      }
    }
  }

  /** Filtering a concatenation filters each part: the order between the kept
      records of the two parts is kept as well. */
  lemma {:induction false} WithoutConcat(a: seq<Task>, b: seq<Task>, id: string)
    ensures Without(a + b, id) == Without(a, id) + Without(b, id)
  {
    if a == [] {
      assert a + b == b;
    } else {
      var ab := a + b;
      assert ab[0] == a[0];
      assert ab[1..] == a[1..] + b;
      WithoutConcat(a[1..], b, id);
      if a[0].id == id {
        calc {
          Without(ab, id);
          Without(ab[1..], id);
          Without(a[1..], id) + Without(b, id);
        }
      } else {
        calc {
          Without(ab, id);
          [a[0]] + Without(ab[1..], id);
          [a[0]] + (Without(a[1..], id) + Without(b, id));
          ([a[0]] + Without(a[1..], id)) + Without(b, id);
        }
      }
    }
  }

  /** In a list without duplicate identifiers an identifier occurs at most once. */
  lemma {:induction false} CountWhenDistinct(s: seq<Task>, id: string)
    requires DistinctIds(s)
    ensures Count(s, id) == if id in Ids(s) then 1 else 0
  {
    if s != [] {
      IdsCons(s);
      DistinctCons(s);
      CountWhenDistinct(s[1..], id);
    }
  }

  /** Concatenation is associative (stated once so that the proofs below can
      use it without the solver rediscovering it among the filter facts). */
  lemma AppendAssoc(a: seq<Task>, b: seq<Task>, c: seq<Task>)
    ensures (a + b) + c == a + (b + c)
  {
  }

  /** Filtering out the identifier of a record that occurs nowhere else removes
      just that record. */
  lemma {:induction false} WithoutSingle(p: seq<Task>, t: Task, q: seq<Task>)
    requires t.id !in Ids(p) && t.id !in Ids(q)
    ensures Without(p + [t] + q, t.id) == p + q
  {
    if p == [] {
      assert p + [t] + q == [t] + q;
      assert ([t] + q)[1..] == q;
    } else {
      var s := p + [t] + q;
      assert s[0] == p[0] && p[0] in p;
      assert s[1..] == p[1..] + [t] + q;
      assert Without(s, t.id) == [p[0]] + Without(s[1..], t.id);
      assert t.id !in Ids(p[1..]) by {
        IdsCons(p);
      }
      WithoutSingle(p[1..], t, q);
      assert p == [p[0]] + p[1..];
      assert p + q == [p[0]] + (p[1..] + q) by {
        AppendAssoc([p[0]], p[1..], q);
      }
    }
  }

  /** With distinct identifiers, the identifier of the record at index `k`
      occurs neither before nor after it. */
  lemma DistinctSplit(s: seq<Task>, k: nat)
    requires DistinctIds(s) && k < |s|
    ensures s == s[..k] + [s[k]] + s[k + 1..]
    ensures s[k].id !in Ids(s[..k]) && s[k].id !in Ids(s[k + 1..])
  {
    assert s == s[..k] + [s[k]] + s[k + 1..];
    forall u | u in s[..k] ensures u.id != s[k].id {
      var j :| 0 <= j < k && s[..k][j] == u;
    }
    forall u | u in s[k + 1..] ensures u.id != s[k].id {
      var j :| 0 <= j < |s[k + 1..]| && s[k + 1..][j] == u;
      assert u == s[k + 1 + j];
    }
  }

  /** With distinct identifiers, filtering out the identifier of the record at
      index `k` is removing that one record. */
  lemma WithoutIsRemoveAt(s: seq<Task>, k: nat)
    requires DistinctIds(s) && k < |s|
    ensures Without(s, s[k].id) == s[..k] + s[k + 1..]
  {
    DistinctSplit(s, k);
    WithoutSingle(s[..k], s[k], s[k + 1..]);
  }

  /** `s.map((task) => task.id === id ? { ...task, desc: d } : task)`: every
      record keeps its identifier and position; exactly the records with
      identifier `id` get description `d`. */
  function Edited(s: seq<Task>, id: string, d: string): (r: seq<Task>)
    ensures |r| == |s|
    ensures forall i | 0 <= i < |s| :: r[i].id == s[i].id
    ensures forall i | 0 <= i < |s| :: r[i].desc == if s[i].id == id then d else s[i].desc
  {
    if s == [] then []
    else [if s[0].id == id then s[0].(desc := d) else s[0]] + Edited(s[1..], id, d)
  }

  /** Editing keeps the set of identifiers and their distinctness, and is the
      identity when no record has the identifier. */
  lemma EditedKeepsIds(s: seq<Task>, id: string, d: string)
    ensures Ids(Edited(s, id, d)) == Ids(s)
    ensures DistinctIds(s) <==> DistinctIds(Edited(s, id, d))
    ensures id !in Ids(s) ==> Edited(s, id, d) == s
  {
    var r := Edited(s, id, d);
    forall x | x in Ids(s) ensures x in Ids(r) {
      var k :| 0 <= k < |s| && s[k].id == x;
      assert r[k] in r;
    }
    forall x | x in Ids(r) ensures x in Ids(s) {
      var k :| 0 <= k < |r| && r[k].id == x;
      assert s[k] in s;
    }
    if id !in Ids(s) {
      forall k | 0 <= k < |s| ensures r[k] == s[k] {
        assert s[k] in s;
      }
    }
  }

  /** A second edit of the same identifier overrides the first; in particular
      editing is idempotent. */
  lemma EditedLastWins(s: seq<Task>, id: string, d1: string, d2: string)
    ensures Edited(Edited(s, id, d1), id, d2) == Edited(s, id, d2)
  {
    var a, b := Edited(Edited(s, id, d1), id, d2), Edited(s, id, d2);
    forall k | 0 <= k < |s| ensures a[k] == b[k] {
    }
  }

  /** Editing one identifier and filtering out another can be done in either order. */
  lemma {:induction false} EditedWithoutCommute(s: seq<Task>, id: string, d: string, other: string)
    requires id != other
    ensures Without(Edited(s, id, d), other) == Edited(Without(s, other), id, d)
  {
    if s != [] {
      EditedWithoutCommute(s[1..], id, d, other);
      assert Edited(s, id, d)[1..] == Edited(s[1..], id, d);
    }
  }

  /** `s.find((task) => task.id === id)`: the first record with identifier
      `id`, or nothing when no record has it. */
  function Find(s: seq<Task>, id: string): (r: Option<Task>)
    ensures r.None? <==> id !in Ids(s)
    ensures r.Some? ==> r.value in s && r.value.id == id
  {
    if s == [] then None
    else if s[0].id == id then (assert s[0] in s; Some(s[0]))
    else
      var r := Find(s[1..], id);
      assert forall t :: t in s[1..] ==> t in s;
      assert forall t :: t in s ==> t == s[0] || t in s[1..] by {
        assert s == [s[0]] + s[1..];
      }
      r
  }

  /** Find returns the FIRST record with the identifier. */
  lemma {:induction false} FindFirst(p: seq<Task>, t: Task, q: seq<Task>)
    requires t.id !in Ids(p)
    ensures Find(p + [t] + q, t.id) == Some(t)
  {
    if p != [] {
      IdsCons(p);
      FindFirst(p[1..], t, q);
      assert (p + [t] + q)[1..] == p[1..] + [t] + q;
    }
  }

  /** With distinct identifiers, Find returns the record at the index where the
      identifier occurs. */
  lemma FindWhenDistinct(s: seq<Task>, k: nat)
    requires DistinctIds(s) && k < |s|
    ensures Find(s, s[k].id) == Some(s[k])
  {
    DistinctSplit(s, k);
    FindFirst(s[..k], s[k], s[k + 1..]);
  }
}
