/** The member table of a JSON object as a sequence of named entries, and what
    `ObjectValue::sort` makes of it: a stable sort by name, after which every
    entry followed by one of the same name is dropped, so the entry inserted
    last under each name is the one that stays. */
module ObjectTable {
  import opened NameOrder

  /** A member: its name and its value. */
  datatype Entry<V> = Entry(name: string, value: V)

  /** Ordered by name, equal names allowed. */
  predicate Sorted<V>(s: seq<Entry<V>>)
  {
    forall i, j :: 0 <= i < j < |s| ==> !Less(s[j].name, s[i].name)
  }

  /** Ordered by name with no name twice. */
  predicate StrictlySorted<V>(s: seq<Entry<V>>)
  {
    forall i, j :: 0 <= i < j < |s| ==> Less(s[i].name, s[j].name)
  }

  /** The names that occur. */
  ghost function Names<V>(s: seq<Entry<V>>): set<string>
  {
    set e | e in s :: e.name
  }

  /** The entries named `n`, in their order. */
  function Named<V>(s: seq<Entry<V>>, n: string): seq<Entry<V>>
  {
    if |s| == 0 then [] else (if s[0].name == n then [s[0]] else []) + Named(s[1..], n)
  }

  /** The last element of a sequence, as a sequence of at most one. */
  function LastOnly<V>(f: seq<Entry<V>>): seq<Entry<V>>
  {
    if |f| == 0 then [] else [f[|f| - 1]]
  }

  // ----------------------------------------------------------- the stable sort

  /** Places `e` after every entry whose name does not sort after its own:
      the insertion step of a stable sort, scanning from the right. */
  function Insert<V>(t: seq<Entry<V>>, e: Entry<V>): seq<Entry<V>>
  {
    if |t| == 0 then [e]
    else if Less(e.name, t[|t| - 1].name) then Insert(t[..|t| - 1], e) + [t[|t| - 1]]
    else t + [e]
  }

  /** `std::stable_sort` by name. */
  function SortByName<V>(s: seq<Entry<V>>): seq<Entry<V>>
  {
    if |s| == 0 then [] else Insert(SortByName(s[..|s| - 1]), s[|s| - 1])
  }

  // ---------------------------------------------------- dropping the shadowed

  /** Every entry whose successor has the same name is dropped: the
      `remove_if` pass of `sort`. */
  function KeepLast<V>(t: seq<Entry<V>>): seq<Entry<V>>
  {
    if |t| == 0 then []
    else (if |t| > 1 && t[0].name == t[1].name then [] else [t[0]]) + KeepLast(t[1..])
  }

  /** What `sort` leaves of a table. */
  function Normalize<V>(s: seq<Entry<V>>): seq<Entry<V>>
  {
    KeepLast(SortByName(s))
  }

  // ------------------------------------------------------------ Named lemmas

  lemma {:induction false} NamedAppend<V>(a: seq<Entry<V>>, b: seq<Entry<V>>, n: string)
    ensures Named(a + b, n) == Named(a, n) + Named(b, n)
    decreases |a|
  {
    if |a| == 0 {
      assert a + b == b;
    } else {
      var h := if a[0].name == n then [a[0]] else [];
      assert (a + b)[0] == a[0];
      assert (a + b)[1..] == a[1..] + b;
      NamedAppend(a[1..], b, n);
      assert Named(a + b, n) == h + (Named(a[1..], n) + Named(b, n));
      assert Named(a, n) == h + Named(a[1..], n);
    }
  }

  lemma {:induction false} NamedNone<V>(s: seq<Entry<V>>, n: string)
    requires forall i :: 0 <= i < |s| ==> s[i].name != n
    ensures Named(s, n) == []
    decreases |s|
  {
    if |s| > 0 {
      NamedNone(s[1..], n);
    }
  }

  lemma {:induction false} NamedOccurs<V>(s: seq<Entry<V>>, n: string)
    ensures n in Names(s) <==> |Named(s, n)| > 0
    decreases |s|
  {
    if |s| > 0 {
      NamedOccurs(s[1..], n);
      assert s == [s[0]] + s[1..];
      assert Names(s) == {s[0].name} + Names(s[1..]);
    }
  }

  // ------------------------------------------------------------- sort lemmas

  lemma {:induction false} InsertPermutes<V>(t: seq<Entry<V>>, e: Entry<V>)
    ensures multiset(Insert(t, e)) == multiset(t) + multiset{e}
    decreases |t|
  {
    if |t| > 0 && Less(e.name, t[|t| - 1].name) {
      InsertPermutes(t[..|t| - 1], e);
      assert t == t[..|t| - 1] + [t[|t| - 1]];
    }
  }

  lemma SortedAppend<V>(a: seq<Entry<V>>, b: Entry<V>)
    requires Sorted(a)
    requires forall i :: 0 <= i < |a| ==> !Less(b.name, a[i].name)
    ensures Sorted(a + [b])
  {
  }

  lemma {:induction false} InsertSorted<V>(t: seq<Entry<V>>, e: Entry<V>)
    requires Sorted(t)
    ensures Sorted(Insert(t, e))
    decreases |t|
  {
    if |t| > 0 {
      var last := t[|t| - 1];
      var init := t[..|t| - 1];
      if Less(e.name, last.name) {
        InsertSorted(init, e);
        InsertPermutes(init, e);
        var u := Insert(init, e);
        forall i | 0 <= i < |u|
          ensures !Less(last.name, u[i].name)
        {
          assert u[i] in multiset(u);
          if u[i] == e {
            LessAsymmetric(e.name, last.name);
          } else {
            assert u[i] in multiset(init);
            var k :| 0 <= k < |init| && init[k] == u[i];
            assert t[k] == u[i];
          }
        }
        SortedAppend(u, last);
      } else {
        forall i | 0 <= i < |t|
          ensures !Less(e.name, t[i].name)
        {
          if Less(e.name, t[i].name) {
            LessTotal(t[i].name, last.name);
            if t[i].name != last.name {
              assert Less(t[i].name, last.name);
              LessTransitive(e.name, t[i].name, last.name);
            }
          }
        }
        SortedAppend(t, e);
      }
    }
  }

  lemma {:induction false} InsertNamed<V>(t: seq<Entry<V>>, e: Entry<V>, n: string)
    ensures Named(Insert(t, e), n) == Named(t, n) + Named([e], n)
    decreases |t|
  {
    if |t| == 0 {
    } else {
      var last := t[|t| - 1];
      var init := t[..|t| - 1];
      assert t == init + [last];
      NamedAppend(init, [last], n);
      if Less(e.name, last.name) {
        InsertNamed(init, e, n);
        NamedAppend(Insert(init, e), [last], n);
        LessIrreflexive(e.name);
        if n == e.name {
          assert Named([last], n) == [];
        } else {
          assert Named([e], n) == [];
        }
      } else {
        NamedAppend(t, [e], n);
      }
    }
  }

  /** The stable sort orders by name. */
  lemma {:induction false} SortSorted<V>(s: seq<Entry<V>>)
    ensures Sorted(SortByName(s))
    decreases |s|
  {
    if |s| > 0 {
      SortSorted(s[..|s| - 1]);
      InsertSorted(SortByName(s[..|s| - 1]), s[|s| - 1]);
    }
  }

  /** The stable sort only reorders. */
  lemma {:induction false} SortPermutes<V>(s: seq<Entry<V>>)
    ensures multiset(SortByName(s)) == multiset(s)
    decreases |s|
  {
    if |s| > 0 {
      SortPermutes(s[..|s| - 1]);
      InsertPermutes(SortByName(s[..|s| - 1]), s[|s| - 1]);
      assert s == s[..|s| - 1] + [s[|s| - 1]];
    }
  }

  /** The stable sort keeps the order of the entries under each name. */
  lemma {:induction false} SortStable<V>(s: seq<Entry<V>>, n: string)
    ensures Named(SortByName(s), n) == Named(s, n)
    decreases |s|
  {
    if |s| > 0 {
      var init := s[..|s| - 1];
      SortStable(init, n);
      InsertNamed(SortByName(init), s[|s| - 1], n);
      assert s == init + [s[|s| - 1]];
      NamedAppend(init, [s[|s| - 1]], n);
    }
  }

  // --------------------------------------------------------- KeepLast lemmas

  /** In a sorted table whose first two names differ, every later name sorts
      after the first. */
  lemma HeadBelowRest<V>(t: seq<Entry<V>>)
    requires Sorted(t) && |t| > 1 && t[0].name != t[1].name
    ensures forall j :: 1 <= j < |t| ==> Less(t[0].name, t[j].name)
  {
    LessTotal(t[0].name, t[1].name);
    forall j | 1 <= j < |t|
      ensures Less(t[0].name, t[j].name)
    {
      if j > 1 {
        LessTotal(t[1].name, t[j].name);
        if t[j].name != t[1].name {
          LessTransitive(t[0].name, t[1].name, t[j].name);
        }
      }
    }
  }

  lemma {:induction false} KeepLastSubset<V>(t: seq<Entry<V>>)
    ensures forall e :: e in KeepLast(t) ==> e in t
    decreases |t|
  {
    if |t| > 0 {
      KeepLastSubset(t[1..]);
    }
  }

  /** On a sorted table, exactly the last entry under each name is kept. */
  lemma {:induction false} KeepLastNamed<V>(t: seq<Entry<V>>, n: string)
    requires Sorted(t)
    ensures Named(KeepLast(t), n) == LastOnly(Named(t, n))
    decreases |t|
  {
    if |t| > 0 {
      var x := t[0];
      var r := t[1..];
      assert Sorted(r);
      KeepLastNamed(r, n);
      if |t| > 1 && x.name == t[1].name {
        assert KeepLast(t) == KeepLast(r);
        if n == x.name {
          assert Named(r, n) == [r[0]] + Named(r[1..], n);
          assert Named(t, n) == [x] + Named(r, n);
        } else {
          assert Named(t, n) == Named(r, n);
        }
      } else {
        var head := [x] + KeepLast(r);
        assert KeepLast(t) == head;
        NamedAppend([x], KeepLast(r), n);
        if n == x.name {
          if |t| > 1 {
            HeadBelowRest(t);
            forall i | 0 <= i < |r|
              ensures r[i].name != n
            {
              LessIrreflexive(n);
            }
          }
          NamedNone(r, n);
        }
      }
    }
  }

  /** On a sorted table, what is kept has no name twice. */
  lemma {:induction false} KeepLastStrictlySorted<V>(t: seq<Entry<V>>)
    requires Sorted(t)
    ensures StrictlySorted(KeepLast(t))
    decreases |t|
  {
    if |t| > 0 {
      var r := t[1..];
      assert Sorted(r);
      KeepLastStrictlySorted(r);
      if !(|t| > 1 && t[0].name == t[1].name) {
        var u := KeepLast(r);
        KeepLastSubset(r);
        if |t| > 1 {
          HeadBelowRest(t);
        }
        forall j | 0 <= j < |u|
          ensures Less(t[0].name, u[j].name)
        {
          assert u[j] in r;
          var k :| 0 <= k < |r| && r[k] == u[j];
          assert t[k + 1] == u[j];
        }
        assert KeepLast(t) == [t[0]] + u;
      }
    }
  }

  lemma NamesSplit<V>(u: seq<Entry<V>>)
    requires |u| > 0
    ensures Names(u) == {u[0].name} + Names(u[1..])
  {
    assert u == [u[0]] + u[1..];
  }

  lemma FirstNameUnique<V>(u: seq<Entry<V>>)
    requires StrictlySorted(u) && |u| > 0
    ensures u[0].name !in Names(u[1..])
  {
    LessIrreflexive(u[0].name);
    forall e | e in u[1..]
      ensures e.name != u[0].name
    {
      var k :| 1 <= k < |u| && u[k] == e;
      assert Less(u[0].name, u[k].name);
    }
  }

  lemma {:induction false} DistinctCount<V>(u: seq<Entry<V>>)
    requires StrictlySorted(u)
    ensures |Names(u)| == |u|
    decreases |u|
  {
    if |u| > 0 {
      var r := u[1..];
      assert StrictlySorted(r);
      DistinctCount(r);
      NamesSplit(u);
      FirstNameUnique(u);
      assert |Names(u)| == |Names(r)| + 1;
    }
  }

  // ------------------------------------------------------- what sort promises

  /** After `sort` the names are strictly increasing: no name twice. */
  lemma NormalizeStrictlySorted<V>(s: seq<Entry<V>>)
    ensures StrictlySorted(Normalize(s))
  {
    SortSorted(s);
    KeepLastStrictlySorted(SortByName(s));
  }

  /** Last write wins: under each name, `sort` keeps exactly the entry that
      came last in the table, and nothing under a name that did not occur. */
  lemma NormalizeLastWins<V>(s: seq<Entry<V>>, n: string)
    ensures Named(Normalize(s), n) == LastOnly(Named(s, n))
  {
    SortSorted(s);
    KeepLastNamed(SortByName(s), n);
    SortStable(s, n);
  }

  /** `sort` drops only duplicates: the names are those of the table. */
  lemma NormalizeKeepsNames<V>(s: seq<Entry<V>>)
    ensures Names(Normalize(s)) == Names(s)
  {
    forall n
      ensures n in Names(Normalize(s)) <==> n in Names(s)
    {
      NormalizeLastWins(s, n);
      NamedOccurs(Normalize(s), n);
      NamedOccurs(s, n);
    }
  }

  /** `sort` leaves one entry per name, so it removes as many entries as the
      table has duplicates. */
  lemma NormalizeSize<V>(s: seq<Entry<V>>)
    ensures |Normalize(s)| == |Names(s)| <= |s|
  {
    NormalizeStrictlySorted(s);
    DistinctCount(Normalize(s));
    NormalizeKeepsNames(s);
    NamesBound(s);
  }

  lemma {:induction false} NamesBound<V>(s: seq<Entry<V>>)
    ensures |Names(s)| <= |s|
    decreases |s|
  {
    if |s| > 0 {
      NamesBound(s[1..]);
      assert s == [s[0]] + s[1..];
      assert Names(s) == {s[0].name} + Names(s[1..]);
    }
  }

  /** A table that already has strictly increasing names is left as it is. */
  lemma NormalizeStrictlySortedIsIdentity<V>(s: seq<Entry<V>>)
    requires StrictlySorted(s)
    ensures Normalize(s) == s
  {
    forall i, j | 0 <= i < j < |s|
      ensures !Less(s[j].name, s[i].name)
    {
      LessAsymmetric(s[i].name, s[j].name);
    }
    SortOfSorted(s);
    KeepLastOfStrict(s);
  }

  lemma {:induction false} SortOfSorted<V>(s: seq<Entry<V>>)
    requires Sorted(s)
    ensures SortByName(s) == s
    decreases |s|
  {
    if |s| > 0 {
      var init := s[..|s| - 1];
      assert Sorted(init);
      SortOfSorted(init);
      if |init| > 0 {
        assert !Less(s[|s| - 1].name, init[|init| - 1].name);
      }
      assert init + [s[|s| - 1]] == s;
    }
  }

  lemma {:induction false} KeepLastOfStrict<V>(s: seq<Entry<V>>)
    requires StrictlySorted(s)
    ensures KeepLast(s) == s
    decreases |s|
  {
    if |s| > 0 {
      assert StrictlySorted(s[1..]);
      KeepLastOfStrict(s[1..]);
      if |s| > 1 {
        LessIrreflexive(s[0].name);
      }
      assert [s[0]] + s[1..] == s;
    }
  }

  // ---------------------------------------------------------- binary search

  /** In a sorted table, a name above the entry at `m` is above every entry
      up to `m`: the step `l = m + 1` of `findSorted`. */
  lemma SortedBelow<V>(s: seq<Entry<V>>, m: int, name: string)
    requires Sorted(s) && 0 <= m < |s| && Less(s[m].name, name)
    ensures forall i :: 0 <= i <= m ==> Less(s[i].name, name)
  {
    forall i | 0 <= i < m
      ensures Less(s[i].name, name)
    {
      LessTotal(s[i].name, s[m].name);
      if s[i].name != s[m].name {
        LessTransitive(s[i].name, s[m].name, name);
      }
    }
  }

  /** In a sorted table, a name below the entry at `m` is below every entry
      from `m` on: the step `r = m` of `findSorted`. */
  lemma SortedAbove<V>(s: seq<Entry<V>>, m: int, name: string)
    requires Sorted(s) && 0 <= m < |s| && Less(name, s[m].name)
    ensures forall i :: m <= i < |s| ==> Less(name, s[i].name)
  {
    forall i | m < i < |s|
      ensures Less(name, s[i].name)
    {
      LessTotal(s[m].name, s[i].name);
      if s[i].name != s[m].name {
        LessTransitive(name, s[m].name, s[i].name);
      }
    }
  }

  lemma {:induction false} NamedContains<V>(t: seq<Entry<V>>, e: Entry<V>)
    requires e in t
    ensures e in Named(t, e.name)
    decreases |t|
  {
    if t[0] != e {
      NamedContains(t[1..], e);
    }
  }

  /** Whatever entry is found in a sorted table is the one written last under
      its name. */
  lemma NormalizedLookup<V>(s: seq<Entry<V>>, e: Entry<V>)
    requires e in Normalize(s)
    ensures LastOnly(Named(s, e.name)) == [e]
  {
    NamedContains(Normalize(s), e);
    NormalizeLastWins(s, e.name);
  }
}
