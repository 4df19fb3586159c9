/** `json::ObjectValue`: the members of a JSON object held in a fixed-capacity
    buffer, `curSize` of them in use, looked up by binary search once `sort`
    has ordered them by name and dropped the shadowed duplicates. */
module Json {
  import opened Wrappers
  import opened NameOrder
  import opened ObjectTable

  class ObjectValue<V(0)> {
    /** The buffer, allocated once with the object's capacity. */
    const data: array<Entry<V>>
    /** How many slots of `data` hold members. */
    var curSize: nat
    /** The object is a diff against another one. */
    var isDiff: bool

    ghost predicate Valid()
      reads this
    {
      curSize <= data.Length
    }

    /** The members, in buffer order. */
    function Items(): seq<Entry<V>>
      reads this, data
      requires Valid()
    {
      data[..curSize]
    }

    /** An empty object with room for `capacity` members. */
    constructor (capacity: nat)
      ensures Valid() && fresh(data)
      ensures data.Length == capacity && Items() == [] && !isDiff
    {
      data := new Entry<V>[capacity];
      curSize := 0;
      isDiff := false;
    }

    /** `size`: the number of members. */
    function Size(): (n: nat)
      reads this, data
      requires Valid()
      ensures n == |Items()|
    {
      curSize
    }

    /** `itemAtIndex`: the member at `index`, or nothing (`undefined`) past
        the end. */
    function ItemAtIndex(index: nat): (r: Option<Entry<V>>)
      reads this, data
      requires Valid()
      ensures r.Some? <==> index < |Items()|
      ensures r.Some? ==> r.value == Items()[index]
    {
      if index < curSize then Some(data[index]) else None
    }

    /** `findSorted`: binary search for `name`. Whatever it returns carries
        that name; on a sorted table it misses only when no member has it. */
    method FindSorted(name: string) returns (r: Option<Entry<V>>)
      requires Valid()
      ensures r.Some? ==> r.value in Items() && r.value.name == name
      ensures Sorted(Items()) && r.None? ==> name !in Names(Items())
    {
      ghost var s := Items();
      var l := 0;
      var hi := curSize;
      while l < hi
        invariant 0 <= l <= hi <= curSize
        invariant Sorted(s) ==> forall i :: 0 <= i < l ==> Less(s[i].name, name)
        invariant Sorted(s) ==> forall i :: hi <= i < |s| ==> Less(name, s[i].name)
        decreases hi - l
      {
        var m := (l + hi) / 2;
        var c := Compare(name, data[m].name);
        if c > 0 {
          if Sorted(s) {
            SortedBelow(s, m, name);
          }
          l := m + 1;
        } else if c < 0 {
          if Sorted(s) {
            SortedAbove(s, m, name);
          }
          hi := m;
        } else {
          return Some(data[m]);
        }
      }
      LessIrreflexive(name);
      return None;
    }

    /** `member`: the value stored under `name`, or nothing (`undefined`). */
    method Member(name: string) returns (r: Option<V>)
      requires Valid()
      ensures r.Some? ==> Entry(name, r.value) in Items()
      ensures Sorted(Items()) && r.None? ==> name !in Names(Items())
    {
      var found := FindSorted(name);
      if found.None? {
        return None;
      }
      return Some(found.value.value);
    }

    /** Shifts right by one slot every member before `i` whose name sorts
        after that of the member at `i`, from the right, and returns the slot
        left open for it. */
    method OpenSlot(i: nat) returns (j: nat)
      requires Valid() && i < curSize
      modifies data
      ensures j <= i
      ensures forall k :: 0 <= k < j ==> data[k] == old(data[k])
      ensures forall k :: j < k <= i ==> data[k] == old(data[k - 1])
      ensures forall k :: i < k < data.Length ==> data[k] == old(data[k])
      ensures forall k :: j <= k < i ==> Less(old(data[i]).name, old(data[k]).name)
      ensures j == 0 || !Less(old(data[i]).name, old(data[j - 1]).name)
    {
      ghost var o := data[..];
      var e := data[i];
      j := i;
      while j > 0 && Compare(e.name, data[j - 1].name) < 0
        invariant 0 <= j <= i
        invariant forall k :: 0 <= k < j ==> data[k] == o[k]
        invariant forall k :: j < k <= i ==> data[k] == o[k - 1]
        invariant forall k :: i < k < data.Length ==> data[k] == o[k]
        invariant forall k :: j <= k < i ==> Less(e.name, o[k].name)
      {
        data[j] := data[j - 1];
        j := j - 1;
      }
    }

    /** One insertion step of the stable sort: the member at `i` moves left
        past every member whose name sorts after its own. */
    method InsertAt(i: nat)
      requires Valid() && i < curSize
      modifies data
      ensures data[..i + 1] == Insert(old(data[..i]), old(data[i]))
      ensures forall k :: i < k < data.Length ==> data[k] == old(data[k])
    {
      ghost var o := data[..];
      var e := data[i];
      var j := OpenSlot(i);
      data[j] := e;
      ShiftLayout(o, data[..], i, j);
      InsertSplit(o[..i], e, j);
    }

    /** `std::stable_sort` of the members by name. */
    method StableSortByName()
      requires Valid()
      modifies data
      ensures Items() == SortByName(old(Items()))
    {
      ghost var s0 := Items();
      var i := 0;
      while i < curSize
        invariant 0 <= i <= curSize
        invariant data[..i] == SortByName(s0[..i])
        invariant forall k :: i <= k < curSize ==> data[k] == s0[k]
      {
        InsertAt(i);
        SortPrefixStep(s0, i);
        i := i + 1;
      }
      assert s0[..curSize] == s0;
    }

    /** The `remove_if` pass of `sort`: keeps, at the front and in order, every
        member whose successor in the sorted buffer has another name, and
        returns how many it kept. */
    method RemoveShadowed() returns (kept: nat)
      requires Valid()
      modifies data
      ensures kept <= curSize
      ensures data[..kept] == KeepLast(old(Items()))
    {
      ghost var s0 := Items();
      var cnt := curSize;
      var n := 1;
      var i := 0;
      kept := 0;
      while i < cnt
        invariant 0 <= kept <= i <= cnt && n == i + 1
        invariant forall k :: i <= k < cnt ==> data[k] == s0[k]
        invariant data[..kept] == KeptBefore(s0, i)
      {
        var shadowed := n < cnt && data[i].name == data[n].name;
        n := n + 1;
        if !shadowed {
          data[kept] := data[i];
          kept := kept + 1;
        }
        i := i + 1;
      }
      KeptThenRest(s0, cnt);
      assert s0[cnt..] == [];
    }

    /** `sort`: after it the members are ordered by name, and under each name
        only the member written last remains. */
    method Sort()
      requires Valid()
      modifies this, data
      ensures Valid() && Items() == Normalize(old(Items()))
      ensures StrictlySorted(Items()) && Names(Items()) == Names(old(Items()))
      ensures |Items()| == |Names(old(Items()))|
      ensures isDiff == old(isDiff)
    {
      StableSortByName();
      var kept := RemoveShadowed();
      var remain := curSize - kept;
      var i := 0;
      while i < remain
        invariant 0 <= i <= remain && curSize == kept + remain - i
        invariant kept <= data.Length && isDiff == old(isDiff)
        invariant data[..kept] == Normalize(old(Items()))
      {
        curSize := curSize - 1;
        i := i + 1;
      }
      NormalizeStrictlySorted(old(Items()));
      NormalizeKeepsNames(old(Items()));
      NormalizeSize(old(Items()));
    }

    /** `operator =`: takes over the members and the diff flag of `other`. */
    method Assign(other: ObjectValue<V>)
      requires Valid() && other.Valid()
      requires other == this || other.data != data
      requires other.curSize <= data.Length
      modifies this, data
      ensures Valid() && Items() == old(other.Items()) && isDiff == old(other.isDiff)
      ensures other != this ==> other.Items() == old(other.Items())
    {
      ghost var src := other.Items();
      var n := other.curSize;
      var diff := other.isDiff;
      var i := 0;
      while i < n
        invariant 0 <= i <= n == |src|
        invariant other.curSize == n
        invariant forall k :: 0 <= k < i ==> data[k] == src[k]
        invariant forall k :: i <= k < n ==> other.data[k] == src[k]
        invariant other != this ==> other.data[..] == old(other.data[..])
      {
        data[i] := other.data[i];
        i := i + 1;
      }
      curSize := n;
      isDiff := diff;
    }

    /** `clone`: a new object, with room for exactly the members, holding the
        same members and diff flag. */
    method Clone() returns (cp: ObjectValue<V>)
      requires Valid()
      ensures fresh(cp) && fresh(cp.data) && cp.Valid()
      ensures cp.data.Length == |Items()|
      ensures cp.Items() == Items() && cp.isDiff == isDiff
    {
      cp := new ObjectValue(curSize);
      cp.Assign(this);
    }
  }

  /** Sorting one more element of `s` inserts it into the sorted prefix. */
  lemma SortPrefixStep<V>(s: seq<Entry<V>>, i: nat)
    requires i < |s|
    ensures SortByName(s[..i + 1]) == Insert(SortByName(s[..i]), s[i])
  {
    assert s[..i + 1][..i] == s[..i];
  }

  /** The buffer after the insertion step, read as sequences: `n` is `o` with
      the entry at `i` moved to `j` and the entries from `j` to `i` shifted one
      slot right. */
  lemma ShiftLayout<T>(o: seq<T>, n: seq<T>, i: nat, j: nat)
    requires |n| == |o| && j <= i < |o|
    requires n[j] == o[i]
    requires forall k :: 0 <= k < j ==> n[k] == o[k]
    requires forall k :: j < k <= i ==> n[k] == o[k - 1]
    ensures n[..i + 1] == o[..i][..j] + [o[i]] + o[..i][j..]
  {
    var r := o[..i][..j] + [o[i]] + o[..i][j..];
    assert |r| == i + 1;
    forall k | 0 <= k <= i
      ensures n[k] == r[k]
    {
      if k > j {
        assert r[k] == o[k - 1];
      }
    }
  }

  /** Where the insertion step leaves an entry: after the entries up to `j`,
      when the entry before `j` does not sort after it and every entry from `j`
      on does. */
  lemma {:induction false} InsertSplit<V>(t: seq<Entry<V>>, e: Entry<V>, j: nat)
    requires j <= |t|
    requires j == 0 || !Less(e.name, t[j - 1].name)
    requires forall k :: j <= k < |t| ==> Less(e.name, t[k].name)
    ensures Insert(t, e) == t[..j] + [e] + t[j..]
    decreases |t|
  {
    if |t| == j {
      assert t[..j] == t && t[j..] == [];
    } else {
      var init := t[..|t| - 1];
      var last := t[|t| - 1];
      assert Less(e.name, last.name);
      assert Insert(t, e) == Insert(init, e) + [last];
      InsertSplit(init, e, j);
      assert init[..j] == t[..j];
      assert init[j..] + [last] == t[j..];
    }
  }

  /** What the `remove_if` pass keeps of the first `i` entries: each one
      whose successor has another name. */
  ghost function KeptBefore<V>(s: seq<Entry<V>>, i: nat): seq<Entry<V>>
    requires i <= |s|
  {
    if i == 0 then []
    else KeptBefore(s, i - 1) + (if i < |s| && s[i - 1].name == s[i].name then [] else [s[i - 1]])
  }

  /** The pass kept the prefix's share and `KeepLast` of the rest completes it. */
  lemma {:induction false} KeptThenRest<V>(s: seq<Entry<V>>, i: nat)
    requires i <= |s|
    ensures KeptBefore(s, i) + KeepLast(s[i..]) == KeepLast(s)
  {
    if i == 0 {
      assert s[0..] == s;
    } else {
      KeptThenRest(s, i - 1);
      KeepLastStep(s, i - 1);
      var x := if i < |s| && s[i - 1].name == s[i].name then [] else [s[i - 1]];
      AppendAssoc(KeptBefore(s, i - 1), x, KeepLast(s[i..]));
    }
  }

  lemma AppendAssoc<T>(a: seq<T>, b: seq<T>, c: seq<T>)
    ensures a + (b + c) == (a + b) + c
  {
  }

  /** One step of the `remove_if` pass over a suffix of the table. */
  lemma KeepLastStep<V>(s: seq<Entry<V>>, i: nat)
    requires i < |s|
    ensures KeepLast(s[i..]) ==
            (if i + 1 < |s| && s[i].name == s[i + 1].name then [] else [s[i]]) + KeepLast(s[i + 1..])
  {
    assert s[i..][1..] == s[i + 1..];
  }
}
