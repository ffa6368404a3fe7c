/**
 * The contact directory: the JSON list of the users endpoint turned into an insertion-ordered
 * dictionary from ID to User, then reordered by name with a stable sort.
 */
module Contacts {
  import opened Wrappers
  import opened Text
  import opened Users

  /** One object of the users endpoint's JSON array; either key may be missing. */
  datatype Entry = Entry(id: Option<int>, username: Option<string>)

  /** An insertion-ordered dictionary (a Python `dict`) from ID to User, as its items. */
  type Directory = seq<(int, User)>

  /** An entry with both keys is one the loop keeps. */
  predicate Complete(e: Entry) {
    e.id.Some? && e.username.Some?
  }

  /** The keys in dictionary order. */
  function Keys(d: Directory): (r: seq<int>)
    ensures |r| == |d|
    ensures forall i :: 0 <= i < |d| ==> r[i] == d[i].0
  {
    if d == [] then [] else [d[0].0] + Keys(d[1..])
  }

  /** Every key occurs once, as in a dictionary. */
  predicate DistinctKeys(d: Directory) {
    Distinct(Keys(d))
  }

  predicate Distinct(s: seq<int>) {
    forall i, j :: 0 <= i < j < |s| ==> s[i] != s[j]
  }

  /** `d.get(k)`. */
  function Lookup(d: Directory, k: int): (r: Option<User>)
    ensures r.None? <==> k !in Keys(d)
    ensures r.Some? ==> (k, r.value) in d
  {
    if d == [] then None else if d[0].0 == k then Some(d[0].1) else Lookup(d[1..], k)
  }

  /**
   * `d[k] = v`: an existing key keeps its position and takes the new value,
   * a new key is appended.
   */
  function Put(d: Directory, k: int, v: User): (r: Directory)
    ensures Keys(r) == if k in Keys(d) then Keys(d) else Keys(d) + [k]
  {
    if d == [] then [(k, v)]
    else if d[0].0 == k then [(k, v)] + d[1..]
    else
      var rest := Put(d[1..], k, v);
      assert Keys([d[0]] + rest) == [d[0].0] + Keys(rest);
      [d[0]] + rest
  }

  /** After `d[k] = v`, k maps to v and every other key keeps its value. */
  lemma {:induction false} PutLookup(d: Directory, k: int, v: User, k': int)
    ensures Lookup(Put(d, k, v), k') == if k' == k then Some(v) else Lookup(d, k')
  {
    if d != [] && d[0].0 != k {
      PutLookup(d[1..], k, v, k');
      assert Put(d, k, v)[1..] == Put(d[1..], k, v);
    } else if d != [] {
      assert Put(d, k, v)[1..] == d[1..];
    }
  }

  /** `d[k] = v` never repeats a key. */
  lemma PutDistinct(d: Directory, k: int, v: User)
    requires DistinctKeys(d)
    ensures DistinctKeys(Put(d, k, v))
  {
  }

  /** The dictionary the loop of `get_contacts` builds from the first entries, in order. */
  function Collect(entries: seq<Entry>): (r: Directory)
    ensures DistinctKeys(r) && |r| <= |entries|
  {
    if entries == [] then []
    else
      var d := Collect(entries[..|entries| - 1]);
      var e := entries[|entries| - 1];
      if Complete(e) then
        PutDistinct(d, e.id.value, User(e.id.value, e.username.value, []));
        Put(d, e.id.value, User(e.id.value, e.username.value, []))
      else d
  }

  /** One more entry: a complete one is put into the dictionary, any other is skipped. */
  lemma CollectSnoc(entries: seq<Entry>, i: nat)
    requires i < |entries|
    ensures Collect(entries[..i + 1]) ==
              var e := entries[i];
              if Complete(e) then Put(Collect(entries[..i]), e.id.value, User(e.id.value, e.username.value, []))
              else Collect(entries[..i])
  {
    assert entries[..i + 1][..i] == entries[..i];
  }

  /** The name the last complete entry with this ID carries, if any. */
  function LastName(entries: seq<Entry>, k: int): Option<string> {
    if entries == [] then None
    else
      var e := entries[|entries| - 1];
      if Complete(e) && e.id.value == k then e.username
      else LastName(entries[..|entries| - 1], k)
  }

  /**
   * The collected dictionary has no repeated key, its keys are exactly the IDs of complete
   * entries, and each maps to a fresh User with the name of the LAST complete entry with that ID.
   */
  lemma CollectContents(entries: seq<Entry>, k: int)
    ensures DistinctKeys(Collect(entries))
    ensures k in Keys(Collect(entries)) <==>
              exists i :: 0 <= i < |entries| && Complete(entries[i]) && entries[i].id.value == k
    ensures Lookup(Collect(entries), k) ==
              match LastName(entries, k)
              case None => None
              case Some(name) => Some(User(k, name, []))
  {
    CollectLookup(entries, k);
    LastNameFound(entries, k);
  }

  /** A lookup in the collected dictionary finds the last complete entry's name. */
  lemma {:induction false} CollectLookup(entries: seq<Entry>, k: int)
    ensures Lookup(Collect(entries), k) ==
              match LastName(entries, k)
              case None => None
              case Some(name) => Some(User(k, name, []))
  {
    if entries != [] {
      var n := |entries| - 1;
      var prefix := entries[..n];
      var e := entries[n];
      CollectLookup(prefix, k);
      assert LastName(entries, k) == if Complete(e) && e.id.value == k then e.username else LastName(prefix, k);
      if Complete(e) {
        var u := User(e.id.value, e.username.value, []);
        assert Collect(entries) == Put(Collect(prefix), e.id.value, u);
        PutLookup(Collect(prefix), e.id.value, u, k);
      } else {
        assert Collect(entries) == Collect(prefix);
      }
    }
  }

  /** Some complete entry carries the ID exactly when a last name for it exists. */
  lemma {:induction false} LastNameFound(entries: seq<Entry>, k: int)
    ensures LastName(entries, k).Some? <==>
              exists i :: 0 <= i < |entries| && Complete(entries[i]) && entries[i].id.value == k
  {
    if entries != [] {
      var n := |entries| - 1;
      var prefix := entries[..n];
      LastNameFound(prefix, k);
      if (exists i :: 0 <= i < |entries| && Complete(entries[i]) && entries[i].id.value == k) {
        var i :| 0 <= i < |entries| && Complete(entries[i]) && entries[i].id.value == k;
        if i < n {
          assert Complete(prefix[i]) && prefix[i].id.value == k;
        }
      }
      if (exists i :: 0 <= i < n && Complete(prefix[i]) && prefix[i].id.value == k) {
        var i :| 0 <= i < n && Complete(prefix[i]) && prefix[i].id.value == k;
        assert entries[i] == prefix[i];
      }
    }
  }

  /** Python's `sorted(items, key=lambda item: item[1].name)` compares names with `<` only. */
  predicate NameBefore(a: (int, User), b: (int, User)) {
    Precedes(a.1.name, b.1.name)
  }

  /** Names never decrease along the dictionary. */
  predicate SortedByName(d: Directory) {
    forall i, j :: 0 <= i < j < |d| ==> !NameBefore(d[j], d[i])
  }

  /** The items that carry a given name, in dictionary order. */
  function WithName(d: Directory, name: string): (r: Directory)
    ensures |r| <= |d|
  {
    if d == [] then []
    else (if d[0].1.name == name then [d[0]] else []) + WithName(d[1..], name)
  }

  /** Places x before the first item whose name is not below x's, after all strictly smaller names. */
  function Insert(x: (int, User), d: Directory): (r: Directory)
    ensures multiset(r) == multiset(d) + multiset{x}
  {
    assert d != [] ==> d == [d[0]] + d[1..];
    if d == [] then [x]
    else if !NameBefore(d[0], x) then [x] + d
    else [d[0]] + Insert(x, d[1..])
  }

  /** A stable insertion sort by name: what `sort_contacts` computes. */
  function SortByName(d: Directory): (r: Directory)
    ensures multiset(r) == multiset(d)
  {
    assert d != [] ==> d == [d[0]] + d[1..];
    if d == [] then [] else Insert(d[0], SortByName(d[1..]))
  }

  lemma {:induction false} InsertSorted(x: (int, User), d: Directory)
    requires SortedByName(d)
    ensures SortedByName(Insert(x, d))
  {
    if d != [] {
      if !NameBefore(d[0], x) {
        forall j | 0 <= j < |d|
          ensures !NameBefore(d[j], x)
        {
          if j > 0 {
            NotAfterTransitive(x.1.name, d[0].1.name, d[j].1.name);
          }
        }
      } else {
        InsertSorted(x, d[1..]);
        var r := Insert(x, d[1..]);
        forall j | 0 <= j < |r|
          ensures !NameBefore(r[j], d[0])
        {
          assert r[j] in multiset(r);
          if r[j] == x {
            PrecedesAsymmetric(d[0].1.name, x.1.name);
          } else {
            assert r[j] in multiset(d[1..]);
            var m :| 0 <= m < |d[1..]| && d[1..][m] == r[j];
            assert d[m + 1] == r[j];
          }
        }
      }
    }
  }

  lemma {:induction false} InsertKeepsNameOrder(x: (int, User), d: Directory, name: string)
    ensures WithName(Insert(x, d), name) ==
              (if x.1.name == name then [x] else []) + WithName(d, name)
  {
    if d != [] {
      if !NameBefore(d[0], x) {
        assert ([x] + d)[1..] == d;
      } else {
        var r := Insert(x, d[1..]);
        InsertKeepsNameOrder(x, d[1..], name);
        assert ([d[0]] + r)[1..] == r;
        assert WithName(Insert(x, d), name) == (if d[0].1.name == name then [d[0]] else []) + WithName(r, name);
        if x.1.name == name {
          PrecedesIrreflexive(name);
          assert d[0].1.name != name;
        }
      }
    }
  }

  /** Inserting adds x's key to the keys and nothing else. */
  lemma {:induction false} InsertKeys(x: (int, User), d: Directory, k: int)
    ensures k in Keys(Insert(x, d)) <==> k == x.0 || k in Keys(d)
  {
    if d != [] {
      assert Keys(d) == [d[0].0] + Keys(d[1..]);
      if NameBefore(d[0], x) {
        InsertKeys(x, d[1..], k);
        assert ([d[0]] + Insert(x, d[1..]))[1..] == Insert(x, d[1..]);
        assert Keys(Insert(x, d)) == [d[0].0] + Keys(Insert(x, d[1..]));
      } else {
        assert ([x] + d)[1..] == d;
        assert Keys(Insert(x, d)) == [x.0] + Keys(d);
      }
    }
  }

  /** A sequence with a new front element is distinct exactly when the rest is and lacks it. */
  lemma DistinctCons(a: int, s: seq<int>)
    ensures Distinct([a] + s) <==> a !in s && Distinct(s)
  {
    var t := [a] + s;
    if a !in s && Distinct(s) {
      forall i, j | 0 <= i < j < |t|
        ensures t[i] != t[j]
      {
        if i > 0 {
          assert t[i] == s[i - 1] && t[j] == s[j - 1];
        } else {
          assert t[j] == s[j - 1];
        }
      }
    }
    if Distinct(t) {
      forall i, j | 0 <= i < j < |s|
        ensures s[i] != s[j]
      {
        assert s[i] == t[i + 1] && s[j] == t[j + 1];
      }
      forall j | 0 <= j < |s|
        ensures s[j] != a
      {
        assert s[j] == t[j + 1] && a == t[0];
      }
    }
  }

  lemma {:induction false} InsertDistinct(x: (int, User), d: Directory)
    requires DistinctKeys(d) && x.0 !in Keys(d)
    ensures DistinctKeys(Insert(x, d))
  {
    if d != [] {
      assert Keys(d) == [d[0].0] + Keys(d[1..]);
      DistinctCons(d[0].0, Keys(d[1..]));
      if NameBefore(d[0], x) {
        InsertDistinct(x, d[1..]);
        InsertKeys(x, d[1..], d[0].0);
        assert ([d[0]] + Insert(x, d[1..]))[1..] == Insert(x, d[1..]);
        assert Keys(Insert(x, d)) == [d[0].0] + Keys(Insert(x, d[1..]));
        DistinctCons(d[0].0, Keys(Insert(x, d[1..])));
      } else {
        assert ([x] + d)[1..] == d;
        assert Keys(Insert(x, d)) == [x.0] + Keys(d);
        DistinctCons(x.0, Keys(d));
      }
    } else {
      assert Keys(Insert(x, d)) == [x.0];
    }
  }

  /** The sort puts names in non-decreasing order (its result is a permutation: see SortByName). */
  lemma {:induction false} SortByNameSorted(d: Directory)
    ensures SortedByName(SortByName(d))
  {
    if d != [] {
      SortByNameSorted(d[1..]);
      InsertSorted(d[0], SortByName(d[1..]));
    }
  }

  /** Stability: items that share a name keep their previous relative order. */
  lemma {:induction false} SortByNameStable(d: Directory, name: string)
    ensures WithName(SortByName(d), name) == WithName(d, name)
  {
    if d != [] {
      SortByNameStable(d[1..], name);
      InsertKeepsNameOrder(d[0], SortByName(d[1..]), name);
      assert WithName(d, name) == (if d[0].1.name == name then [d[0]] else []) + WithName(d[1..], name);
    }
  }

  /** Sorting a dictionary keeps its keys distinct. */
  lemma {:induction false} SortByNameDistinct(d: Directory)
    requires DistinctKeys(d)
    ensures DistinctKeys(SortByName(d))
  {
    if d != [] {
      assert DistinctKeys(d[1..]) by {
        assert Keys(d[1..]) == Keys(d)[1..];
      }
      SortByNameDistinct(d[1..]);
      var s := SortByName(d[1..]);
      forall m | 0 <= m < |s|
        ensures s[m].0 != d[0].0
      {
        assert s[m] in multiset(d[1..]);
        var i :| 0 <= i < |d[1..]| && d[1..][i] == s[m];
        assert d[i + 1] == s[m];
      }
      InsertDistinct(d[0], s);
    }
  }

  /** Reordering a dictionary without repeated keys leaves every lookup as it was. */
  lemma SortByNameKeepsLookups(d: Directory, k: int)
    requires DistinctKeys(d)
    ensures Lookup(SortByName(d), k) == Lookup(d, k)
  {
    var s := SortByName(d);
    SortByNameDistinct(d);
    LookupInDistinct(d, k);
    LookupInDistinct(s, k);
    if Lookup(d, k).Some? {
      assert (k, Lookup(d, k).value) in multiset(s);
    }
    if Lookup(s, k).Some? {
      assert (k, Lookup(s, k).value) in multiset(d);
    }
  }

  /** In a dictionary without repeated keys, the item with key k is the only one. */
  lemma LookupInDistinct(d: Directory, k: int)
    requires DistinctKeys(d)
    ensures forall u :: (k, u) in d ==> Lookup(d, k) == Some(u)
  {
    if d != [] && d[0].0 != k {
      LookupInDistinct(d[1..], k);
      forall u | (k, u) in d
        ensures (k, u) in d[1..]
      {
      }
    } else if d != [] {
      forall u | (k, u) in d
        ensures u == d[0].1
      {
        var i :| 0 <= i < |d| && d[i] == (k, u);
      }
    }
  }
}
