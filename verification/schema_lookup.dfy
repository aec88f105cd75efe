/**
 The generated lookups: each namespace is sorted once, searched by bisection, and the namespaces are
 tried in order.  Keys are constructor identifiers or method names.
 */
module SchemaLookup {
  import opened Outcomes
  import opened Bytes
  import opened Schema

  ghost predicate StrictOrder<K(!new)>(less: (K, K) -> bool) {
    && (forall a :: !less(a, a))
    && (forall a, b, c :: less(a, b) && less(b, c) ==> less(a, c))
    && (forall a, b :: less(a, b) || less(b, a) || a == b)
  }

  type Entries<K, V> = seq<(K, V)>

  // ----- the stable sort of the generator ------------------------------------------------------------------

  // Puts a later entry behind all entries that are not greater.
  function Insert<K, V>(less: (K, K) -> bool, s: Entries<K, V>, entry: (K, V)): (r: Entries<K, V>)
    ensures |r| == |s| + 1
  {
    if s != [] && less(entry.0, s[|s| - 1].0) then Insert(less, s[..|s| - 1], entry) + [s[|s| - 1]]
    else s + [entry]
  }

  function Sort<K, V>(less: (K, K) -> bool, s: Entries<K, V>): (r: Entries<K, V>)
    ensures |r| == |s|
  {
    if s == [] then [] else Insert(less, Sort(less, s[..|s| - 1]), s[|s| - 1])
  }

  ghost predicate Sorted<K(!new), V(!new)>(less: (K, K) -> bool, s: Entries<K, V>) {
    forall i, j :: 0 <= i < j < |s| ==> !less(s[j].0, s[i].0)
  }

  lemma {:induction false} InsertKeepsOrder<K(!new), V(!new)>(less: (K, K) -> bool, s: Entries<K, V>, entry: (K, V))
    requires StrictOrder(less) && Sorted(less, s)
    ensures Sorted(less, Insert(less, s, entry))
    ensures multiset(Insert(less, s, entry)) == multiset(s) + multiset{entry}
  {
    if s != [] && less(entry.0, s[|s| - 1].0) {
      var last := s[|s| - 1];
      assert s == s[..|s| - 1] + [last];
      InsertKeepsOrder(less, s[..|s| - 1], entry);
      var r := Insert(less, s[..|s| - 1], entry);
      forall i | 0 <= i < |r| ensures !less(last.0, r[i].0) {
        assert r[i] in multiset(r);
        if r[i] != entry {
          assert r[i] in s[..|s| - 1];
        }
      }
    }
  }

  lemma {:induction false} SortSorts<K(!new), V(!new)>(less: (K, K) -> bool, s: Entries<K, V>)
    requires StrictOrder(less)
    ensures Sorted(less, Sort(less, s)) && multiset(Sort(less, s)) == multiset(s)
  {
    if s != [] {
      SortSorts(less, s[..|s| - 1]);
      InsertKeepsOrder(less, Sort(less, s[..|s| - 1]), s[|s| - 1]);
      assert s == s[..|s| - 1] + [s[|s| - 1]];
    }
  }

  // ----- the linear scan ------------------------------------------------------------------------------------

  // The value of the first entry with this key.
  function First<K(==), V>(s: Entries<K, V>, key: K): Option<V> {
    if s == [] then None
    else if First(s[..|s| - 1], key).Some? then First(s[..|s| - 1], key)
    else if s[|s| - 1].0 == key then Some(s[|s| - 1].1)
    else None
  }

  // Sorting keeps the first entry of every key first.
  lemma {:induction false} InsertKeepsFirst<K(!new), V(!new)>(less: (K, K) -> bool, s: Entries<K, V>, entry: (K, V),
        key: K)
    requires StrictOrder(less)
    ensures First(Insert(less, s, entry), key) == First(s + [entry], key)
  {
    assert (s + [entry])[..|s|] == s;
    if s != [] && less(entry.0, s[|s| - 1].0) {
      var front, last := s[..|s| - 1], s[|s| - 1];
      InsertKeepsFirst(less, front, entry, key);
      var r := Insert(less, front, entry);
      assert (r + [last])[..|r|] == r && (front + [entry])[..|front|] == front;
    }
  }

  lemma {:induction false} SortKeepsFirst<K(!new), V(!new)>(less: (K, K) -> bool, s: Entries<K, V>, key: K)
    requires StrictOrder(less)
    ensures First(Sort(less, s), key) == First(s, key)
  {
    if s != [] {
      var front, last := s[..|s| - 1], s[|s| - 1];
      SortKeepsFirst(less, front, key);
      InsertKeepsFirst(less, Sort(less, front), last, key);
      assert s == front + [last] && (Sort(less, front) + [last])[..|front|] == Sort(less, front);
    }
  }

  // ----- bisection -------------------------------------------------------------------------------------------

  method PartitionPoint<K(!new), V(!new)>(less: (K, K) -> bool, s: Entries<K, V>, key: K) returns (index: nat)
    requires StrictOrder(less) && Sorted(less, s)
    ensures index <= |s|
    ensures forall i :: 0 <= i < index ==> less(s[i].0, key)
    ensures forall i :: index <= i < |s| ==> !less(s[i].0, key)
  {
    index := 0;
    var end := |s|;
    while index < end
      invariant index <= end <= |s|
      invariant forall i :: 0 <= i < index ==> less(s[i].0, key)
      invariant forall i :: end <= i < |s| ==> !less(s[i].0, key)
    {
      var middle := index + (end - index) / 2;
      if less(s[middle].0, key) {
        index := middle + 1;
      } else {
        end := middle;
      }
    }
  }

  lemma {:induction false} FirstIsAtPoint<K(!new), V(!new)>(less: (K, K) -> bool, s: Entries<K, V>, key: K, index: nat)
    requires StrictOrder(less) && Sorted(less, s) && index <= |s|
    requires forall i :: 0 <= i < index ==> less(s[i].0, key)
    requires forall i :: index <= i < |s| ==> !less(s[i].0, key)
    ensures First(s, key) == if index < |s| && s[index].0 == key then Some(s[index].1) else None
    decreases |s|
  {
    if s != [] {
      var front := s[..|s| - 1];
      if index < |s| {
        FirstIsAtPoint(less, front, key, index);
      } else {
        FirstIsAtPoint(less, front, key, |s| - 1);
      }
    }
  }

  method Find<K(==, !new), V(!new)>(less: (K, K) -> bool, s: Entries<K, V>, key: K) returns (r: Option<V>)
    requires StrictOrder(less) && Sorted(less, s)
    ensures r == First(s, key)
  {
    var index := PartitionPoint(less, s, key);
    FirstIsAtPoint(less, s, key, index);
    return if index < |s| && s[index].0 == key then Some(s[index].1) else None;
  }

  // ----- all namespaces --------------------------------------------------------------------------------------

  function FirstAcross<K(==), V>(namespaces: seq<Entries<K, V>>, key: K): Option<V> {
    if namespaces == [] then None
    else match First(namespaces[0], key)
      case Some(v) => Some(v)
      case None => FirstAcross(namespaces[1..], key)
  }

  function SortAll<K, V>(less: (K, K) -> bool, namespaces: seq<Entries<K, V>>): (r: seq<Entries<K, V>>)
    ensures |r| == |namespaces|
  {
    seq(|namespaces|, i requires 0 <= i < |namespaces| => Sort(less, namespaces[i]))
  }

  // Bisecting the sorted namespaces answers what a scan of the declarations in their order does.
  method Lookup<K(==, !new), V(!new)>(less: (K, K) -> bool, ghost declared: seq<Entries<K, V>>,
        sorted: seq<Entries<K, V>>, key: K)
    returns (r: Option<V>)
    requires StrictOrder(less) && sorted == SortAll(less, declared)
    ensures r == FirstAcross(declared, key)
  {
    var i := 0;
    while i < |sorted|
      invariant 0 <= i <= |sorted|
      invariant FirstAcross(declared[i..], key) == FirstAcross(declared, key)
    {
      SortSorts(less, declared[i]);
      SortKeepsFirst(less, declared[i], key);
      var found := Find(less, sorted[i], key);
      if found.Some? {
        return found;
      }
      assert declared[i..][1..] == declared[i + 1..];
      i := i + 1;
    }
    return None;
  }

  // ----- the two orders ----------------------------------------------------------------------------------------

  predicate ById(a: int, b: int) {
    a < b
  }

  lemma IdsAreOrdered()
    ensures StrictOrder(ById)
  {
  }

  // Names are compared character by character.
  predicate ByName(a: string, b: string)
    decreases |a|
  {
    b != [] && (a == [] || a[0] < b[0] || (a[0] == b[0] && ByName(a[1..], b[1..])))
  }

  lemma {:induction false} NamesTransitive(a: string, b: string, c: string)
    requires ByName(a, b) && ByName(b, c)
    ensures ByName(a, c)
    decreases |a|
  {
    if a != [] && a[0] == b[0] == c[0] {
      NamesTransitive(a[1..], b[1..], c[1..]);
    }
  }

  lemma {:induction false} NamesTotal(a: string, b: string)
    ensures !ByName(a, a)
    ensures ByName(a, b) || ByName(b, a) || a == b
    decreases |a|
  {
    if a != [] {
      if b != [] {
        NamesTotal(a[1..], b[1..]);
        if a[0] == b[0] && a[1..] == b[1..] {
          assert a == [a[0]] + a[1..] && b == [b[0]] + b[1..];
        }
      } else {
        NamesTotal(a[1..], []);
      }
    }
  }

  lemma NamesAreOrdered()
    ensures StrictOrder(ByName)
  {
    forall a: string, b: string ensures !ByName(a, a) && (ByName(a, b) || ByName(b, a) || a == b) {
      NamesTotal(a, b);
    }
    forall a: string, b: string, c: string | ByName(a, b) && ByName(b, c) ensures ByName(a, c) {
      NamesTransitive(a, b, c);
    }
  }

  // ----- the two generated lookups --------------------------------------------------------------------------

  method LookupSchema(ghost declared: seq<Entries<int, Meta>>, sorted: seq<Entries<int, Meta>>, id: u32)
    returns (r: Option<Meta>)
    requires sorted == SortAll(ById, declared)
    ensures r == FirstAcross(declared, id)
  {
    IdsAreOrdered();
    r := Lookup(ById, declared, sorted, id);
  }

  method FindMethod(ghost declared: seq<Entries<string, u32>>, sorted: seq<Entries<string, u32>>, name: string)
    returns (r: Option<u32>)
    requires sorted == SortAll(ByName, declared)
    ensures r == FirstAcross(declared, name)
  {
    NamesAreOrdered();
    r := Lookup(ByName, declared, sorted, name);
  }
}
