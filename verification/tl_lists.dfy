/** Lists of equal entries without a header: their text, their reading, and that the two agree. */
module TlLists {
  import opened Outcomes
  import opened Bytes
  import opened TlCodec

  function ListText<T>(entry: T -> bytes, xs: seq<T>): bytes {
    if xs == [] then [] else entry(xs[0]) + ListText(entry, xs[1..])
  }

  // A reader that never leaves more than it was given.
  ghost predicate Consumes<T(!new)>(entry: bytes -> Reading<T>) {
    forall s :: entry(s).Ok? ==> |entry(s).value.1| <= |s|
  }

  function ReadList<T(!new)>(entry: bytes -> Reading<T>, s: bytes, count: nat): (r: Reading<seq<T>>)
    requires Consumes(entry)
    ensures r.Ok? ==> |r.value.1| <= |s| && |r.value.0| == count
    decreases count
  {
    if count == 0 then Ok(([], s))
    else
      var (first, s) :- entry(s);
      var (others, s) :- ReadList(entry, s, count - 1);
      Ok(([first] + others, s))
  }

  ghost predicate ReadsBack<T(!new)>(entry: T -> bytes, read: bytes -> Reading<T>) {
    forall x, rest :: read(entry(x) + rest) == Ok((x, rest))
  }

  lemma {:induction false} ListIsRead<T(!new)>(entry: T -> bytes, read: bytes -> Reading<T>, xs: seq<T>, rest: bytes)
    requires Consumes(read) && ReadsBack(entry, read)
    ensures ReadList(read, ListText(entry, xs) + rest, |xs|) == Ok((xs, rest))
  {
    if xs == [] {
      assert ListText(entry, xs) + rest == rest;
    } else {
      var tail := ListText(entry, xs[1..]) + rest;
      assert ListText(entry, xs) + rest == entry(xs[0]) + tail;
      ListIsRead(entry, read, xs[1..], rest);
      assert xs == [xs[0]] + xs[1..];
    }
  }

  ghost predicate Canonical<T(!new)>(entry: T -> bytes, read: bytes -> Reading<T>) {
    forall s :: read(s).Ok? ==> s == entry(read(s).value.0) + read(s).value.1
  }

  lemma {:induction false} ListIsCanonical<T(!new)>(entry: T -> bytes, read: bytes -> Reading<T>, s: bytes, count: nat)
    requires Consumes(read) && Canonical(entry, read) && ReadList(read, s, count).Ok?
    ensures var (xs, rest) := ReadList(read, s, count).value;
      |xs| == count && s == ListText(entry, xs) + rest
    decreases count
  {
    if count == 0 {
      assert ListText(entry, []) + s == s;
    } else {
      var (first, tail) := read(s).value;
      ListIsCanonical(entry, read, tail, count - 1);
      var (others, rest) := ReadList(read, tail, count - 1).value;
      assert ([first] + others)[1..] == others;
      Regroup(entry(first), ListText(entry, others), rest);
    }
  }
}
