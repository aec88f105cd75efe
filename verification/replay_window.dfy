/** The 32-entry replay window, and the check of a message identifier's parity and age. */
module ReplayWindow {
  import opened Outcomes
  import opened Bytes

  const CAPACITY: nat := 32

  predicate Ascending(s: seq<u64>) {
    forall i, j :: 0 <= i < j < |s| ==> s[i] < s[j]
  }

  ghost function Elements(s: seq<u64>): set<u64> {
    set x | x in s
  }

  function Larger(s: set<u64>, id: u64): set<u64> {
    set x | x in s && x > id
  }

  // ----- one offer -------------------------------------------------------------------------

  function InsertSorted(s: seq<u64>, id: u64): seq<u64> {
    if s == [] || id < s[0] then [id] + s else [s[0]] + InsertSorted(s[1..], id)
  }

  function Sort(s: seq<u64>): seq<u64> {
    if s == [] then [] else InsertSorted(Sort(s[1..]), s[0])
  }

  function Offer(w: seq<u64>, id: u64): (r: (Result<()>, seq<u64>)) {
    if id in w then (Err(Authentication), w)
    else if |w| == CAPACITY && id < w[0] then (Err(Authentication), w)
    else (Ok(()), Sort(if |w| < CAPACITY then w + [id] else w[0 := id]))
  }

  lemma ElementsOfConcat(a: seq<u64>, b: seq<u64>)
    ensures Elements(a + b) == Elements(a) + Elements(b)
  {
  }

  lemma {:induction false} InsertSortedAscends(s: seq<u64>, id: u64)
    requires Ascending(s) && id !in s
    ensures Ascending(InsertSorted(s, id)) && |InsertSorted(s, id)| == |s| + 1
    ensures Elements(InsertSorted(s, id)) == Elements(s) + {id}
  {
    if s == [] || id < s[0] {
      ElementsOfConcat([id], s);
    } else {
      InsertSortedAscends(s[1..], id);
      assert s == [s[0]] + s[1..];
      PrependAscends(s[0], s[1..], id, InsertSorted(s[1..], id));
    }
  }

  lemma PrependAscends(head: u64, tail: seq<u64>, id: u64, rest: seq<u64>)
    requires Ascending([head] + tail) && head < id
    requires Ascending(rest) && Elements(rest) == Elements(tail) + {id}
    ensures Ascending([head] + rest) && Elements([head] + rest) == Elements([head] + tail) + {id}
  {
    ElementsOfConcat([head], tail);
    ElementsOfConcat([head], rest);
    forall i | 0 <= i < |rest| ensures head < rest[i] {
      assert rest[i] in Elements(rest);
      if x :| x in tail && x == rest[i] {
        var j :| 0 <= j < |tail| && tail[j] == x;
        assert ([head] + tail)[0] < ([head] + tail)[j + 1];
      }
    }
  }

  lemma {:induction false} SortAscends(s: seq<u64>)
    requires forall i, j :: 0 <= i < j < |s| ==> s[i] != s[j]
    ensures Ascending(Sort(s)) && |Sort(s)| == |s| && Elements(Sort(s)) == Elements(s)
  {
    if s != [] {
      SortAscends(s[1..]);
      assert s == [s[0]] + s[1..];
      assert s[0] !in Elements(Sort(s[1..]));
      InsertSortedAscends(Sort(s[1..]), s[0]);
    }
  }

  lemma {:induction false} AscendingSize(s: seq<u64>)
    requires Ascending(s)
    ensures |Elements(s)| == |s|
  {
    if s != [] {
      AscendingSize(s[1..]);
      assert s == [s[0]] + s[1..];
      assert Elements(s) == Elements(s[1..]) + {s[0]};
    }
  }

  lemma {:induction false} AscendingIsDetermined(a: seq<u64>, b: seq<u64>)
    requires Ascending(a) && Ascending(b) && Elements(a) == Elements(b)
    ensures a == b
  {
    AscendingSize(a);
    AscendingSize(b);
    if a != [] {
      assert a[0] in Elements(b) && b[0] in Elements(a);
      assert a == [a[0]] + a[1..] && b == [b[0]] + b[1..];
      assert a[0] == b[0];
      assert Elements(a[1..]) == Elements(a) - {a[0]} && Elements(b[1..]) == Elements(b) - {b[0]};
      AscendingIsDetermined(a[1..], b[1..]);
    }
  }

  lemma SubsetSize(a: set<u64>, b: set<u64>)
    requires a <= b
    ensures |a| <= |b|
    ensures |a| == |b| ==> a == b
  {
    assert b == a + (b - a);
    assert |b| == |a| + |b - a|;
  }

  // ----- the window is the top of everything offered ------------------------------------------

  // w lists the 32 largest of the offered identifiers, or all of them, in ascending order;
  // any other offered identifier is below the first one listed.
  ghost predicate IsTop(w: seq<u64>, offered: set<u64>) {
    && Ascending(w)
    && Elements(w) <= offered
    && |w| == (if |offered| < 32 then |offered| else 32)
    && forall x :: x in offered && x !in w ==> |w| > 0 && x < w[0]
  }

  lemma TopIsUnique(w: seq<u64>, v: seq<u64>, offered: set<u64>)
    requires IsTop(w, offered) && IsTop(v, offered)
    ensures w == v
  {
    TopIsIncluded(w, v, offered);
    TopIsIncluded(v, w, offered);
    AscendingIsDetermined(w, v);
  }

  lemma TopIsIncluded(w: seq<u64>, v: seq<u64>, offered: set<u64>)
    requires IsTop(w, offered) && IsTop(v, offered)
    ensures Elements(w) <= Elements(v)
  {
    AscendingSize(w);
    AscendingSize(v);
    forall x | x in Elements(w) ensures x in Elements(v) {
      if x !in v {
        assert w[0] <= x < v[0];
        assert Elements(v) <= Elements(w);
        SubsetSize(Elements(v), Elements(w));
      }
    }
  }

  // The exact condition for an identifier to be taken.
  ghost predicate Fresh(id: u64, offered: set<u64>) {
    id !in offered && |Larger(offered, id)| < 32
  }

  lemma SmallTopIsEverything(w: seq<u64>, offered: set<u64>)
    requires IsTop(w, offered) && |w| < CAPACITY
    ensures Elements(w) == offered
  {
    AscendingSize(w);
    SubsetSize(Elements(w), offered);
  }

  lemma OfferAccepts(w: seq<u64>, offered: set<u64>, id: u64)
    requires IsTop(w, offered)
    ensures Offer(w, id).0.Ok? <==> Fresh(id, offered)
  {
    var larger := Larger(offered, id);
    AscendingSize(w);
    if |w| < CAPACITY {
      SmallTopIsEverything(w, offered);
      SubsetSize(larger, offered);
    } else if id < w[0] {
      assert Elements(w) <= larger;
      SubsetSize(Elements(w), larger);
    } else if id !in w {
      assert id > w[0] && w[0] in Elements(w);
      forall x | x in larger ensures x in Elements(w) - {w[0]} {
        assert x > w[0];
      }
      SubsetSize(larger, Elements(w) - {w[0]});
    }
  }

  lemma OfferKeepsTop(w: seq<u64>, offered: set<u64>, id: u64)
    requires IsTop(w, offered)
    ensures IsTop(Offer(w, id).1, offered + {id})
  {
    hide Sort, Ascending;
    AscendingSize(w);
    if id in w {
      assert offered + {id} == offered;
    } else if |w| < CAPACITY {
      ExtendsTheList(w, offered, id);
    } else if id < w[0] {
      SubsetSize(offered, offered + {id});
    } else {
      ReplacesTheSmallest(w, offered, id);
    }
  }

  lemma LargestAppended(w: seq<u64>, id: u64)
    requires Ascending(w) && id !in w
    ensures var next := Sort(w + [id]);
      Ascending(next) && |next| == |w| + 1 && Elements(next) == Elements(w) + {id}
  {
    SortAscends(w + [id]);
    ElementsOfConcat(w, [id]);
    assert Elements([id]) == {id};
  }

  lemma ExtendsTheList(w: seq<u64>, offered: set<u64>, id: u64)
    requires IsTop(w, offered) && |w| < CAPACITY && id !in w
    ensures IsTop(Sort(w + [id]), offered + {id})
  {
    SmallTopIsEverything(w, offered);
    LargestAppended(w, id);
    hide Sort, Ascending;
    var next := Sort(w + [id]);
    assert id !in offered;
    forall x | x in offered + {id} ensures x in next {
      assert x in Elements(next);
    }
  }

  lemma SmallestReplaced(w: seq<u64>, id: u64)
    requires Ascending(w) && w != [] && id !in w && id > w[0]
    ensures var next := Sort(w[0 := id]);
      Ascending(next) && |next| == |w| && Elements(next) == Elements(w) - {w[0]} + {id} && next[0] > w[0]
  {
    var raw := w[0 := id];
    SortAscends(raw);
    hide Sort;
    assert raw == [id] + w[1..] && w == [w[0]] + w[1..];
    ElementsOfConcat([id], w[1..]);
    ElementsOfConcat([w[0]], w[1..]);
    assert Elements(raw) == Elements(w) - {w[0]} + {id};
    assert Sort(raw)[0] in Elements(raw);
  }

  lemma FullWindowAdvances(w: seq<u64>, id: u64)
    requires Ascending(w) && |w| == CAPACITY && Offer(w, id).0.Ok?
    ensures |Offer(w, id).1| == CAPACITY && Offer(w, id).1[0] > w[0]
  {
    assert id > w[0];
    SmallestReplaced(w, id);
  }

  lemma ReplacesTheSmallest(w: seq<u64>, offered: set<u64>, id: u64)
    requires IsTop(w, offered) && |w| == CAPACITY && id !in w && id >= w[0]
    ensures IsTop(Sort(w[0 := id]), offered + {id})
  {
    hide Ascending;
    SmallestReplaced(w, id);
    hide Sort;
    var next := Sort(w[0 := id]);
    SubsetSize(offered, offered + {id});
    assert w[0] in Elements(w);
    forall x | x in offered + {id} && x !in next ensures x < next[0] {
      assert x !in Elements(next);
      assert x == w[0] || x !in Elements(w);
    }
  }

  // ----- whole runs ----------------------------------------------------------------------------

  function Run(offers: seq<u64>): seq<u64> {
    if offers == [] then [] else Offer(Run(offers[..|offers| - 1]), offers[|offers| - 1]).1
  }

  predicate Accepted(offers: seq<u64>, k: nat)
    requires k < |offers|
  {
    Offer(Run(offers[..k]), offers[k]).0.Ok?
  }

  lemma {:induction false} RunIsTopOfOffers(offers: seq<u64>)
    ensures IsTop(Run(offers), Elements(offers))
  {
    hide Offer, IsTop;
    if offers == [] {
      EmptyIsTop();
    } else {
      var earlier, last := offers[..|offers| - 1], offers[|offers| - 1];
      RunIsTopOfOffers(earlier);
      OfferKeepsTop(Run(earlier), Elements(earlier), last);
      assert offers == earlier + [last];
      assert Elements(offers) == Elements(earlier) + {last};
    }
  }

  lemma EmptyIsTop()
    ensures IsTop([], Elements([]))
  {
    assert Elements([]) == {};
  }

  // Reordering the offers, or repeating some, leaves the same window.
  lemma WindowIsAFunctionOfTheOfferedSet(a: seq<u64>, b: seq<u64>)
    requires Elements(a) == Elements(b)
    ensures Run(a) == Run(b)
  {
    hide IsTop;
    RunIsTopOfOffers(a);
    RunIsTopOfOffers(b);
    TopIsUnique(Run(a), Run(b), Elements(a));
  }

  // An offer is accepted exactly when the identifier was never offered before, accepted or not,
  // and fewer than 32 of the identifiers offered before are larger.
  lemma AcceptedExactlyWhenFresh(offers: seq<u64>, k: nat)
    requires k < |offers|
    ensures Accepted(offers, k) <==> Fresh(offers[k], Elements(offers[..k]))
  {
    RunIsTopOfOffers(offers[..k]);
    OfferAccepts(Run(offers[..k]), Elements(offers[..k]), offers[k]);
  }

  lemma NoIdentifierIsAcceptedTwice(offers: seq<u64>, i: nat, j: nat)
    requires i < j < |offers| && offers[i] == offers[j]
    ensures !Accepted(offers, j)
  {
    AcceptedExactlyWhenFresh(offers, j);
    assert offers[..j][i] == offers[j];
  }

  lemma MinimumOfFullWindowIncreases(offers: seq<u64>, k: nat)
    requires k < |offers| && |Run(offers[..k])| == CAPACITY && Accepted(offers, k)
    ensures |Run(offers[..k + 1])| == CAPACITY && Run(offers[..k + 1])[0] > Run(offers[..k])[0]
  {
    RunIsTopOfOffers(offers[..k]);
    FullWindowAdvances(Run(offers[..k]), offers[k]);
    assert offers[..k + 1][..k] == offers[..k];
    hide Offer;
  }

  // ----- the window as an object -----------------------------------------------------------------

  // The library's in-place sort of a prefix.
  method SortPrefix(ids: array<u64>, n: nat)
    requires n <= ids.Length && |Sort(ids[..n])| == n
    modifies ids
    ensures ids[..n] == Sort(old(ids[..n]))
  {
    var sorted := Sort(ids[..n]);
    forall i | 0 <= i < n {
      ids[i] := sorted[i];
    }
  }

  class MessageIdWindow {
    const ids: array<u64>
    var used: nat
    ghost var offered: set<u64>  // every identifier ever passed to Insert

    ghost predicate Valid()
      reads this, ids
    {
      ids.Length == CAPACITY && used <= CAPACITY && IsTop(Contents(), offered)
    }

    function Contents(): seq<u64>
      requires ids.Length == CAPACITY && used <= CAPACITY
      reads this, ids
    {
      ids[..used]
    }

    constructor ()
      ensures Valid() && Contents() == [] && offered == {}
    {
      ids := new u64[CAPACITY](_ => 0);
      used := 0;
      offered := {};
      new;
      EmptyIsTop();
    }

    method Insert(id: u64) returns (r: Result<()>)
      requires Valid()
      modifies this, ids
      ensures Valid() && offered == old(offered) + {id}
      ensures (r, Contents()) == Offer(old(Contents()), id)
      ensures r.Ok? <==> Fresh(id, old(offered))
    {
      ghost var w := Contents();
      OfferAccepts(w, offered, id);
      OfferKeepsTop(w, offered, id);
      offered := offered + {id};
      if id in ids[..used] {
        return Err(Authentication);
      }
      if used == ids.Length && id < ids[0] {
        return Err(Authentication);
      }
      if used < ids.Length {
        ids[used] := id;
        used := used + 1;
      } else {
        ids[0] := id;
      }
      assert ids[..used] == if |w| < CAPACITY then w + [id] else w[0 := id];
      SortAscends(ids[..used]);
      SortPrefix(ids, used);
      return Ok(());
    }
  }

  // ----- parity and age of an identifier --------------------------------------------------------

  datatype MessageDirection = ClientToServer | ServerToClient

  function SaturatingAdd(a: u64, b: u64): u64 {
    if a + b < 0x1_0000_0000_0000_0000 then a + b else 0xffff_ffff_ffff_ffff
  }

  function ValidateMessageId(id: u64, direction: MessageDirection, unixSeconds: u64): Result<()> {
    var residue := id % 4;
    var parityOk := match direction
      case ClientToServer => residue == 0
      case ServerToClient => residue == 1 || residue == 3;
    var seconds := id / 0x1_0000_0000;
    if !parityOk then Err(InvalidPacket)
    else if SaturatingAdd(seconds, 300) < unixSeconds || seconds > SaturatingAdd(unixSeconds, 30) then Err(InvalidPacket)
    else Ok(())
  }

  // The saturating sums never distort the comparison: an identifier passes exactly when its parity
  // is that of the direction and its time lies between 300 seconds ago and 30 seconds ahead.
  lemma ValidMeansRecent(id: u64, direction: MessageDirection, now: u64)
    ensures ValidateMessageId(id, direction, now).Ok?
       <==> (if direction.ClientToServer? then id % 4 == 0 else id % 2 == 1)
            && now - 300 <= id / 0x1_0000_0000 <= now + 30
  {
    assert id / 0x1_0000_0000 < 0x1_0000_0000;
    assert id % 2 == id % 4 % 2;
  }
}
