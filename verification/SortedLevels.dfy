/** Price levels kept in a vector sorted from worst to best, and how editing the vector edits the
    price map it stands for. */
module SortedLevels {
  import opened Shared
  import opened LevelSpec

  predicate Ordered(side: Side, s: seq<Level>) {
    forall i, j | 0 <= i < j < |s| :: Better(side, s[j].price, s[i].price)
  }

  function Prices(s: seq<Level>): set<u32> {
    set i | 0 <= i < |s| :: s[i].price
  }

  /** Where a price is in the vector. */
  ghost function IndexOf(s: seq<Level>, price: u32): (i: nat)
    requires price in Prices(s)
    ensures i < |s| && s[i].price == price
  {
    var i :| 0 <= i < |s| && s[i].price == price;
    i
  }

  /** The price map a sorted vector stands for. */
  ghost function ToMap(side: Side, s: seq<Level>): Levels
    requires Ordered(side, s)
  {
    map p | p in Prices(s) :: s[IndexOf(s, p)].qty
  }

  lemma EntryAt(side: Side, s: seq<Level>, i: nat)
    requires Ordered(side, s) && i < |s|
    ensures s[i].price in ToMap(side, s) && ToMap(side, s)[s[i].price] == s[i].qty
    ensures IndexOf(s, s[i].price) == i
  {
    var j := IndexOf(s, s[i].price);
    assert j == i;
  }

  /** `idx` is where `std::lower_bound` stops for `price`. */
  predicate IsLowerBound(side: Side, s: seq<Level>, price: u32, idx: nat) {
    && idx <= |s|
    && (forall i | 0 <= i < idx :: Better(side, price, s[i].price))
    && (forall i | idx <= i < |s| :: !Better(side, price, s[i].price))
  }

  function Insert<T>(s: seq<T>, idx: nat, x: T): (r: seq<T>)
    requires idx <= |s|
    ensures |r| == |s| + 1 && r[idx] == x
    ensures forall i | 0 <= i < idx :: r[i] == s[i]
    ensures forall i | idx < i < |r| :: r[i] == s[i - 1]
  {
    s[..idx] + [x] + s[idx..]
  }

  function Erase<T>(s: seq<T>, idx: nat): (r: seq<T>)
    requires idx < |s|
    ensures |r| == |s| - 1
    ensures forall i | 0 <= i < idx :: r[i] == s[i]
    ensures forall i | idx <= i < |r| :: r[i] == s[i + 1]
  {
    s[..idx] + s[idx + 1..]
  }

  lemma EraseUpdated<T>(s: seq<T>, idx: nat, x: T)
    requires idx < |s|
    ensures Erase(s[idx := x], idx) == Erase(s, idx)
  {
  }

  lemma BestIsLast(side: Side, s: seq<Level>)
    requires Ordered(side, s)
    ensures IsBest(side, ToMap(side, s), if s == [] then Level(0, 0) else s[|s| - 1])
    ensures Best(side, ToMap(side, s)) == if s == [] then Level(0, 0) else s[|s| - 1]
  {
    var m := ToMap(side, s);
    if s != [] {
      EntryAt(side, s, |s| - 1);
      forall p | p in m
        ensures !Better(side, p, s[|s| - 1].price)
      {
        var i := IndexOf(s, p);
      }
    }
    BestUnique(side, m, Best(side, m), if s == [] then Level(0, 0) else s[|s| - 1]);
  }

  /** The lower bound finds the price's own level if there is one. */
  lemma LowerBoundFinds(side: Side, s: seq<Level>, price: u32, idx: nat)
    requires Ordered(side, s) && IsLowerBound(side, s, price, idx)
    ensures price in ToMap(side, s) <==> idx < |s| && s[idx].price == price
    ensures idx < |s| && s[idx].price == price ==> ToMap(side, s)[price] == s[idx].qty
  {
    if !(idx < |s| && s[idx].price == price) {
      forall i | 0 <= i < |s|
        ensures s[i].price != price
      {
        if idx < i {
          assert Better(side, s[idx].price, price);
        }
      }
    }
    if idx < |s| {
      EntryAt(side, s, idx);
    }
  }

  /** Two sorted vectors stand for the same map, up to an update of one price, when every entry of
      one has its counterpart in the other. */
  lemma MapsAgree(side: Side, s: seq<Level>, m: Levels)
    requires Ordered(side, s)
    requires forall i | 0 <= i < |s| :: s[i].price in m && m[s[i].price] == s[i].qty
    requires forall p | p in m :: p in Prices(s)
    ensures ToMap(side, s) == m
  {
    forall p | p in Prices(s)
      ensures p in m && m[p] == ToMap(side, s)[p]
    {
      var i := IndexOf(s, p);
      EntryAt(side, s, i);
    }
  }

  lemma UpdateLevel(side: Side, s: seq<Level>, idx: nat, qty: u64)
    requires Ordered(side, s) && idx < |s|
    ensures Ordered(side, s[idx := Level(qty, s[idx].price)])
    ensures ToMap(side, s[idx := Level(qty, s[idx].price)]) == ToMap(side, s)[s[idx].price := qty]
  {
    var s' := s[idx := Level(qty, s[idx].price)];
    var m := ToMap(side, s)[s[idx].price := qty];
    forall i | 0 <= i < |s'|
      ensures s'[i].price in m && m[s'[i].price] == s'[i].qty
    {
      EntryAt(side, s, i);
    }
    forall p | p in m
      ensures p in Prices(s')
    {
      var i := if p == s[idx].price then idx else IndexOf(s, p);
      assert s'[i].price == p;
    }
    MapsAgree(side, s', m);
  }

  lemma InsertOrdered(side: Side, s: seq<Level>, idx: nat, l: Level)
    requires Ordered(side, s) && IsLowerBound(side, s, l.price, idx)
    requires l.price !in ToMap(side, s)
    ensures Ordered(side, Insert(s, idx, l))
  {
    var s' := Insert(s, idx, l);
    forall i | idx <= i < |s|
      ensures Better(side, s[i].price, l.price)
    {
      EntryAt(side, s, i);
    }
    forall i, j | 0 <= i < j < |s'|
      ensures Better(side, s'[j].price, s'[i].price)
    {
      if i < idx < j {
        assert s'[i] == s[i] && s'[j] == s[j - 1];
      } else if idx < i {
        assert s'[i] == s[i - 1] && s'[j] == s[j - 1];
      }
    }
  }

  lemma InsertLevel(side: Side, s: seq<Level>, idx: nat, l: Level)
    requires Ordered(side, s) && IsLowerBound(side, s, l.price, idx)
    requires l.price !in ToMap(side, s)
    ensures Ordered(side, Insert(s, idx, l))
    ensures ToMap(side, Insert(s, idx, l)) == ToMap(side, s)[l.price := l.qty]
  {
    InsertOrdered(side, s, idx, l);
    var s' := Insert(s, idx, l);
    var m := ToMap(side, s)[l.price := l.qty];
    forall i | 0 <= i < |s'|
      ensures s'[i].price in m && m[s'[i].price] == s'[i].qty
    {
      if i < idx {
        EntryAt(side, s, i);
      } else if i > idx {
        EntryAt(side, s, i - 1);
      }
    }
    forall p | p in m
      ensures p in Prices(s')
    {
      var i := if p == l.price then idx else var k := IndexOf(s, p); if k < idx then k else k + 1;
      assert s'[i].price == p;
    }
    MapsAgree(side, s', m);
  }

  lemma EraseOrdered(side: Side, s: seq<Level>, idx: nat)
    requires Ordered(side, s) && idx < |s|
    ensures Ordered(side, Erase(s, idx))
  {
    var s' := Erase(s, idx);
    forall i, j | 0 <= i < j < |s'|
      ensures Better(side, s'[j].price, s'[i].price)
    {
      assert s'[i] == s[if i < idx then i else i + 1];
      assert s'[j] == s[if j < idx then j else j + 1];
    }
  }

  lemma ErasedPrices(side: Side, s: seq<Level>, idx: nat, p: u32)
    requires Ordered(side, s) && idx < |s| && p in ToMap(side, s) && p != s[idx].price
    ensures p in Prices(Erase(s, idx))
  {
    var k := IndexOf(s, p);
    assert Erase(s, idx)[if k < idx then k else k - 1].price == p;
  }

  lemma EraseLevel(side: Side, s: seq<Level>, idx: nat)
    requires Ordered(side, s) && idx < |s|
    ensures Ordered(side, Erase(s, idx))
    ensures ToMap(side, Erase(s, idx)) == ToMap(side, s) - {s[idx].price}
  {
    EraseOrdered(side, s, idx);
    var s' := Erase(s, idx);
    var m := ToMap(side, s) - {s[idx].price};
    forall i | 0 <= i < |s'|
      ensures s'[i].price in m && m[s'[i].price] == s'[i].qty
    {
      EntryAt(side, s, if i < idx then i else i + 1);
    }
    forall p | p in m
      ensures p in Prices(s')
    {
      ErasedPrices(side, s, idx, p);
    }
    MapsAgree(side, s', m);
  }

  /** What `add` does to a sorted vector, given the lower bound of the price. */
  function AddAt(s: seq<Level>, idx: nat, l: Level): seq<Level>
    requires idx <= |s|
  {
    if idx < |s| && s[idx].price == l.price
    then s[idx := Level(Sum64(s[idx].qty, l.qty), l.price)]
    else Insert(s, idx, l)
  }

  /** What `remove` does, given the lower bound of the price and a successful check. */
  function RemoveAt(s: seq<Level>, idx: nat, l: Level): seq<Level>
    requires idx < |s| && l.qty <= s[idx].qty
  {
    if s[idx].qty == l.qty then Erase(s, idx)
    else s[idx := Level(s[idx].qty - l.qty, s[idx].price)]
  }

  /** Adding into the sorted vector keeps it sorted and adds to the price map. */
  lemma {:induction false} AddRefines(side: Side, s: seq<Level>, idx: nat, l: Level)
    requires Ordered(side, s) && IsLowerBound(side, s, l.price, idx)
    ensures Ordered(side, AddAt(s, idx, l))
    ensures ToMap(side, AddAt(s, idx, l)) == AddLevel(ToMap(side, s), l)
  {
    LowerBoundFinds(side, s, l.price, idx);
    if idx < |s| && s[idx].price == l.price {
      UpdateLevel(side, s, idx, Sum64(s[idx].qty, l.qty));
    } else {
      InsertLevel(side, s, idx, l);
    }
  }

  /** Removing from the sorted vector fails exactly when removing from the map fails, and otherwise
      keeps it sorted and removes from the price map. */
  lemma {:induction false} RemoveRefines(side: Side, s: seq<Level>, idx: nat, l: Level)
    requires Ordered(side, s) && IsLowerBound(side, s, l.price, idx)
    ensures
      if idx == |s| || s[idx].price != l.price then RemoveLevel(ToMap(side, s), l) == Abort(LevelNotFound)
      else if l.qty > s[idx].qty then RemoveLevel(ToMap(side, s), l) == Abort(LevelUnderflow)
      else Ordered(side, RemoveAt(s, idx, l))
           && RemoveLevel(ToMap(side, s), l) == Done(ToMap(side, RemoveAt(s, idx, l)))
  {
    LowerBoundFinds(side, s, l.price, idx);
    if idx < |s| && s[idx].price == l.price && l.qty <= s[idx].qty {
      if s[idx].qty == l.qty {
        EraseLevel(side, s, idx);
      } else {
        UpdateLevel(side, s, idx, s[idx].qty - l.qty);
      }
    }
  }

  /** A level that is there is where the lower bound of its price stops. */
  lemma LowerBoundAt(side: Side, s: seq<Level>, i: nat)
    requires Ordered(side, s) && i < |s|
    ensures IsLowerBound(side, s, s[i].price, i)
  {
  }

  lemma NoSuchLevel(side: Side, s: seq<Level>, l: Level)
    requires Ordered(side, s) && forall i | 0 <= i < |s| :: s[i].price != l.price
    ensures RemoveLevel(ToMap(side, s), l) == Abort(LevelNotFound)
  {
  }

  lemma {:induction false} DistinctPrices(side: Side, s: seq<Level>)
    requires Ordered(side, s)
    ensures |Prices(s)| == |s|
    decreases |s|
  {
    if s == [] {
    } else {
      var rest := s[1..];
      DistinctPrices(side, rest);
      forall p | p in Prices(s)
        ensures p in Prices(rest) + {s[0].price}
      {
        var i := IndexOf(s, p);
        if i > 0 {
          assert rest[i - 1].price == p;
        }
      }
      forall p | p in Prices(rest)
        ensures p in Prices(s) && p != s[0].price
      {
        var i := IndexOf(rest, p);
        assert s[i + 1].price == p;
      }
      assert Prices(s) == Prices(rest) + {s[0].price};
    }
  }

  /** The position of the lower bound counts the prices that are as good or better. */
  lemma {:induction false} LowerBoundCounts(side: Side, s: seq<Level>, price: u32, idx: nat)
    requires Ordered(side, s) && IsLowerBound(side, s, price, idx)
    ensures |AtLeast(side, ToMap(side, s), price)| == |s| - idx
  {
    var tail := s[idx..];
    DistinctPrices(side, tail);
    var atLeast := AtLeast(side, ToMap(side, s), price);
    forall p | p in atLeast
      ensures p in Prices(tail)
    {
      var i := IndexOf(s, p);
      assert tail[i - idx].price == p;
    }
    forall p | p in Prices(tail)
      ensures p in atLeast
    {
      var i := IndexOf(tail, p);
      EntryAt(side, s, idx + i);
    }
    assert Prices(tail) == atLeast;
  }

  /** `std::lower_bound` on a sorted vector of levels. */
  method LowerBound(side: Side, s: seq<Level>, price: u32) returns (first: nat)
    requires Ordered(side, s)
    ensures IsLowerBound(side, s, price, first)
  {
    first := 0;
    var count := |s|;
    while count > 0
      invariant 0 <= first <= first + count <= |s|
      invariant forall i | 0 <= i < first :: Better(side, price, s[i].price)
      invariant forall i | first + count <= i < |s| :: !Better(side, price, s[i].price)
    {
      var step := count / 2;
      var it := first + step;
      if Better(side, price, s[it].price) {
        first := it + 1;
        count := count - (step + 1);
      } else {
        count := step;
      }
    }
  }

  /** A scan from the best end for a price: one past where it is, or 0. */
  method ScanForPrice(s: seq<Level>, price: u32) returns (i: nat)
    ensures i <= |s| && (i > 0 ==> s[i - 1].price == price)
    ensures forall j | i <= j < |s| :: s[j].price != price
  {
    i := |s|;
    while i > 0 && s[i - 1].price != price
      invariant i <= |s|
      invariant forall j | i <= j < |s| :: s[j].price != price
    {
      i := i - 1;
    }
  }

  /** A scan from the best end past all better prices. */
  method ScanPastBetter(side: Side, s: seq<Level>, price: u32) returns (i: nat)
    ensures i <= |s| && (i > 0 ==> !Better(side, s[i - 1].price, price))
    ensures forall j | i <= j < |s| :: Better(side, s[j].price, price)
  {
    i := |s|;
    while i > 0 && Better(side, s[i - 1].price, price)
      invariant i <= |s|
      invariant forall j | i <= j < |s| :: Better(side, s[j].price, price)
    {
      i := i - 1;
    }
  }

  /** A scan from the worst end to the first price that is as good. */
  method ScanToAsGood(side: Side, s: seq<Level>, price: u32) returns (i: nat)
    requires Ordered(side, s)
    ensures IsLowerBound(side, s, price, i)
  {
    i := 0;
    while i < |s| && Better(side, price, s[i].price)
      invariant i <= |s|
      invariant forall j | 0 <= j < i :: Better(side, price, s[j].price)
    {
      i := i + 1;
    }
  }

  /** The scan past all better prices ends at the lower bound, or one past it when the price is there. */
  lemma {:induction false} PastBetterIsLowerBound(side: Side, s: seq<Level>, price: u32, i: nat)
    requires Ordered(side, s) && i <= |s| && (i > 0 ==> !Better(side, s[i - 1].price, price))
    requires forall j | i <= j < |s| :: Better(side, s[j].price, price)
    ensures IsLowerBound(side, s, price, if i > 0 && s[i - 1].price == price then i - 1 else i)
  {
    if i > 0 && s[i - 1].price == price {
      LowerBoundAt(side, s, i - 1);
    } else {
      forall j | 0 <= j < i
        ensures Better(side, price, s[j].price)
      {
        assert j < i - 1 ==> Better(side, s[i - 1].price, s[j].price);
      }
    }
  }

  predicate PricesOrdered(side: Side, prices: seq<u32>) {
    forall i, j | 0 <= i < j < |prices| :: Better(side, prices[j], prices[i])
  }

  predicate IsPriceLowerBound(side: Side, prices: seq<u32>, price: u32, idx: nat) {
    && idx <= |prices|
    && (forall i | 0 <= i < idx :: Better(side, price, prices[i]))
    && (forall i | idx <= i < |prices| :: !Better(side, price, prices[i]))
  }

  /** `std::lower_bound` on a sorted vector of prices. */
  method PriceLowerBound(side: Side, prices: seq<u32>, price: u32) returns (first: nat)
    requires PricesOrdered(side, prices)
    ensures IsPriceLowerBound(side, prices, price, first)
  {
    first := 0;
    var count := |prices|;
    while count > 0
      invariant 0 <= first <= first + count <= |prices|
      invariant forall i | 0 <= i < first :: Better(side, price, prices[i])
      invariant forall i | first + count <= i < |prices| :: !Better(side, price, prices[i])
    {
      var step := count / 2;
      var it := first + step;
      if Better(side, price, prices[it]) {
        first := it + 1;
        count := count - (step + 1);
      } else {
        count := step;
      }
    }
  }

  /** As many levels as prices. */
  lemma {:induction false} LevelCount(side: Side, s: seq<Level>)
    requires Ordered(side, s)
    ensures |ToMap(side, s)| == |s|
  {
    DistinctPrices(side, s);
    assert ToMap(side, s).Keys == Prices(s);
  }

  lemma {:induction false} EmptyMap(side: Side)
    ensures Ordered(side, []) && ToMap(side, []) == map[]
  {
    assert Prices([]) == {};
  }
}
