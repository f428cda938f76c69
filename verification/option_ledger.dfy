/** The option ledger `selectedOptions` (a JavaScript `Map` from option key to
    price delta) and the total `updateTotalPrice` computes from it
    (assets/product-form-price-updater.js:6, 140-149). A `Map` iterates in
    insertion order, setting an existing key keeps its place and deleting
    removes it, so the ledger is an ordered list of entries with distinct
    keys; `ToMap` is its view as a mathematical map. */
module OptionLedger {
  import opened Wrappers
  import opened JsNumber

  datatype Entry = Entry(key: string, price: Num)

  predicate UniqueKeys(es: seq<Entry>)
  {
    forall i, j | 0 <= i < j < |es| :: es[i].key != es[j].key
  }

  type Ledger = es: seq<Entry> | UniqueKeys(es) witness []

  function KeysOf(es: seq<Entry>): set<string>
  {
    set i | 0 <= i < |es| :: es[i].key
  }

  /** The ledger as a map from key to price. */
  function ToMap(l: Ledger): (m: map<string, Num>)
    ensures m.Keys == KeysOf(l)
    ensures forall i | 0 <= i < |l| :: m[l[i].key] == l[i].price
  {
    if l == [] then map[]
    else
      var rest: Ledger := l[1..];
      assert KeysOf(l) == KeysOf(rest) + {l[0].key} by {
        forall x | x in KeysOf(l) ensures x in KeysOf(rest) + {l[0].key} {
          var i :| 0 <= i < |l| && l[i].key == x;
          if i > 0 {
            assert rest[i - 1].key == x;
          }
        }
        forall x | x in KeysOf(rest) ensures x in KeysOf(l) {
          var i :| 0 <= i < |rest| && rest[i].key == x;
          assert l[i + 1].key == x;
        }
      }
      ToMap(rest)[l[0].key := l[0].price]
  }

  /** Where key `k` sits in the ledger, if it is there. */
  function IndexOf(es: seq<Entry>, k: string): (r: Option<nat>)
    ensures r.Some? ==> r.value < |es| && es[r.value].key == k
    ensures r.None? ==> k !in KeysOf(es)
  {
    IndexFrom(es, k, 0)
  }

  /** The first position at or after `j` holding key `k`. */
  function IndexFrom(es: seq<Entry>, k: string, j: nat): (r: Option<nat>)
    requires j <= |es|
    ensures r.Some? ==> j <= r.value < |es| && es[r.value].key == k
    ensures r.None? ==> forall i | j <= i < |es| :: es[i].key != k
    decreases |es| - j
  {
    if j == |es| then None
    else if es[j].key == k then Some(j)
    else IndexFrom(es, k, j + 1)
  }

  /** Two ledgers with the same keys that agree on every key's price have
      the same map view. */
  lemma SameView(l: Ledger, r: Ledger, m: map<string, Num>)
    requires KeysOf(r) == m.Keys
    requires forall j | 0 <= j < |r| :: m[r[j].key] == r[j].price
    ensures ToMap(r) == m
  {
    forall x | x in m ensures ToMap(r)[x] == m[x] {
      var j :| 0 <= j < |r| && r[j].key == x;
    }
  }

  lemma KeysOfReplace(l: seq<Entry>, i: nat, e: Entry)
    requires i < |l| && e.key == l[i].key
    ensures KeysOf(l[i := e]) == KeysOf(l)
  {
    var r := l[i := e];
    forall x | x in KeysOf(l) ensures x in KeysOf(r) {
      var j :| 0 <= j < |l| && l[j].key == x;
      assert r[j].key == x;
    }
    forall x | x in KeysOf(r) ensures x in KeysOf(l) {
      var j :| 0 <= j < |r| && r[j].key == x;
      assert l[j].key == x;
    }
  }

  lemma KeysOfAppend(l: seq<Entry>, e: Entry)
    ensures KeysOf(l + [e]) == KeysOf(l) + {e.key}
  {
    var r := l + [e];
    forall x | x in KeysOf(l) ensures x in KeysOf(r) {
      var j :| 0 <= j < |l| && l[j].key == x;
      assert r[j].key == x;
    }
    assert r[|l|].key == e.key;
    forall x | x in KeysOf(r) ensures x in KeysOf(l) + {e.key} {
      var j :| 0 <= j < |r| && r[j].key == x;
      if j < |l| {
        assert l[j].key == x;
      }
    }
  }

  lemma KeysOfRemove(l: Ledger, i: nat)
    requires i < |l|
    ensures KeysOf(l[..i] + l[i + 1..]) == KeysOf(l) - {l[i].key}
  {
    var r := l[..i] + l[i + 1..];
    forall x | x in KeysOf(l) - {l[i].key} ensures x in KeysOf(r) {
      var j :| 0 <= j < |l| && l[j].key == x;
      var dst := if j < i then j else j - 1;
      assert r[dst] == l[j];
    }
    forall x | x in KeysOf(r) ensures x in KeysOf(l) - {l[i].key} {
      var j :| 0 <= j < |r| && r[j].key == x;
      var src := if j < i then j else j + 1;
      assert r[j] == l[src];
    }
  }

  lemma UniqueReplace(l: Ledger, i: nat, e: Entry)
    requires i < |l| && e.key == l[i].key
    ensures UniqueKeys(l[i := e])
  {
    var r := l[i := e];
    assert forall j | 0 <= j < |r| :: r[j].key == l[j].key;
  }

  lemma UniqueAppend(l: Ledger, e: Entry)
    requires e.key !in KeysOf(l)
    ensures UniqueKeys(l + [e])
  {
    var r := l + [e];
    forall i, j | 0 <= i < j < |r| ensures r[i].key != r[j].key {
      if j == |l| {
        assert r[i].key == l[i].key;
      } else {
        assert r[i] == l[i] && r[j] == l[j];
      }
    }
  }

  lemma UniqueRemove(l: Ledger, i: nat)
    requires i < |l|
    ensures UniqueKeys(l[..i] + l[i + 1..])
  {
    var r := l[..i] + l[i + 1..];
    assert forall j | 0 <= j < |r| :: r[j] == if j < i then l[j] else l[j + 1];
  }

  lemma ViewReplace(l: Ledger, i: nat, e: Entry)
    requires i < |l| && e.key == l[i].key
    requires UniqueKeys(l[i := e])
    ensures ToMap(l[i := e]) == ToMap(l)[e.key := e.price]
  {
    var r: Ledger := l[i := e];
    var m := ToMap(l)[e.key := e.price];
    KeysOfReplace(l, i, e);
    forall j | 0 <= j < |r| ensures m[r[j].key] == r[j].price {
      if j != i {
        assert r[j] == l[j];
      }
    }
    SameView(l, r, m);
  }

  lemma ViewAppend(l: Ledger, e: Entry)
    requires UniqueKeys(l + [e])
    ensures ToMap(l + [e]) == ToMap(l)[e.key := e.price]
  {
    var r: Ledger := l + [e];
    var m := ToMap(l)[e.key := e.price];
    KeysOfAppend(l, e);
    forall j | 0 <= j < |r| ensures m[r[j].key] == r[j].price {
      if j < |l| {
        assert r[j] == l[j] && r[|l|] == e;
        assert r[j].key != e.key;
      }
    }
    SameView(l, r, m);
  }

  /** `selectedOptions.set(k, v)`: an existing key keeps its place, a new one
      goes last. */
  function Set(l: Ledger, k: string, v: Num): Ledger
  {
    match IndexOf(l, k)
    case Some(i) =>
      UniqueReplace(l, i, Entry(k, v));
      l[i := Entry(k, v)]
    case None =>
      UniqueAppend(l, Entry(k, v));
      l + [Entry(k, v)]
  }

  /** After a write the ledger maps `k` to `v` and every other key as
      before, and the keys already present keep their places. */
  lemma SetView(l: Ledger, k: string, v: Num)
    ensures ToMap(Set(l, k, v)) == ToMap(l)[k := v]
    ensures |l| <= |Set(l, k, v)| && forall i | 0 <= i < |l| :: Set(l, k, v)[i].key == l[i].key
  {
    match IndexOf(l, k)
    case Some(i) =>
      UniqueReplace(l, i, Entry(k, v));
      ViewReplace(l, i, Entry(k, v));
    case None =>
      UniqueAppend(l, Entry(k, v));
      ViewAppend(l, Entry(k, v));
  }

  /** `selectedOptions.delete(k)`: a no-op when `k` is absent; the other
      entries keep their order. */
  function Delete(l: Ledger, k: string): Ledger
  {
    match IndexOf(l, k)
    case Some(i) =>
      UniqueRemove(l, i);
      l[..i] + l[i + 1..]
    case None =>
      l
  }

  lemma ViewRemove(l: Ledger, i: nat)
    requires i < |l|
    ensures UniqueKeys(l[..i] + l[i + 1..])
    ensures ToMap(l[..i] + l[i + 1..]) == ToMap(l) - {l[i].key}
  {
    KeysOfRemove(l, i);
    UniqueRemove(l, i);
    var r: Ledger := l[..i] + l[i + 1..];
    var m := ToMap(l) - {l[i].key};
    forall j | 0 <= j < |r| ensures m[r[j].key] == r[j].price {
      var src := if j < i then j else j + 1;
      assert r[j] == l[src];
      assert l[src].key != l[i].key;
    }
    SameView(l, r, m);
  }

  /** After a delete the ledger maps every key but `k` as before and no
      longer holds `k`; deleting an absent key changes nothing. */
  lemma DeleteView(l: Ledger, k: string)
    ensures ToMap(Delete(l, k)) == ToMap(l) - {k}
    ensures k !in ToMap(l) ==> Delete(l, k) == l
  {
    match IndexOf(l, k)
    case Some(i) =>
      ViewRemove(l, i);
    case None =>
      assert ToMap(l) - {k} == ToMap(l);
  }

  /** Two writes to the same key leave the ledger as the second write alone
      would: the second value wins, in the first write's place. */
  lemma SetTwice(l: Ledger, k: string, a: Num, b: Num)
    ensures Set(Set(l, k, a), k, b) == Set(l, k, b)
  {
    var l1 := Set(l, k, a);
    match IndexOf(l, k)
    case Some(i) =>
      assert l1 == l[i := Entry(k, a)];
      assert l1[i].key == k && k in KeysOf(l1);
      var j := IndexOf(l1, k).value;
      assert l1[j].key == l1[i].key;
    case None =>
      assert l1 == l + [Entry(k, a)];
      assert l1[|l|].key == k && k in KeysOf(l1);
      var j := IndexOf(l1, k).value;
      assert l1[j].key == l1[|l|].key;
  }

  /** The `for (let price of selectedOptions.values()) totalPrice += price`
      loop, starting from `acc`. */
  function SumFrom(acc: Num, es: seq<Entry>): Num
    decreases |es|
  {
    if es == [] then acc else SumFrom(Add(acc, es[0].price), es[1..])
  }

  /** The total of `updateTotalPrice`: `Math.max(0, base + Σ prices)`. */
  function Total(base: Num, l: Ledger): Num
  {
    MaxZero(SumFrom(base, l))
  }

  /** Some entry of `m` is NaN. */
  predicate HasNaN(m: map<string, Num>)
  {
    exists k | k in m :: m[k].NaN?
  }

  /** Reference definition of the sum of a map's values, independent of any
      order: take out an arbitrary key and add its value to the rest. */
  ghost function MapSum(m: map<string, Num>): real
    decreases |m|
  {
    if m == map[] then 0.0
    else
      var k :| k in m;
      assert |m - {k}| < |m| by {
        assert (m - {k}).Keys == m.Keys - {k};
      }
      RealOf(m[k]) + MapSum(m - {k})
  }

  /** Taking out ANY key gives the same sum: the arbitrary choice in
      `MapSum` does not matter. */
  lemma {:induction false} MapSumTakeOut(m: map<string, Num>, k: string)
    requires k in m
    ensures MapSum(m) == RealOf(m[k]) + MapSum(m - {k})
    decreases |m|
  {
    var j :| j in m && MapSum(m) == RealOf(m[j]) + MapSum(m - {j});
    if j != k {
      assert (m - {k}).Keys == m.Keys - {k};
      assert (m - {j}).Keys == m.Keys - {j};
      MapSumTakeOut(m - {j}, k);
      MapSumTakeOut(m - {k}, j);
      assert m - {j} - {k} == m - {k} - {j};
    }
  }

  /** Setting key `k` changes the sum by the new value minus the old one. */
  lemma SetDelta(m: map<string, Num>, k: string, v: Num)
    ensures MapSum(m[k := v]) == MapSum(m) - (if k in m then RealOf(m[k]) else 0.0) + RealOf(v)
  {
    MapSumTakeOut(m[k := v], k);
    if k in m {
      MapSumTakeOut(m, k);
      assert m[k := v] - {k} == m - {k};
    } else {
      assert m[k := v] - {k} == m;
    }
  }

  /** Deleting key `k` takes its value out of the sum. */
  lemma DeleteDelta(m: map<string, Num>, k: string)
    ensures MapSum(m - {k}) == MapSum(m) - (if k in m then RealOf(m[k]) else 0.0)
  {
    if k in m {
      MapSumTakeOut(m, k);
    } else {
      assert m - {k} == m;
    }
  }

  /** The map view of a non-empty ledger: its first entry added to the view
      of the rest, which does not hold that key. */
  lemma ViewOfFirst(l: Ledger)
    requires l != []
    ensures l[0].key !in ToMap(l[1..])
    ensures ToMap(l) == ToMap(l[1..])[l[0].key := l[0].price]
  {
    var rest: Ledger := l[1..];
    assert forall j | 0 <= j < |rest| :: rest[j] == l[j + 1];
  }

  lemma HasNaNAdd(m: map<string, Num>, k: string, v: Num)
    requires k !in m
    ensures HasNaN(m[k := v]) <==> v.NaN? || HasNaN(m)
  {
    if HasNaN(m) {
      var j :| j in m && m[j].NaN?;
      assert m[k := v][j] == m[j];
    }
    if v.NaN? {
      assert m[k := v][k].NaN?;
    }
    if HasNaN(m[k := v]) {
      var j :| j in m[k := v] && m[k := v][j].NaN?;
      if j != k {
        assert m[j].NaN?;
      }
    }
  }

  /** Summing the entries in insertion order is the order-free sum of the
      map, and NaN anywhere makes the sum NaN. */
  lemma {:induction false} SumFromIsMapSum(acc: Num, l: Ledger)
    ensures SumFrom(acc, l) == if acc.NaN? || HasNaN(ToMap(l)) then NaN else Val(acc.v + MapSum(ToMap(l)))
    decreases |l|
  {
    if l != [] {
      var rest: Ledger := l[1..];
      var e := l[0];
      assert SumFrom(acc, l) == SumFrom(Add(acc, e.price), rest);
      SumFromIsMapSum(Add(acc, e.price), rest);
      SumOfFirst(l);
      SumStep(acc, e.price, MapSum(ToMap(rest)), MapSum(ToMap(l)), HasNaN(ToMap(rest)), HasNaN(ToMap(l)));
    } else {
      assert ToMap(l) == map[];
    }
  }

  /** The first entry's share of the map's sum and of its NaN test. */
  lemma SumOfFirst(l: Ledger)
    requires l != []
    ensures var rest: Ledger := l[1..];
            && MapSum(ToMap(l)) == MapSum(ToMap(rest)) + RealOf(l[0].price)
            && (HasNaN(ToMap(l)) <==> l[0].price.NaN? || HasNaN(ToMap(rest)))
  {
    var rest: Ledger := l[1..];
    var m := ToMap(rest);
    ViewOfFirst(l);
    SetDelta(m, l[0].key, l[0].price);
    HasNaNAdd(m, l[0].key, l[0].price);
  }

  /** The arithmetic of one step of `SumFromIsMapSum`: adding `p` to the
      accumulator is adding it to the map's sum. */
  lemma SumStep(acc: Num, p: Num, sum: real, sum': real, nan: bool, nan': bool)
    requires sum' == sum + RealOf(p) && (nan' <==> p.NaN? || nan)
    ensures (if Add(acc, p).NaN? || nan then NaN else Val(Add(acc, p).v + sum))
         == (if acc.NaN? || nan' then NaN else Val(acc.v + sum'))
  {
  }

  /** The total is `max(0, base + sum of all ledger values)` — never negative,
      whatever discounts the ledger holds — unless the base price or some
      entry is NaN, in which case it is NaN. */
  lemma TotalIsClampedSum(base: Num, l: Ledger)
    ensures Total(base, l) == if base.NaN? || HasNaN(ToMap(l)) then NaN
                              else Val(MaxReal(0.0, base.v + MapSum(ToMap(l))))
    ensures Total(base, l).Val? ==> Total(base, l).v >= 0.0
  {
    SumFromIsMapSum(base, l);
  }

  lemma NoNaNAfterSet(m: map<string, Num>, k: string, v: real)
    requires !HasNaN(m)
    ensures !HasNaN(m[k := Val(v)])
  {
    var m2 := m[k := Val(v)];
    forall j | j in m2 ensures m2[j].Val? {
      if j != k {
        assert m2[j] == m[j];
      }
    }
  }

  /** The value `k` holds in the ledger, 0 when it holds none. */
  function Held(l: Ledger, k: string): real
  {
    match IndexOf(l, k)
    case Some(i) => RealOf(l[i].price)
    case None => 0.0
  }

  /** The entry for `k`, if there is one, holds a number. */
  predicate FiniteAt(l: Ledger, k: string)
  {
    forall i | 0 <= i < |l| && l[i].key == k :: l[i].price.Val?
  }

  /** `Held` and `FiniteAt` read the map view. */
  lemma HeldInView(l: Ledger, k: string)
    ensures Held(l, k) == if k in ToMap(l) then RealOf(ToMap(l)[k]) else 0.0
    ensures FiniteAt(l, k) <==> (k in ToMap(l) ==> ToMap(l)[k].Val?)
  {
    if k in ToMap(l) {
      var i := IndexOf(l, k).value;
      assert ToMap(l)[l[i].key] == l[i].price;
    }
  }

  /** Starting the running sum `d` higher ends it `d` higher. */
  lemma {:induction false} SumFromShift(x: Num, d: real, es: seq<Entry>)
    ensures SumFrom(Add(x, Val(d)), es) == Add(SumFrom(x, es), Val(d))
    decreases |es|
  {
    if es != [] {
      assert Add(Add(x, Val(d)), es[0].price) == Add(Add(x, es[0].price), Val(d));
      SumFromShift(Add(x, es[0].price), d, es[1..]);
    }
  }

  /** A new entry at the end is added last. */
  lemma {:induction false} SumFromAppend(x: Num, es: seq<Entry>, e: Entry)
    ensures SumFrom(x, es + [e]) == Add(SumFrom(x, es), e.price)
    decreases |es|
  {
    if es != [] {
      assert (es + [e])[1..] == es[1..] + [e];
      SumFromAppend(Add(x, es[0].price), es[1..], e);
    }
  }

  /** Replacing a finite entry by a finite one moves the sum by the
      difference. */
  lemma {:induction false} SumFromReplace(x: Num, es: seq<Entry>, i: nat, e: Entry)
    requires i < |es| && es[i].price.Val? && e.price.Val?
    ensures SumFrom(x, es[i := e]) == Add(SumFrom(x, es), Val(e.price.v - es[i].price.v))
    decreases i
  {
    var r := es[i := e];
    if i == 0 {
      assert r[1..] == es[1..];
      assert Add(x, e.price) == Add(Add(x, es[0].price), Val(e.price.v - es[0].price.v));
      SumFromShift(Add(x, es[0].price), e.price.v - es[0].price.v, es[1..]);
    } else {
      assert r[1..] == es[1..][i - 1 := e];
      SumFromReplace(Add(x, es[0].price), es[1..], i - 1, e);
    }
  }

  /** Removing a finite entry takes it out of the sum. */
  lemma {:induction false} SumFromRemove(x: Num, es: seq<Entry>, i: nat)
    requires i < |es| && es[i].price.Val?
    ensures SumFrom(x, es[..i] + es[i + 1..]) == Add(SumFrom(x, es), Val(-es[i].price.v))
    decreases i
  {
    var r := es[..i] + es[i + 1..];
    if i == 0 {
      assert r == es[1..];
      assert Add(x, es[0].price) == Add(Add(x, es[0].price), Val(0.0));
      assert x == Add(Add(x, es[0].price), Val(-es[0].price.v)) || x.NaN?;
      SumFromShift(Add(x, es[0].price), -es[0].price.v, es[1..]);
    } else {
      var rest := es[1..];
      assert r[0] == es[0] && r[1..] == rest[..i - 1] + rest[i..];
      SumFromRemove(Add(x, es[0].price), rest, i - 1);
    }
  }

  /** A running sum `d` above another totals as the other with the base
      price moved by `d`. */
  lemma ShiftedTotal(base: real, r: Ledger, l: Ledger, d: real, moved: real)
    requires SumFrom(Val(base), r) == Add(SumFrom(Val(base), l), Val(d))
    requires moved == base + d
    ensures Total(Val(base), r) == Total(Val(moved), l)
  {
    SumFromShift(Val(base), d, l);
  }

  /** Setting `k` to a finite value moves the running sum by the new value
      minus the old one, whenever the old value was finite. */
  lemma SumAfterSet(base: real, l: Ledger, k: string, v: real)
    requires FiniteAt(l, k)
    ensures SumFrom(Val(base), Set(l, k, Val(v))) == Add(SumFrom(Val(base), l), Val(v - Held(l, k)))
  {
    var e := Entry(k, Val(v));
    match IndexOf(l, k)
    case Some(i) =>
      SumFromReplace(Val(base), l, i, e);
    case None =>
      SumFromAppend(Val(base), l, e);
  }

  /** Deleting `k` takes its value out of the running sum, whenever that
      value was finite. */
  lemma SumAfterDelete(base: real, l: Ledger, k: string)
    requires FiniteAt(l, k)
    ensures SumFrom(Val(base), Delete(l, k)) == Add(SumFrom(Val(base), l), Val(-Held(l, k)))
  {
    match IndexOf(l, k)
    case Some(i) =>
      SumFromRemove(Val(base), l, i);
    case None =>
      assert Add(SumFrom(Val(base), l), Val(0.0)) == SumFrom(Val(base), l);
  }

  /** Setting `k` to a finite value moves the total exactly as moving the
      base price by the new value minus the old one would, whenever the old
      value was finite. */
  lemma TotalAfterSet(base: real, l: Ledger, k: string, v: real)
    requires FiniteAt(l, k)
    ensures Total(Val(base), Set(l, k, Val(v))) == Total(Val(base - Held(l, k) + v), l)
  {
    var h := Held(l, k);
    assert SumFrom(Val(base), Set(l, k, Val(v))) == Add(SumFrom(Val(base), l), Val(v - h)) by {
      SumAfterSet(base, l, k, v);
    }
    assert Total(Val(base), Set(l, k, Val(v))) == Total(Val(base - h + v), l) by {
      ShiftedTotal(base, Set(l, k, Val(v)), l, v - h, base - h + v);
    }
  }

  /** Deleting `k` moves the total exactly as lowering the base price by
      `k`'s value would, whenever that value was finite. */
  lemma TotalAfterDelete(base: real, l: Ledger, k: string)
    requires FiniteAt(l, k)
    ensures Total(Val(base), Delete(l, k)) == Total(Val(base - Held(l, k)), l)
  {
    var h := Held(l, k);
    assert SumFrom(Val(base), Delete(l, k)) == Add(SumFrom(Val(base), l), Val(-h)) by {
      SumAfterDelete(base, l, k);
    }
    assert Total(Val(base), Delete(l, k)) == Total(Val(base - h), l) by {
      ShiftedTotal(base, Delete(l, k), l, -h, base - h);
    }
  }
}
