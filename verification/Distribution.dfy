// Distribution: weights of the edges out of a block, combined per target and scaled to 32 bits.
module Distribution {
  import opened MachineIntegers
  import opened MassScale
  import opened Sums
  import opened Sets

  datatype DistType = Local | Exit | Backedge

  datatype Weight = Weight(kind: DistType, target: nat, amount: nat)

  function Sum(ws: seq<Weight>): nat {
    if ws == [] then 0 else Sum(ws[..|ws| - 1]) + ws[|ws| - 1].amount
  }

  /** What goes to one target. */
  function SumFor(ws: seq<Weight>, t: nat): nat {
    if ws == [] then 0
    else SumFor(ws[..|ws| - 1], t) + if ws[|ws| - 1].target == t then ws[|ws| - 1].amount else 0
  }

  ghost predicate DistinctTargets(ws: seq<Weight>) {
    forall i, j :: 0 <= i < j < |ws| ==> ws[i].target != ws[j].target
  }

  ghost predicate Positive(ws: seq<Weight>) {
    forall i :: 0 <= i < |ws| ==> 0 < ws[i].amount < MODULUS
  }

  /** Edges to one target are of one kind, and together fit 64 bits. */
  ghost predicate Combinable(ws: seq<Weight>) {
    && Positive(ws)
    && (forall i, j :: 0 <= i < |ws| && 0 <= j < |ws| && ws[i].target == ws[j].target ==> ws[i].kind == ws[j].kind)
    && forall t :: SumFor(ws, t) < MODULUS
  }

  predicate HasTarget(ws: seq<Weight>, t: nat, kind: DistType) {
    exists i :: 0 <= i < |ws| && ws[i].target == t && ws[i].kind == kind
  }

  /** ws' has one weight for every target of ws: the sum for that target. */
  ghost predicate IsCombined(ws: seq<Weight>, ws': seq<Weight>) {
    && DistinctTargets(ws') && Positive(ws') && Sum(ws') == Sum(ws)
    && (forall t :: SumFor(ws', t) == SumFor(ws, t))
    && forall t, k {:trigger HasTarget(ws', t, k)} {:trigger HasTarget(ws, t, k)} ::
         HasTarget(ws', t, k) <==> HasTarget(ws, t, k)
  }

  // ---------------------------------------------------------------- sums

  lemma SumAppend(ws: seq<Weight>, w: Weight)
    ensures Sum(ws + [w]) == Sum(ws) + w.amount
    ensures forall t :: SumFor(ws + [w], t) == SumFor(ws, t) + if w.target == t then w.amount else 0
  {
    assert (ws + [w])[..|ws|] == ws;
  }

  /** The last weight gets more. */
  lemma SumLast(ws: seq<Weight>, more: nat)
    requires ws != []
    ensures var w := ws[|ws| - 1];
            var ws' := ws[|ws| - 1 := w.(amount := w.amount + more)];
            && Sum(ws') == Sum(ws) + more
            && forall t :: SumFor(ws', t) == SumFor(ws, t) + if w.target == t then more else 0
  {
    var n := |ws| - 1;
    var ws' := ws[n := ws[n].(amount := ws[n].amount + more)];
    assert ws'[..n] == ws[..n];
  }

  lemma SumTake(ws: seq<Weight>, i: nat)
    requires i < |ws|
    ensures Sum(ws[..i + 1]) == Sum(ws[..i]) + ws[i].amount
    ensures forall t :: SumFor(ws[..i + 1], t) == SumFor(ws[..i], t) + if ws[i].target == t then ws[i].amount else 0
  {
    assert ws[..i + 1] == ws[..i] + [ws[i]];
    SumAppend(ws[..i], ws[i]);
  }

  lemma {:induction false} SumForGrows(ws: seq<Weight>, i: nat, t: nat)
    requires i <= |ws|
    ensures SumFor(ws[..i], t) <= SumFor(ws, t)
    decreases |ws|
  {
    if i < |ws| {
      var n := |ws| - 1;
      assert ws[..n][..i] == ws[..i];
      SumForGrows(ws[..n], i, t);
    } else {
      assert ws[..i] == ws;
    }
  }

  lemma {:induction false} SumForMember(ws: seq<Weight>, i: nat)
    requires i < |ws|
    ensures SumFor(ws, ws[i].target) >= ws[i].amount
  {
    SumTake(ws, i);
    SumForGrows(ws, i + 1, ws[i].target);
  }

  lemma {:induction false} SumForNone(ws: seq<Weight>, t: nat)
    requires forall i :: 0 <= i < |ws| ==> ws[i].target != t
    ensures SumFor(ws, t) == 0
    decreases |ws|
  {
    if ws != [] {
      SumForNone(ws[..|ws| - 1], t);
    }
  }

  lemma {:induction false} SumForOnly(ws: seq<Weight>, i: nat)
    requires i < |ws| && DistinctTargets(ws)
    ensures SumFor(ws, ws[i].target) == ws[i].amount
    decreases |ws|
  {
    var n := |ws| - 1;
    if i == n {
      SumForNone(ws[..n], ws[n].target);
    } else {
      SumForOnly(ws[..n], i);
    }
  }

  lemma MultisetCancel<T>(a: multiset<T>, b: multiset<T>, x: T)
    requires a + multiset{x} == b + multiset{x}
    ensures a == b
  {
    assert a == a + multiset{x} - multiset{x} && b == b + multiset{x} - multiset{x};
  }

  /** Sums do not depend on the order. */
  lemma {:induction false} SumPermuted(ws: seq<Weight>, ws': seq<Weight>)
    requires multiset(ws) == multiset(ws')
    ensures Sum(ws) == Sum(ws') && forall t :: SumFor(ws, t) == SumFor(ws', t)
    decreases |ws|
  {
    if ws == [] {
      assert |multiset(ws')| == 0;
    } else {
      var n := |ws| - 1;
      var w := ws[n];
      assert ws == ws[..n] + [w];
      assert w in multiset(ws');
      var i :| 0 <= i < |ws'| && ws'[i] == w;
      var rest := ws'[..i] + ws'[i + 1..];
      assert ws' == ws'[..i] + [w] + ws'[i + 1..];
      assert multiset(ws) == multiset(ws[..n]) + multiset{w};
      assert multiset(ws') == multiset(ws'[..i]) + multiset{w} + multiset(ws'[i + 1..]);
      assert multiset(rest) == multiset(ws'[..i]) + multiset(ws'[i + 1..]);
      MultisetCancel(multiset(ws[..n]), multiset(rest), w);
      SumPermuted(ws[..n], rest);
      SumAppend(ws[..n], w);
      SumMiddle(ws'[..i], w, ws'[i + 1..]);
    }
  }

  lemma {:induction false} SumMiddle(a: seq<Weight>, w: Weight, b: seq<Weight>)
    ensures Sum(a + [w] + b) == Sum(a + b) + w.amount
    ensures forall t :: SumFor(a + [w] + b, t) == SumFor(a + b, t) + if w.target == t then w.amount else 0
    decreases |b|
  {
    if b == [] {
      assert a + [w] + b == a + [w] && a + b == a;
      SumAppend(a, w);
    } else {
      var n := |b| - 1;
      SumMiddle(a, w, b[..n]);
      assert a + [w] + b == (a + [w] + b[..n]) + [b[n]];
      assert a + b == (a + b[..n]) + [b[n]];
      SumAppend(a + [w] + b[..n], b[n]);
      SumAppend(a + b[..n], b[n]);
    }
  }

  // ---------------------------------------------------------------- combining by sorting

  predicate SortedByTarget(ws: seq<Weight>) {
    forall i, j :: 0 <= i < j < |ws| ==> ws[i].target <= ws[j].target
  }

  function CombineWeight(w: Weight, other: Weight): Weight {
    if w.amount == 0 then other else w.(amount := w.amount + other.amount)
  }

  /** Between two groups: the first `o` places hold the combined weights of the first i of `sorted`. */
  ghost predicate Compacted(sorted: seq<Weight>, ws: seq<Weight>, o: nat, i: nat) {
    o <= i <= |ws| == |sorted| && ws[i..] == sorted[i..] && SameSums(ws[..o], sorted[..i])
      && Groups(ws[..o], sorted[..i])
  }

  ghost predicate SameSums(a: seq<Weight>, b: seq<Weight>) {
    Sum(a) == Sum(b) && forall t :: SumFor(a, t) == SumFor(b, t)
  }

  /** The groups of b, in order. */
  ghost predicate Groups(a: seq<Weight>, b: seq<Weight>) {
    && (forall j :: 0 <= j < |a| ==> 0 < a[j].amount && HasTarget(b, a[j].target, a[j].kind))
    && (forall j :: 0 <= j < |b| ==> HasTarget(a, b[j].target, b[j].kind))
    && (forall j, k :: 0 <= j < k < |a| ==> a[j].target < a[k].target)
  }

  lemma GroupsNew(a: seq<Weight>, b: seq<Weight>, w: Weight)
    requires Groups(a, b) && w.amount > 0 && forall j :: 0 <= j < |a| ==> a[j].target < w.target
    ensures Groups(a + [w], b + [w])
  {
    HasMore(a, w);
    HasMore(b, w);
  }

  lemma GroupsMore(a: seq<Weight>, b: seq<Weight>, w: Weight, more: nat)
    requires Groups(a, b) && a != [] && w.target == a[|a| - 1].target && w.kind == a[|a| - 1].kind
    ensures var last := a[|a| - 1]; Groups(a[|a| - 1 := last.(amount := last.amount + more)], b + [w])
  {
    var last := a[|a| - 1];
    var a' := a[|a| - 1 := last.(amount := last.amount + more)];
    HasMore(b, w);
    forall j | 0 <= j < |b + [w]|
      ensures HasTarget(a', (b + [w])[j].target, (b + [w])[j].kind)
    {
      if j < |b| {
        var k :| 0 <= k < |a| && a[k].target == b[j].target && a[k].kind == b[j].kind;
        assert a'[k].target == b[j].target && a'[k].kind == b[j].kind;
      } else {
        assert a'[|a| - 1].target == w.target && a'[|a| - 1].kind == w.kind;
      }
    }
  }

  lemma CompactedStart(sorted: seq<Weight>, ws: seq<Weight>, o: nat, i: nat)
    requires Compacted(sorted, ws, o, i) && i < |sorted| && sorted[i].amount > 0
    requires forall j :: 0 <= j < o ==> ws[j].target < sorted[i].target
    ensures Compacted(sorted, ws[o := ws[i]], o + 1, i + 1)
  {
    hide Sum, SumFor, Groups;
    var ws' := ws[o := ws[i]];
    assert ws[i] == ws[i..][0] == sorted[i..][0] == sorted[i];
    assert ws'[i + 1..] == ws[i..][1..] && sorted[i + 1..] == sorted[i..][1..];
    assert ws'[..o + 1] == ws[..o] + [sorted[i]];
    assert sorted[..i + 1] == sorted[..i] + [sorted[i]];
    SumAppend(ws[..o], sorted[i]);
    SumAppend(sorted[..i], sorted[i]);
    GroupsNew(ws[..o], sorted[..i], sorted[i]);
  }

  lemma HasMore(ws: seq<Weight>, w: Weight)
    ensures forall t, k {:trigger HasTarget(ws + [w], t, k)} ::
              HasTarget(ws + [w], t, k) <==> HasTarget(ws, t, k) || (t == w.target && k == w.kind)
  {
    var ws' := ws + [w];
    assert ws'[|ws|] == w;
    forall t, k | HasTarget(ws, t, k)
      ensures HasTarget(ws', t, k)
    {
      var i :| 0 <= i < |ws| && ws[i].target == t && ws[i].kind == k;
      assert ws'[i] == ws[i];
    }
  }

  lemma CompactedMore(sorted: seq<Weight>, ws: seq<Weight>, o: nat, l: nat)
    requires o > 0 && Compacted(sorted, ws, o, l) && l < |sorted|
    requires ws[o - 1].target == sorted[l].target && ws[o - 1].amount > 0 && ws[o - 1].kind == sorted[l].kind
    ensures Compacted(sorted, ws[o - 1 := CombineWeight(ws[o - 1], ws[l])], o, l + 1)
  {
    hide Sum, SumFor, Groups;
    var ws' := ws[o - 1 := CombineWeight(ws[o - 1], ws[l])];
    assert ws[l] == ws[l..][0] == sorted[l..][0] == sorted[l];
    assert ws'[l + 1..] == ws[l..][1..] && sorted[l + 1..] == sorted[l..][1..];
    var part := ws[..o];
    assert ws'[..o] == part[o - 1 := part[o - 1].(amount := part[o - 1].amount + sorted[l].amount)];
    assert sorted[..l + 1] == sorted[..l] + [sorted[l]];
    SumLast(part, sorted[l].amount);
    SumAppend(sorted[..l], sorted[l]);
    GroupsMore(part, sorted[..l], sorted[l], sorted[l].amount);
  }

  lemma CompactedAll(ws0: seq<Weight>, sorted: seq<Weight>, ws: seq<Weight>, o: nat)
    requires Compacted(sorted, ws, o, |sorted|) && multiset(sorted) == multiset(ws0) && Combinable(ws0)
    ensures IsCombined(ws0, ws[..o])
  {
    assert sorted[..|sorted|] == sorted;
    SumPermuted(ws0, sorted);
    SameTargets(ws0, sorted);
    forall i | 0 <= i < o
      ensures 0 < ws[..o][i].amount < MODULUS
    {
      SumForMember(ws[..o], i);
      assert SumFor(ws0, ws[i].target) < MODULUS;
    }
    forall t, k
      ensures HasTarget(ws[..o], t, k) <==> HasTarget(ws0, t, k)
    {
      if HasTarget(ws[..o], t, k) {
        var i :| 0 <= i < o && ws[..o][i].target == t && ws[..o][i].kind == k;
        assert HasTarget(sorted, ws[i].target, ws[i].kind);
      }
      if HasTarget(sorted, t, k) {
        var i :| 0 <= i < |sorted| && sorted[i].target == t && sorted[i].kind == k;
        assert HasTarget(ws[..o], sorted[i].target, sorted[i].kind);
      }
    }
  }

  lemma SameTargets(ws: seq<Weight>, ws': seq<Weight>)
    requires multiset(ws) == multiset(ws')
    ensures forall t, k {:trigger HasTarget(ws, t, k)} {:trigger HasTarget(ws', t, k)} ::
              HasTarget(ws, t, k) <==> HasTarget(ws', t, k)
  {
    forall t, k
      ensures HasTarget(ws, t, k) <==> HasTarget(ws', t, k)
    {
      if HasTarget(ws, t, k) {
        var i :| 0 <= i < |ws| && ws[i].target == t && ws[i].kind == k;
        assert ws[i] in multiset(ws');
      }
      if HasTarget(ws', t, k) {
        var i :| 0 <= i < |ws'| && ws'[i].target == t && ws'[i].kind == k;
        assert ws'[i] in multiset(ws);
      }
    }
  }

  lemma SortedCombinable(ws: seq<Weight>, sorted: seq<Weight>)
    requires Combinable(ws) && multiset(sorted) == multiset(ws)
    ensures Combinable(sorted)
  {
    SumPermuted(ws, sorted);
    forall i | 0 <= i < |sorted|
      ensures exists j :: 0 <= j < |ws| && ws[j] == sorted[i]
    {
      assert sorted[i] in multiset(ws);
    }
  }

  /** `sorted` is what std::sort leaves of ws. */
  method CombineWeightsBySorting(ghost ws0: seq<Weight>, sorted: seq<Weight>) returns (ws: seq<Weight>)
    requires Combinable(ws0) && SortedByTarget(sorted) && multiset(sorted) == multiset(ws0)
    ensures IsCombined(ws0, ws)
  {
    hide Compacted, Combinable, IsCombined;
    SortedCombinable(ws0, sorted);
    ws := sorted;
    var o, i, l := 0, 0, 0;
    NothingCompacted(sorted);
    while i != |sorted|
      invariant l == i <= |sorted| && o <= i && |ws| == |sorted| && Compacted(sorted, ws, o, i)
      invariant i < |sorted| ==> forall j :: 0 <= j < o ==> ws[j].target < sorted[i].target
      decreases |sorted| - i
    {
      Unread(sorted, ws, o, i);
      CompactedStart(sorted, ws, o, i);
      ws := ws[o := ws[i]];
      l := l + 1;
      while l != |sorted| && sorted[i].target == sorted[l].target
        invariant i < l <= |sorted| && o < l && |ws| == |sorted| && Compacted(sorted, ws, o + 1, l)
        invariant ws[o].target == sorted[i].target && ws[o].amount > 0 && ws[o].kind == sorted[i].kind
        invariant forall j :: 0 <= j < o ==> ws[j].target < sorted[i].target
        decreases |sorted| - l
      {
        Unread(sorted, ws, o + 1, l);
        SameKind(sorted, i, l);
        CompactedMore(sorted, ws, o + 1, l);
        ws := ws[o := CombineWeight(ws[o], ws[l])];
        l := l + 1;
      }
      o := o + 1;
      i := l;
    }
    CompactedAll(ws0, sorted, ws, o);
    ws := ws[..o];
  }

  lemma NothingCompacted(sorted: seq<Weight>)
    ensures Compacted(sorted, sorted, 0, 0)
  {
  }

  lemma Unread(sorted: seq<Weight>, ws: seq<Weight>, o: nat, i: nat)
    requires Compacted(sorted, ws, o, i) && i < |sorted| && Combinable(sorted)
    ensures i < |ws| && ws[i] == sorted[i] && sorted[i].amount > 0
  {
    assert ws[i] == ws[i..][0] == sorted[i..][0];
  }

  lemma SameKind(sorted: seq<Weight>, i: nat, l: nat)
    requires Combinable(sorted) && i < |sorted| && l < |sorted| && sorted[i].target == sorted[l].target
    ensures sorted[i].kind == sorted[l].kind
  {
  }

  // ---------------------------------------------------------------- combining by hashing

  /** The table after the first i weights. */
  ghost predicate Tabled(ws: seq<Weight>, i: nat, m: map<nat, Weight>) {
    && i <= |ws|
    && (forall t ::
         t in m ==> m[t].target == t && m[t].amount == SumFor(ws[..i], t) > 0 && HasTarget(ws[..i], t, m[t].kind))
    && (forall t, k {:trigger HasTarget(ws[..i], t, k)} :: HasTarget(ws[..i], t, k) ==> t in m && m[t].kind == k)
  }

  lemma TabledMore(ws: seq<Weight>, i: nat, m: map<nat, Weight>)
    requires Tabled(ws, i, m) && i < |ws| && Combinable(ws)
    ensures var t := ws[i].target;
            Tabled(ws, i + 1, m[t := CombineWeight(if t in m then m[t] else Weight(Local, t, 0), ws[i])])
  {
    SumTake(ws, i);
    assert ws[..i + 1] == ws[..i] + [ws[i]];
    HasMore(ws[..i], ws[i]);
    var t := ws[i].target;
    if t in m {
      var j :| 0 <= j < i && ws[..i][j].target == t && ws[..i][j].kind == m[t].kind;
      assert ws[j].kind == ws[i].kind;
    } else {
      forall j | 0 <= j < i
        ensures ws[..i][j].target != t
      {
        assert HasTarget(ws[..i], ws[..i][j].target, ws[..i][j].kind);
      }
      SumForNone(ws[..i], t);
    }
  }

  /** The entries of the table for the keys in `keys`. */
  ghost predicate Listed(m: map<nat, Weight>, keys: set<nat>, out: seq<Weight>) {
    && keys <= m.Keys && DistinctTargets(out) && |out| == |keys|
    && (forall i :: 0 <= i < |out| ==> out[i].target in keys && out[i] == m[out[i].target])
    && forall t :: t in keys ==> exists i :: 0 <= i < |out| && out[i].target == t
  }

  lemma ListedIsCombined(ws: seq<Weight>, m: map<nat, Weight>, out: seq<Weight>)
    requires Combinable(ws) && Tabled(ws, |ws|, m) && Listed(m, m.Keys, out)
    ensures IsCombined(ws, out)
  {
    assert ws[..|ws|] == ws;
    forall t
      ensures SumFor(out, t) == SumFor(ws, t)
    {
      if t in m {
        var i :| 0 <= i < |out| && out[i].target == t;
        SumForOnly(out, i);
      } else {
        SumForNone(out, t);
        forall i | 0 <= i < |ws|
          ensures ws[i].target != t
        {
          assert HasTarget(ws, ws[i].target, ws[i].kind);
        }
        SumForNone(ws, t);
      }
    }
    forall t, k
      ensures HasTarget(out, t, k) <==> HasTarget(ws, t, k)
    {
      if HasTarget(ws, t, k) {
        var i :| 0 <= i < |out| && out[i].target == t;
        assert out[i].kind == k;
      }
    }
    SumFromTargets(ws, out);
  }

  ghost function PerTarget(ws: seq<Weight>): nat -> nat {
    t => SumFor(ws, t)
  }

  /** What goes to all targets together. */
  lemma {:induction false} SumIsTotal(ws: seq<Weight>, ts: set<nat>)
    requires Targets(ws) <= ts
    ensures Sum(ws) == Total(ts, PerTarget(ws))
    decreases |ws|
  {
    if ws == [] {
      TotalZero(ts, PerTarget(ws));
    } else {
      var n := |ws| - 1;
      SumIsTotal(ws[..n], ts);
      TotalChanges(ts, PerTarget(ws[..n]), PerTarget(ws), ws[n].target);
    }
  }

  lemma {:induction false} TotalZero(ts: set<nat>, f: nat -> nat)
    requires forall t :: f(t) == 0
    ensures Total(ts, f) == 0
    decreases ts
  {
    if ts != {} {
      var t :| t in ts && Total(ts, f) == f(t) + Total(ts - {t}, f);
      TotalZero(ts - {t}, f);
    }
  }

  lemma SumFromTargets(ws: seq<Weight>, out: seq<Weight>)
    requires forall t :: SumFor(out, t) == SumFor(ws, t)
    ensures Sum(out) == Sum(ws)
  {
    var ts := Targets(ws) + Targets(out);
    SumIsTotal(ws, ts);
    SumIsTotal(out, ts);
    TotalSame(ts, PerTarget(ws), PerTarget(out));
  }

  method FillTable(ws: seq<Weight>) returns (combined: map<nat, Weight>)
    requires Combinable(ws)
    ensures Tabled(ws, |ws|, combined)
  {
    hide Combinable, Tabled;
    combined := map[];
    var i := 0;
    NothingTabled(ws);
    while i < |ws|
      invariant 0 <= i <= |ws| && Tabled(ws, i, combined)
    {
      TabledMore(ws, i, combined);
      var t := ws[i].target;
      combined := combined[t := CombineWeight(if t in combined then combined[t] else Weight(Local, t, 0), ws[i])];
      i := i + 1;
    }
  }

  /** The entries of the table, in any order. */
  method ListTable(combined: map<nat, Weight>) returns (ws: seq<Weight>)
    requires forall t :: t in combined ==> combined[t].target == t
    ensures Listed(combined, combined.Keys, ws)
  {
    hide Listed;
    ws := [];
    NothingListed(combined);
    var rest := combined.Keys;
    ghost var listed: set<nat> := {};
    while rest != {}
      invariant rest + listed == combined.Keys && rest !! listed && Listed(combined, listed, ws)
    {
      var t :| t in rest;
      ListedMore(combined, listed, ws, t);
      rest, listed := rest - {t}, listed + {t};
      ws := ws + [combined[t]];
    }
    assert listed == combined.Keys;
  }

  method CombineWeightsByHashing(ws0: seq<Weight>) returns (ws: seq<Weight>)
    requires Combinable(ws0)
    ensures IsCombined(ws0, ws)
  {
    hide Combinable, IsCombined, Tabled, Listed;
    var combined := FillTable(ws0);
    if |ws0| == |combined| {
      AllDifferent(ws0, combined);
      return ws0;
    }
    TargetsOf(ws0, combined);
    ws := ListTable(combined);
    ListedIsCombined(ws0, combined, ws);
  }

  lemma NothingListed(m: map<nat, Weight>)
    ensures Listed(m, {}, [])
  {
  }

  lemma TargetsOf(ws: seq<Weight>, m: map<nat, Weight>)
    requires Tabled(ws, |ws|, m)
    ensures forall t :: t in m ==> m[t].target == t
  {
  }

  lemma NothingTabled(ws: seq<Weight>)
    ensures Tabled(ws, 0, map[])
  {
  }

  lemma ListedMore(m: map<nat, Weight>, keys: set<nat>, out: seq<Weight>, t: nat)
    requires Listed(m, keys, out) && t in m && t !in keys && m[t].target == t
    ensures Listed(m, keys + {t}, out + [m[t]])
  {
    var out' := out + [m[t]];
    assert out'[|out|] == m[t];
    forall x | x in keys + {t}
      ensures exists i :: 0 <= i < |out'| && out'[i].target == x
    {
      if x != t {
        var i :| 0 <= i < |out| && out[i].target == x;
        assert out'[i].target == x;
      }
    }
  }

  /** As many entries as weights: no target occurs twice. */
  lemma AllDifferent(ws: seq<Weight>, m: map<nat, Weight>)
    requires Combinable(ws) && Tabled(ws, |ws|, m) && |m| == |ws|
    ensures IsCombined(ws, ws)
  {
    assert ws[..|ws|] == ws;
    var ts := Targets(ws);
    forall t
      ensures t in m ==> t in ts
    {
      if t in m {
        var i :| 0 <= i < |ws| && ws[i].target == t && ws[i].kind == m[t].kind;
        TargetsHas(ws, i);
      }
    }
    assert m.Keys <= ts;
    SubsetSize(m.Keys, ts);
    TargetsSize(ws);
  }

  function Targets(ws: seq<Weight>): set<nat> {
    if ws == [] then {} else Targets(ws[..|ws| - 1]) + {ws[|ws| - 1].target}
  }

  lemma {:induction false} TargetsHas(ws: seq<Weight>, i: nat)
    requires i < |ws|
    ensures ws[i].target in Targets(ws)
    decreases |ws|
  {
    if i < |ws| - 1 {
      TargetsHas(ws[..|ws| - 1], i);
    }
  }

  /** There are as many targets as weights only if they all differ. */
  lemma {:induction false} TargetsSize(ws: seq<Weight>)
    ensures |Targets(ws)| <= |ws| && (|Targets(ws)| == |ws| ==> DistinctTargets(ws))
    decreases |ws|
  {
    if ws != [] {
      var n := |ws| - 1;
      TargetsSize(ws[..n]);
      if |Targets(ws)| == |ws| {
        forall i | 0 <= i < n
          ensures ws[i].target != ws[n].target
        {
          TargetsHas(ws[..n], i);
        }
        assert DistinctTargets(ws[..n]);
        forall i, j | 0 <= i < j < |ws|
          ensures ws[i].target != ws[j].target
        {
          if j < n {
            assert ws[..n][i] == ws[i] && ws[..n][j] == ws[j];
          }
        }
      }
    }
  }

  /** Both ways of combining give the same weight for every target. */
  lemma CombinedAgree(ws: seq<Weight>, a: seq<Weight>, b: seq<Weight>, i: nat) returns (j: nat)
    requires IsCombined(ws, a) && IsCombined(ws, b) && i < |a|
    ensures j < |b| && b[j] == a[i]
  {
    assert HasTarget(a, a[i].target, a[i].kind);
    assert HasTarget(b, a[i].target, a[i].kind);
    j :| 0 <= j < |b| && b[j].target == a[i].target && b[j].kind == a[i].kind;
    SumForOnly(a, i);
    SumForOnly(b, j);
  }
}
