/** Mergeable means over a metric tree, gomoku/core/metrics.cc.  Floating-point rounding is not modelled:
    values are reals, with a separate NaN for the division of zero by zero. */
module Metrics {
  import opened Common

  datatype Float = NaN | Real(r: real)

  /** A metric is a mean, a group, or has no value set. */
  datatype Metric = Metric(name: string, value: MetricValue)
  datatype MetricValue = Mean(value: Float, count: nat) | Group(metrics: seq<Metric>) | Unset

  // ---------------------------------------------------------------------------------------
  // Flattening
  // ---------------------------------------------------------------------------------------

  /** A leaf of the tree together with the path that leads to it. */
  datatype Visit = Visit(path: string, leaf: MetricValue)

  function ChildPath(path: string, name: string): string { path + "/" + name }

  /** The leaves in the order in which they are visited. */
  function Visits(metrics: seq<Metric>, path: string): seq<Visit>
    decreases metrics, 0
  {
    if metrics == [] then [] else VisitsOf(metrics[0], path) + Visits(metrics[1..], path)
  }

  function VisitsOf(m: Metric, path: string): seq<Visit>
    decreases m, 1
  {
    var child := ChildPath(path, m.name);
    if m.value.Group? then Visits(m.value.metrics, child) else [Visit(child, m.value)]
  }

  /** Where a leaf stands in a tree: its place among the siblings at every level. */
  type Address = seq<nat>

  ghost predicate IsLeaf(metrics: seq<Metric>, a: Address)
    decreases |a|
  {
    a != [] && a[0] < |metrics| &&
    var m := metrics[a[0]];
    if m.value.Group? then IsLeaf(m.value.metrics, a[1..]) else |a| == 1
  }

  /** What the way down to a leaf spells out and leads to. */
  ghost function LeafAt(metrics: seq<Metric>, path: string, a: Address): Visit
    requires IsLeaf(metrics, a)
    decreases |a|
  {
    var m := metrics[a[0]];
    var child := ChildPath(path, m.name);
    if m.value.Group? then LeafAt(m.value.metrics, child, a[1..]) else Visit(child, m.value)
  }

  /** The order of the leaves from left to right. */
  predicate Before(a: Address, b: Address) {
    a != [] && b != [] && (a[0] < b[0] || (a[0] == b[0] && Before(a[1..], b[1..])))
  }

  lemma {:induction false} BeforeIsStrict(a: Address)
    ensures !Before(a, a)
  {
    if a != [] { BeforeIsStrict(a[1..]); }
  }

  function Under(k: nat, addresses: seq<Address>): seq<Address> {
    seq(|addresses|, i requires 0 <= i < |addresses| => [k] + addresses[i])
  }

  /** The addresses of the leaves from the k-th metric on. */
  function Addresses(metrics: seq<Metric>, k: nat): seq<Address>
    requires k <= |metrics|
    decreases metrics, |metrics| - k
  {
    if k == |metrics| then [] else AddressesOf(metrics[k], k) + Addresses(metrics, k + 1)
  }

  function AddressesOf(m: Metric, k: nat): seq<Address>
    decreases m, 0
  {
    if m.value.Group? then Under(k, Addresses(m.value.metrics, 0)) else [[k]]
  }

  /** Visits and addresses correspond, one by one. */
  ghost predicate Lists(metrics: seq<Metric>, path: string, addresses: seq<Address>, visits: seq<Visit>) {
    && |visits| == |addresses|
    && forall i :: 0 <= i < |addresses| ==>
         IsLeaf(metrics, addresses[i]) && visits[i] == LeafAt(metrics, path, addresses[i])
  }

  ghost predicate Ordered(addresses: seq<Address>) {
    forall i, j :: 0 <= i < j < |addresses| ==> Before(addresses[i], addresses[j])
  }

  /** All addresses begin with a place in a range. */
  ghost predicate Between(addresses: seq<Address>, lo: nat, hi: nat) {
    forall i :: 0 <= i < |addresses| ==> addresses[i] != [] && lo <= addresses[i][0] < hi
  }

  lemma ListsUnder(metrics: seq<Metric>, path: string, k: nat, addresses: seq<Address>, visits: seq<Visit>)
    requires k < |metrics| && metrics[k].value.Group? && Ordered(addresses)
    requires Lists(metrics[k].value.metrics, ChildPath(path, metrics[k].name), addresses, visits)
    ensures Lists(metrics, path, Under(k, addresses), visits)
    ensures Ordered(Under(k, addresses)) && Between(Under(k, addresses), k, k + 1)
  {
    forall i | 0 <= i < |addresses|
      ensures IsLeaf(metrics, [k] + addresses[i]) && visits[i] == LeafAt(metrics, path, [k] + addresses[i])
    {
      assert ([k] + addresses[i])[1..] == addresses[i];
    }
    forall i, j | 0 <= i < j < |addresses| ensures Before([k] + addresses[i], [k] + addresses[j]) {
      assert ([k] + addresses[i])[1..] == addresses[i] && ([k] + addresses[j])[1..] == addresses[j];
    }
  }

  lemma ListsConcat(metrics: seq<Metric>, path: string, k: nat, hi: nat, a: seq<Address>, v: seq<Visit>,
                    b: seq<Address>, w: seq<Visit>)
    requires Lists(metrics, path, a, v) && Ordered(a) && Between(a, k, k + 1)
    requires Lists(metrics, path, b, w) && Ordered(b) && Between(b, k + 1, hi)
    ensures Lists(metrics, path, a + b, v + w) && Ordered(a + b)
    ensures k < hi ==> Between(a + b, k, hi)
  {
  }

  lemma {:induction false} VisitsListed(metrics: seq<Metric>, path: string, k: nat)
    requires k <= |metrics|
    ensures Lists(metrics, path, Addresses(metrics, k), Visits(metrics[k..], path))
    ensures Ordered(Addresses(metrics, k)) && Between(Addresses(metrics, k), k, |metrics|)
    decreases metrics, |metrics| - k
  {
    if k < |metrics| {
      assert metrics[k..][1..] == metrics[k + 1..];
      VisitsListed(metrics, path, k + 1);
      MetricListed(metrics, path, k);
      ListsConcat(metrics, path, k, |metrics|, AddressesOf(metrics[k], k), VisitsOf(metrics[k], path),
                  Addresses(metrics, k + 1), Visits(metrics[k + 1..], path));
    }
  }

  lemma {:induction false} MetricListed(metrics: seq<Metric>, path: string, k: nat)
    requires k < |metrics|
    ensures Lists(metrics, path, AddressesOf(metrics[k], k), VisitsOf(metrics[k], path))
    ensures Ordered(AddressesOf(metrics[k], k)) && Between(AddressesOf(metrics[k], k), k, k + 1)
    decreases metrics[k], 0
  {
    var m := metrics[k];
    if m.value.Group? {
      var inner := m.value.metrics;
      assert inner[0..] == inner;
      VisitsListed(inner, ChildPath(path, m.name), 0);
      ListsUnder(metrics, path, k, Addresses(inner, 0), Visits(inner, ChildPath(path, m.name)));
    }
  }

  lemma {:induction false} LeafIsListed(metrics: seq<Metric>, a: Address, k: nat)
    requires IsLeaf(metrics, a) && k <= a[0]
    ensures a in Addresses(metrics, k)
    decreases |a|, |metrics| - k
  {
    if k < a[0] {
      LeafIsListed(metrics, a, k + 1);
    } else if metrics[k].value.Group? {
      var inner := Addresses(metrics[k].value.metrics, 0);
      LeafIsListed(metrics[k].value.metrics, a[1..], 0);
      var i :| 0 <= i < |inner| && inner[i] == a[1..];
      assert a == [k] + a[1..] == Under(k, inner)[i];
    } else {
      assert a == [k];
    }
  }

  /** Every leaf of the tree is visited exactly once, from left to right, under the path that the names on the
      way down to it spell out; nothing else is visited. */
  lemma VisitsAreLeaves(metrics: seq<Metric>, path: string)
    ensures Lists(metrics, path, Addresses(metrics, 0), Visits(metrics, path))
    ensures forall a :: IsLeaf(metrics, a) <==> a in Addresses(metrics, 0)
    ensures Ordered(Addresses(metrics, 0))
    ensures forall i, j :: 0 <= i < j < |Addresses(metrics, 0)| ==>
              Addresses(metrics, 0)[i] != Addresses(metrics, 0)[j]
  {
    var addresses := Addresses(metrics, 0);
    assert metrics[0..] == metrics;
    VisitsListed(metrics, path, 0);
    forall a | IsLeaf(metrics, a) ensures a in addresses { LeafIsListed(metrics, a, 0); }
    forall i, j | 0 <= i < j < |addresses| ensures addresses[i] != addresses[j] {
      BeforeIsStrict(addresses[i]);
    }
  }

  // ---------------------------------------------------------------------------------------
  // Paths and names
  // ---------------------------------------------------------------------------------------

  /** The names on the way down to a leaf. */
  ghost function NamesAt(metrics: seq<Metric>, a: Address): (names: seq<string>)
    requires IsLeaf(metrics, a)
    ensures |names| == |a|
    decreases |a|
  {
    var m := metrics[a[0]];
    [m.name] + if m.value.Group? then NamesAt(m.value.metrics, a[1..]) else []
  }

  /** Every name, with a slash in front. */
  function Spelled(names: seq<string>): string {
    if names == [] then "" else "/" + names[0] + Spelled(names[1..])
  }

  /** The path of a leaf spells out the names on the way down to it. */
  lemma {:induction false} LeafPath(metrics: seq<Metric>, path: string, a: Address)
    requires IsLeaf(metrics, a)
    ensures LeafAt(metrics, path, a).path == path + Spelled(NamesAt(metrics, a))
    decreases |a|
  {
    var m, names := metrics[a[0]], NamesAt(metrics, a);
    assert names[1..] == if m.value.Group? then NamesAt(m.value.metrics, a[1..]) else [];
    if m.value.Group? { LeafPath(m.value.metrics, ChildPath(path, m.name), a[1..]); }
    ChildPathSpells(path, m.name, Spelled(names[1..]));
  }

  lemma ChildPathSpells(path: string, name: string, rest: string)
    ensures ChildPath(path, name) + rest == path + ("/" + name + rest)
    ensures rest == "" ==> ChildPath(path, name) == path + ("/" + name + rest)
  {
  }

  predicate NoSlash(names: seq<string>) {
    forall i :: 0 <= i < |names| ==> '/' !in names[i]
  }

  /** The place of the first slash, or the end. */
  function NameLength(s: string): nat { if s == "" || s[0] == '/' then 0 else 1 + NameLength(s[1..]) }

  lemma {:induction false} NameLengthIs(a: string, s: string)
    requires '/' !in a && (s == "" || s[0] == '/')
    ensures NameLength(a + s) == |a|
  {
    if a == "" {
      assert a + s == s;
    } else {
      assert (a + s)[1..] == a[1..] + s && (a + s)[0] == a[0] && a[0] in a;
      assert forall c :: c in a[1..] ==> c in a;
      NameLengthIs(a[1..], s);
    }
  }

  /** The first name ends at the first slash. */
  lemma FirstNameEnds(a: string, b: string, s: string, t: string)
    requires '/' !in a && '/' !in b && a + s == b + t
    requires (s == "" || s[0] == '/') && (t == "" || t[0] == '/')
    ensures a == b && s == t
  {
    NameLengthIs(a, s);
    NameLengthIs(b, t);
    assert a == (a + s)[..|a|] && s == (a + s)[|a|..];
    assert b == (b + t)[..|b|] && t == (b + t)[|b|..];
  }

  /** Names without slashes can be read off the path. */
  lemma {:induction false} SpelledApart(a: seq<string>, b: seq<string>)
    requires NoSlash(a) && NoSlash(b) && Spelled(a) == Spelled(b)
    ensures a == b
  {
    if a != [] && b != [] {
      var s, t := Spelled(a[1..]), Spelled(b[1..]);
      assert Spelled(a)[1..] == a[0] + s && Spelled(b)[1..] == b[0] + t;
      FirstNameEnds(a[0], b[0], s, t);
      SpelledApart(a[1..], b[1..]);
      assert a == [a[0]] + a[1..] && b == [b[0]] + b[1..];
    }
  }

  /** Leaves with different names on the way down have different paths. */
  lemma PathsApart(metrics: seq<Metric>, others: seq<Metric>, path: string, a: Address, b: Address)
    requires IsLeaf(metrics, a) && IsLeaf(others, b)
    requires NoSlash(NamesAt(metrics, a)) && NoSlash(NamesAt(others, b))
    ensures LeafAt(metrics, path, a).path == LeafAt(others, path, b).path
            <==> NamesAt(metrics, a) == NamesAt(others, b)
  {
    LeafPath(metrics, path, a);
    LeafPath(others, path, b);
    var s, t := Spelled(NamesAt(metrics, a)), Spelled(NamesAt(others, b));
    if path + s == path + t {
      assert (path + s)[|path|..] == s && (path + t)[|path|..] == t;
      SpelledApart(NamesAt(metrics, a), NamesAt(others, b));
    }
  }

  /** With slashes they need not: a metric called a/b and a metric b in a group a share a path. */
  lemma SlashesCollide()
    ensures Spelled(["a/b"]) == Spelled(["a", "b"])
  {
    assert ["a/b"][1..] == [] && ["a", "b"][1..] == ["b"] && ["b"][1..] == [];
    assert Spelled(["b"]) == "/b" && Spelled([]) == "";
  }

  // ---------------------------------------------------------------------------------------
  // Merging
  // ---------------------------------------------------------------------------------------

  function ConcatMetrics(left: MetricValue, right: MetricValue): MetricValue {
    if left.Mean? && right.Mean? then
      var total := left.count + right.count;
      Mean(if total == 0 || left.value.NaN? || right.value.NaN? then NaN
           else Real(left.count as real / total as real * left.value.r
                     + right.count as real / total as real * right.value.r),
           total)
    else Unset
  }

  type Collected = map<string, MetricValue>

  /** The way two metrics at one path become one. */
  type Concat = (MetricValue, MetricValue) -> MetricValue

  /** What visiting a leaf does to the collected metrics. */
  function Collect(concat: Concat, m: Collected, v: Visit): Collected {
    m[v.path := if v.path in m then concat(m[v.path], v.leaf) else v.leaf]
  }

  function CollectAll(concat: Concat, m: Collected, visits: seq<Visit>): Collected
    decreases |visits|
  {
    if visits == [] then m else CollectAll(concat, Collect(concat, m, visits[0]), visits[1..])
  }

  class MetricCollector {
    var metrics: Collected

    constructor ()
      ensures metrics == map[]
    {
      metrics := map[];
    }

    method Append(ms: seq<Metric>)
      modifies this
      ensures metrics == CollectAll(ConcatMetrics, old(metrics), Visits(ms, ""))
    {
      IterateFlatMetrics(ms, "");
    }

    method IterateFlatMetrics(ms: seq<Metric>, path: string)
      modifies this
      ensures metrics == CollectAll(ConcatMetrics, old(metrics), Visits(ms, path))
      decreases ms, 0
    {
      for i := 0 to |ms|
        invariant CollectAll(ConcatMetrics, old(metrics), Visits(ms, path))
                  == CollectAll(ConcatMetrics, metrics, Visits(ms[i..], path))
      {
        assert ms[i..][1..] == ms[i + 1..];
        CollectConcat(ConcatMetrics, metrics, VisitsOf(ms[i], path), Visits(ms[i + 1..], path));
        VisitMetric(ms[i], path);
      }
    }

    method VisitMetric(m: Metric, path: string)
      modifies this
      ensures metrics == CollectAll(ConcatMetrics, old(metrics), VisitsOf(m, path))
      decreases m, 1
    {
      var child := ChildPath(path, m.name);
      if m.value.Group? {
        IterateFlatMetrics(m.value.metrics, child);
      } else {
        if child !in metrics {
          metrics := metrics[child := m.value];
        } else {
          metrics := metrics[child := ConcatMetrics(metrics[child], m.value)];
        }
      }
    }
  }

  /** Batching does not matter: two batches in a row are one long batch. */
  lemma {:induction false} CollectConcat(concat: Concat, m: Collected, a: seq<Visit>, b: seq<Visit>)
    ensures CollectAll(concat, m, a + b) == CollectAll(concat, CollectAll(concat, m, a), b)
    decreases |a|
  {
    if a == [] {
      assert a + b == b;
    } else {
      assert (a + b)[1..] == a[1..] + b;
      CollectConcat(concat, Collect(concat, m, a[0]), a[1..], b);
    }
  }

  /** What one call of Append is given. */
  type Tree = seq<Metric>

  /** Any number of trees, appended one after the other. */
  function AppendAll(concat: Concat, m: Collected, trees: seq<Tree>): Collected
    decreases |trees|
  {
    if trees == [] then m else AppendAll(concat, CollectAll(concat, m, Visits(trees[0], "")), trees[1..])
  }

  function AllVisits(trees: seq<Tree>): seq<Visit> {
    if trees == [] then [] else Visits(trees[0], "") + AllVisits(trees[1..])
  }

  /** A run of Append visits the leaves of all its trees. */
  lemma {:induction false} AppendVisitsAll(concat: Concat, m: Collected, trees: seq<Tree>)
    ensures AppendAll(concat, m, trees) == CollectAll(concat, m, AllVisits(trees))
    decreases |trees|
  {
    if trees != [] {
      CollectConcat(concat, m, Visits(trees[0], ""), AllVisits(trees[1..]));
      AppendVisitsAll(concat, CollectAll(concat, m, Visits(trees[0], "")), trees[1..]);
    }
  }

  /** One more tree at the end of a run. */
  lemma {:induction false} AppendOne(concat: Concat, m: Collected, trees: seq<Tree>, tree: Tree)
    ensures AppendAll(concat, m, trees + [tree]) == CollectAll(concat, AppendAll(concat, m, trees), Visits(tree, ""))
    decreases |trees|
  {
    if trees == [] {
      assert (trees + [tree])[1..] == [];
    } else {
      assert (trees + [tree])[1..] == trees[1..] + [tree];
      AppendOne(concat, CollectAll(concat, m, Visits(trees[0], "")), trees[1..], tree);
    }
  }

  // ---------------------------------------------------------------------------------------
  // What is collected at a path
  // ---------------------------------------------------------------------------------------

  function At(m: Collected, path: string): Option<MetricValue> {
    if path in m then Some(m[path]) else None
  }

  function LeavesAt(visits: seq<Visit>, path: string): seq<MetricValue> {
    if visits == [] then []
    else (if visits[0].path == path then [visits[0].leaf] else []) + LeavesAt(visits[1..], path)
  }

  /** The leaves of one path, merged from left to right. */
  function Merge(concat: Concat, first: MetricValue, rest: seq<MetricValue>): MetricValue
    decreases |rest|
  {
    if rest == [] then first else Merge(concat, concat(first, rest[0]), rest[1..])
  }

  /** Paths do not influence one another: a path holds the merge of its own leaves. */
  lemma {:induction false} CollectedAt(concat: Concat, m: Collected, visits: seq<Visit>, path: string)
    ensures path in CollectAll(concat, m, visits) <==> path in m || LeavesAt(visits, path) != []
    ensures path in m ==> CollectAll(concat, m, visits)[path] == Merge(concat, m[path], LeavesAt(visits, path))
    ensures path !in m && LeavesAt(visits, path) != [] ==>
              CollectAll(concat, m, visits)[path]
              == Merge(concat, LeavesAt(visits, path)[0], LeavesAt(visits, path)[1..])
    decreases |visits|
  {
    if visits != [] {
      CollectedAt(concat, Collect(concat, m, visits[0]), visits[1..], path);
      var rest := LeavesAt(visits[1..], path);
      assert LeavesAt(visits, path)
             == if visits[0].path == path then [visits[0].leaf] + rest else rest;
      assert ([visits[0].leaf] + rest)[1..] == rest;
    }
  }

  /** The leaves that are reached by following the names, from left to right. */
  ghost function LeavesNamed(metrics: seq<Metric>, names: seq<string>): seq<MetricValue>
    decreases metrics, 0
  {
    if metrics == [] then [] else LeafNamed(metrics[0], names) + LeavesNamed(metrics[1..], names)
  }

  ghost function LeafNamed(m: Metric, names: seq<string>): seq<MetricValue>
    decreases m, 1
  {
    if names == [] || names[0] != m.name then []
    else if m.value.Group? then LeavesNamed(m.value.metrics, names[1..])
    else if |names| == 1 then [m.value] else []
  }

  /** All names in a tree, groups included, are free of slashes. */
  ghost predicate SlashFree(metrics: seq<Metric>)
    decreases metrics, 0
  {
    metrics == [] || (SlashFreeOne(metrics[0]) && SlashFree(metrics[1..]))
  }

  ghost predicate SlashFreeOne(m: Metric)
    decreases m, 1
  {
    '/' !in m.name && (m.value.Group? ==> SlashFree(m.value.metrics))
  }

  /** What a metric visits lies below its name. */
  lemma {:induction false} VisitsBelow(metrics: seq<Metric>, path: string, i: nat)
    requires i < |Visits(metrics, path)|
    ensures path + "/" <= Visits(metrics, path)[i].path
    decreases metrics, 0
  {
    var first := VisitsOf(metrics[0], path);
    if i < |first| { VisitsOfBelow(metrics[0], path, i); } else { VisitsBelow(metrics[1..], path, i - |first|); }
  }

  lemma {:induction false} VisitsOfBelow(m: Metric, path: string, i: nat)
    requires i < |VisitsOf(m, path)|
    ensures VisitsOf(m, path)[i].path == ChildPath(path, m.name)
            || ChildPath(path, m.name) + "/" <= VisitsOf(m, path)[i].path
    ensures path + "/" <= VisitsOf(m, path)[i].path
    decreases m, 1
  {
    if m.value.Group? { VisitsBelow(m.value.metrics, ChildPath(path, m.name), i); }
  }

  lemma {:induction false} LeavesNowhere(visits: seq<Visit>, path: string)
    requires forall i :: 0 <= i < |visits| ==> visits[i].path != path
    ensures LeavesAt(visits, path) == []
  {
    if visits != [] {
      assert forall i :: 0 <= i < |visits| - 1 ==> visits[1..][i] == visits[i + 1];
      LeavesNowhere(visits[1..], path);
    }
  }

  /** What is visited under another name is found under another path. */
  lemma OtherNameElsewhere(path: string, name: string, names: seq<string>, v: string)
    requires '/' !in name && NoSlash(names) && names != [] && names[0] != name
    requires v == ChildPath(path, name) || ChildPath(path, name) + "/" <= v
    ensures v != path + Spelled(names)
  {
    var rest := BelowName(path, name, v);
    var tail := Spelled(names[1..]);
    if v == path + Spelled(names) {
      assert Spelled(names) == "/" + (names[0] + tail);
      Behind(path, name + rest, names[0] + tail);
      FirstNameEnds(name, names[0], rest, tail);
    }
  }

  lemma BelowName(path: string, name: string, v: string) returns (rest: string)
    requires v == ChildPath(path, name) || ChildPath(path, name) + "/" <= v
    ensures v == path + ("/" + (name + rest)) && (rest == "" || rest[0] == '/')
  {
    var n := |ChildPath(path, name)|;
    rest := v[n..];
    if v != ChildPath(path, name) { assert v[n] == (ChildPath(path, name) + "/")[n]; }
    assert v[..n] == ChildPath(path, name);
    assert v == v[..n] + rest;
  }

  lemma Behind(path: string, a: string, b: string)
    requires path + ("/" + a) == path + ("/" + b)
    ensures a == b
  {
    assert (path + ("/" + a))[|path| + 1..] == a && (path + ("/" + b))[|path| + 1..] == b;
  }

  lemma {:induction false} NamedLeaf(m: Metric, path: string, names: seq<string>)
    requires SlashFreeOne(m) && NoSlash(names)
    ensures LeavesAt(VisitsOf(m, path), path + Spelled(names)) == LeafNamed(m, names)
    decreases m, 1
  {
    var visits, target := VisitsOf(m, path), path + Spelled(names);
    if names == [] || names[0] != m.name {
      forall i | 0 <= i < |visits| ensures visits[i].path != target {
        VisitsOfBelow(m, path, i);
        if names != [] { OtherNameElsewhere(path, m.name, names, visits[i].path); }
      }
      LeavesNowhere(visits, target);
    } else {
      var rest := names[1..];
      ChildPathSpells(path, m.name, Spelled(rest));
      assert target == ChildPath(path, m.name) + Spelled(rest);
      if m.value.Group? {
        NamedLeaves(m.value.metrics, ChildPath(path, m.name), rest);
      } else {
        assert (target == ChildPath(path, m.name)) == (rest == []);
        assert visits[1..] == [];
      }
    }
  }

  /** A path collects exactly the leaves that its names lead to, in order: leaves that merely have a name in
      common are never merged. */
  lemma {:induction false} NamedLeaves(metrics: seq<Metric>, path: string, names: seq<string>)
    requires SlashFree(metrics) && NoSlash(names)
    ensures LeavesAt(Visits(metrics, path), path + Spelled(names)) == LeavesNamed(metrics, names)
    decreases metrics, 0
  {
    if metrics != [] {
      NamedLeaf(metrics[0], path, names);
      NamedLeaves(metrics[1..], path, names);
      LeavesConcat(VisitsOf(metrics[0], path), Visits(metrics[1..], path), path + Spelled(names));
    }
  }

  /** The entry that the leaves of a path make. */
  function Entry(concat: Concat, ls: seq<MetricValue>): Option<MetricValue> {
    if ls == [] then None else Some(Merge(concat, ls[0], ls[1..]))
  }

  lemma CollectedEntry(concat: Concat, visits: seq<Visit>, path: string)
    ensures At(CollectAll(concat, map[], visits), path) == Entry(concat, LeavesAt(visits, path))
  {
    CollectedAt(concat, map[], visits, path);
  }

  // ---------------------------------------------------------------------------------------
  // Weighted means
  // ---------------------------------------------------------------------------------------

  predicate RealMean(m: MetricValue) { m.Mean? && m.value.Real? }

  predicate AllMeans(ls: seq<MetricValue>) {
    forall i :: 0 <= i < |ls| ==> RealMean(ls[i])
  }

  /** Means, some of which may be undefined. */
  predicate NoneUnset(ls: seq<MetricValue>) {
    forall i :: 0 <= i < |ls| ==> ls[i].Mean?
  }

  /** Whatever is not a mean counts nothing. */
  function TotalCount(ls: seq<MetricValue>): nat {
    if ls == [] then 0 else (if ls[0].Mean? then ls[0].count else 0) + TotalCount(ls[1..])
  }

  /** The sum of the samples behind a mean. */
  function Samples(m: MetricValue): real {
    if RealMean(m) then m.count as real * m.value.r else 0.0
  }

  function Sum(weight: MetricValue -> real, ls: seq<MetricValue>): real {
    if ls == [] then 0.0 else weight(ls[0]) + Sum(weight, ls[1..])
  }

  /** What makes a way of merging exact: counts and weights add up, a merge over no samples is undefined
      and stays so, and whatever is not a mean makes the result lose its value. */
  ghost predicate Exact(concat: Concat, weight: MetricValue -> real) {
    && (forall l, r {:trigger concat(l, r)} :: RealMean(l) && RealMean(r) ==>
          var m := concat(l, r);
          && m.Mean? && m.count == l.count + r.count && (m.value.NaN? <==> m.count == 0)
          && (m.value.Real? ==> weight(m) == weight(l) + weight(r)))
    && (forall l: MetricValue, r: MetricValue :: l.Mean? && r.Mean? && (l.value.NaN? || r.value.NaN?) ==>
          concat(l, r) == Mean(NaN, l.count + r.count))
    && (forall l: MetricValue, r: MetricValue :: !l.Mean? || !r.Mean? ==> concat(l, r) == Unset)
  }

  /** Count and weight determine a mean over samples. */
  ghost predicate Determines(weight: MetricValue -> real) {
    forall l, r :: RealMean(l) && RealMean(r) && l.count == r.count > 0 && weight(l) == weight(r) ==> l == r
  }

  lemma WeightedMean(a: nat, x: real, b: nat, y: real)
    requires a + b > 0
    ensures
      var t := (a + b) as real;
      (a as real / t * x + b as real / t * y) * t == a as real * x + b as real * y
  {
    var t, p, q := (a + b) as real, a as real, b as real;
    assert p / t * t == p && q / t * t == q;
    assert (p / t * x) * t == (p / t * t) * x && (q / t * y) * t == (q / t * t) * y;
  }

  lemma ConcatAddsUp(l: MetricValue, r: MetricValue)
    requires RealMean(l) && RealMean(r) && l.count + r.count > 0
    ensures Samples(ConcatMetrics(l, r)) == Samples(l) + Samples(r)
  {
    var m := ConcatMetrics(l, r);
    WeightedMean(l.count, l.value.r, r.count, r.value.r);
    assert Samples(m) == m.value.r * (l.count + r.count) as real;
  }

  /** The merge of the source is exact. */
  lemma ConcatIsExact()
    ensures Exact(ConcatMetrics, Samples) && Determines(Samples)
  {
    forall l, r | RealMean(l) && RealMean(r)
      ensures
        var m := ConcatMetrics(l, r);
        && m.Mean? && m.count == l.count + r.count && (m.value.NaN? <==> m.count == 0)
        && (m.value.Real? ==> Samples(m) == Samples(l) + Samples(r))
    {
      if l.count + r.count > 0 { ConcatAddsUp(l, r); }
    }
    forall l, r | RealMean(l) && RealMean(r) && l.count == r.count > 0 && Samples(l) == Samples(r) ensures l == r {
      SameMean(l, r);
    }
  }

  /** A merge is undefined exactly when it begins with two means over no samples; otherwise it holds the
      total count and the sum of the samples of everything merged. */
  lemma {:induction false} MergeAddsUp(concat: Concat, weight: MetricValue -> real,
                                       first: MetricValue, rest: seq<MetricValue>)
    requires Exact(concat, weight) && RealMean(first) && AllMeans(rest)
    ensures
      var m := Merge(concat, first, rest);
      && m.Mean? && m.count == first.count + TotalCount(rest)
      && (m.value.NaN? <==> rest != [] && first.count == 0 && rest[0].count == 0)
      && (m.value.Real? ==> weight(m) == weight(first) + Sum(weight, rest))
    decreases |rest|
  {
    if rest != [] {
      SplitFirst(rest);
      var next := concat(first, rest[0]);
      if next.value.Real? {
        MergeAddsUp(concat, weight, next, rest[1..]);
      } else {
        MergeKinds(concat, weight, next, rest[1..]);
      }
    }
  }

  /** One leaf without a value makes a merge lose its mean for good; among means, one undefined one makes
      the merge undefined. */
  lemma {:induction false} MergeKinds(concat: Concat, weight: MetricValue -> real,
                                      first: MetricValue, rest: seq<MetricValue>)
    requires Exact(concat, weight)
    ensures
      var m, means := Merge(concat, first, rest), first.Mean? && NoneUnset(rest);
      && (m.Mean? <==> means)
      && (!means && rest != [] ==> m == Unset)
      && (means && !(RealMean(first) && AllMeans(rest)) ==> m == Mean(NaN, first.count + TotalCount(rest)))
    decreases |rest|
  {
    if rest != [] {
      SplitFirst(rest);
      MergeKinds(concat, weight, concat(first, rest[0]), rest[1..]);
    }
  }

  lemma SplitFirst(ls: seq<MetricValue>)
    requires ls != []
    ensures NoneUnset(ls) <==> ls[0].Mean? && NoneUnset(ls[1..])
    ensures AllMeans(ls) <==> RealMean(ls[0]) && AllMeans(ls[1..])
    ensures TotalCount(ls) == (if ls[0].Mean? then ls[0].count else 0) + TotalCount(ls[1..])
  {
    assert forall i :: 0 < i < |ls| ==> ls[i] == ls[1..][i - 1];
  }

  lemma {:induction false} SumsConcat(weight: MetricValue -> real, a: seq<MetricValue>, b: seq<MetricValue>)
    ensures TotalCount(a + b) == TotalCount(a) + TotalCount(b)
    ensures Sum(weight, a + b) == Sum(weight, a) + Sum(weight, b)
  {
    if a == [] {
      assert a + b == b;
    } else {
      assert (a + b)[1..] == a[1..] + b;
      SumsConcat(weight, a[1..], b);
    }
  }

  /** Count and sum depend only on which leaves there are, not on their order. */
  lemma {:induction false} SumsOfPermutation(weight: MetricValue -> real, a: seq<MetricValue>, b: seq<MetricValue>)
    requires multiset(a) == multiset(b)
    ensures TotalCount(a) == TotalCount(b) && Sum(weight, a) == Sum(weight, b)
    decreases |a|
  {
    if a == [] {
      assert |multiset(b)| == 0;
    } else {
      var front, back := TakeOut(a, b);
      SumsOfPermutation(weight, a[1..], front + back);
      SumsConcat(weight, front, [a[0]] + back);
      SumsConcat(weight, front, back);
      assert ([a[0]] + back)[1..] == back;
    }
  }

  lemma RemoveAt<T>(s: seq<T>, j: nat)
    requires j < |s|
    ensures multiset(s) == multiset{s[j]} + multiset(s[..j] + s[j + 1..])
  {
    assert s == s[..j] + ([s[j]] + s[j + 1..]);
  }

  lemma Cancel<T>(x: T, a: multiset<T>, b: multiset<T>)
    requires multiset{x} + a == multiset{x} + b
    ensures a == b
  {
    assert a == (multiset{x} + a) - multiset{x};
    assert b == (multiset{x} + b) - multiset{x};
  }

  /** The first element of a, taken out of b. */
  lemma TakeOut<T>(a: seq<T>, b: seq<T>) returns (front: seq<T>, back: seq<T>)
    requires a != [] && multiset(a) == multiset(b)
    ensures b == front + ([a[0]] + back) && multiset(a[1..]) == multiset(front + back)
  {
    var x, rest := a[0], a[1..];
    assert a == [x] + rest;
    assert multiset(b)[x] > 0;
    var j :| 0 <= j < |b| && b[j] == x;
    front, back := b[..j], b[j + 1..];
    RemoveAt(b, j);
    Cancel(x, multiset(rest), multiset(front + back));
  }

  // ---------------------------------------------------------------------------------------
  // The collected entries
  // ---------------------------------------------------------------------------------------

  /** The first two leaves are means over no samples. */
  predicate BeginsEmpty(ls: seq<MetricValue>) {
    |ls| >= 2 && RealMean(ls[0]) && ls[0].count == 0 && RealMean(ls[1]) && ls[1].count == 0
  }

  /** The entry of a path whose leaves are means: its count is the number of samples; it is undefined exactly
      when the first two leaves have none, and otherwise count times value is the sum of the samples. */
  lemma EntryIsWeightedMean(concat: Concat, weight: MetricValue -> real, visits: seq<Visit>, path: string)
    requires Exact(concat, weight) && AllMeans(LeavesAt(visits, path)) && LeavesAt(visits, path) != []
    ensures
      var ls, all := LeavesAt(visits, path), CollectAll(concat, map[], visits);
      && path in all && all[path].Mean? && all[path].count == TotalCount(ls)
      && (all[path].value.NaN? <==> BeginsEmpty(ls))
      && (all[path].value.Real? ==> weight(all[path]) == Sum(weight, ls))
  {
    var ls := LeavesAt(visits, path);
    CollectedAt(concat, map[], visits, path);
    MergeAddsUp(concat, weight, ls[0], ls[1..]);
  }

  /** An entry is a mean exactly when all leaves of its path are. */
  lemma EntryIsMean(concat: Concat, weight: MetricValue -> real, visits: seq<Visit>, path: string)
    requires Exact(concat, weight) && LeavesAt(visits, path) != []
    ensures
      var ls, all := LeavesAt(visits, path), CollectAll(concat, map[], visits);
      path in all && (all[path].Mean? <==> NoneUnset(ls))
  {
    var ls := LeavesAt(visits, path);
    CollectedAt(concat, map[], visits, path);
    MergeKinds(concat, weight, ls[0], ls[1..]);
    SplitFirst(ls);
  }

  /** For the merge of the source: the value is the mean of all samples, weighted by the counts. */
  lemma CollectedMean(visits: seq<Visit>, path: string)
    requires AllMeans(LeavesAt(visits, path)) && TotalCount(LeavesAt(visits, path)) > 0
    requires !BeginsEmpty(LeavesAt(visits, path))
    ensures
      var ls, all := LeavesAt(visits, path), CollectAll(ConcatMetrics, map[], visits);
      && path in all && RealMean(all[path]) && all[path].count == TotalCount(ls)
      && all[path].value.r == Sum(Samples, ls) / TotalCount(ls) as real
  {
    ConcatIsExact();
    EntryIsWeightedMean(ConcatMetrics, Samples, visits, path);
    Quotient(CollectAll(ConcatMetrics, map[], visits)[path], Sum(Samples, LeavesAt(visits, path)));
  }

  lemma Quotient(m: MetricValue, sum: real)
    requires RealMean(m) && m.count > 0 && Samples(m) == sum
    ensures m.value.r == sum / m.count as real
  {
  }

  lemma SameMean(x: MetricValue, y: MetricValue)
    requires RealMean(x) && RealMean(y) && x.count == y.count > 0 && Samples(x) == Samples(y)
    ensures x == y
  {
    var n := x.count as real;
    assert n * (x.value.r - y.value.r) == 0.0;
  }

  // ---------------------------------------------------------------------------------------
  // When the order matters
  // ---------------------------------------------------------------------------------------

  /** Two orders of the same leaves make the same entry, unless all leaves are means and just one of the
      orders begins with two empty ones. */
  lemma SameEntryExactly(concat: Concat, weight: MetricValue -> real, a: seq<MetricValue>, b: seq<MetricValue>)
    requires Exact(concat, weight) && Determines(weight) && multiset(a) == multiset(b)
    ensures Entry(concat, a) == Entry(concat, b) <==> !AllMeans(a) || (BeginsEmpty(a) <==> BeginsEmpty(b))
  {
    SameElements(a, b);
    if |a| >= 2 {
      SumsOfPermutation(weight, a, b);
      if AllMeans(a) {
        SameMeansEntry(concat, weight, a, b);
      } else {
        LostEntry(concat, weight, a);
        LostEntry(concat, weight, b);
      }
    }
  }

  lemma SameMeansEntry(concat: Concat, weight: MetricValue -> real, a: seq<MetricValue>, b: seq<MetricValue>)
    requires Exact(concat, weight) && Determines(weight) && AllMeans(a) && AllMeans(b) && |a| == |b| >= 2
    requires TotalCount(a) == TotalCount(b) && Sum(weight, a) == Sum(weight, b)
    ensures Entry(concat, a) == Entry(concat, b) <==> (BeginsEmpty(a) <==> BeginsEmpty(b))
  {
    MergeAddsUp(concat, weight, a[0], a[1..]);
    MergeAddsUp(concat, weight, b[0], b[1..]);
    if !BeginsEmpty(a) { assert TotalCount(a) >= a[0].count + a[1].count > 0; }
  }

  lemma LostEntry(concat: Concat, weight: MetricValue -> real, ls: seq<MetricValue>)
    requires Exact(concat, weight) && !AllMeans(ls) && |ls| >= 2
    ensures Entry(concat, ls) == Some(if NoneUnset(ls) then Mean(NaN, TotalCount(ls)) else Unset)
  {
    SplitFirst(ls);
    MergeKinds(concat, weight, ls[0], ls[1..]);
    if NoneUnset(ls) {
      assert Merge(concat, ls[0], ls[1..]) == Mean(NaN, TotalCount(ls));
    } else {
      assert Merge(concat, ls[0], ls[1..]) == Unset;
    }
  }

  /** Permutations have the same length and the same kinds of elements. */
  lemma SameElements(a: seq<MetricValue>, b: seq<MetricValue>)
    requires multiset(a) == multiset(b)
    ensures |a| == |b| && (AllMeans(a) <==> AllMeans(b)) && (|a| <= 1 ==> a == b)
    ensures NoneUnset(a) <==> NoneUnset(b)
  {
    assert |a| == |multiset(a)| == |multiset(b)| == |b|;
    forall i | 0 <= i < |a| ensures a[i] in b { assert a[i] in multiset(b); }
    forall i | 0 <= i < |b| ensures b[i] in a { assert b[i] in multiset(a); }
  }

  /** The leaves of a sequence of reports, each of which contributes some. */
  function Flatten<T>(leaves: T -> seq<MetricValue>, ts: seq<T>): seq<MetricValue> {
    if ts == [] then [] else leaves(ts[0]) + Flatten(leaves, ts[1..])
  }

  lemma {:induction false} FlattenConcat<T>(leaves: T -> seq<MetricValue>, a: seq<T>, b: seq<T>)
    ensures Flatten(leaves, a + b) == Flatten(leaves, a) + Flatten(leaves, b)
  {
    if a == [] {
      assert a + b == b;
    } else {
      assert (a + b)[1..] == a[1..] + b;
      FlattenConcat(leaves, a[1..], b);
    }
  }

  lemma {:induction false} FlattenPermutes<T>(leaves: T -> seq<MetricValue>, a: seq<T>, b: seq<T>)
    requires multiset(a) == multiset(b)
    ensures multiset(Flatten(leaves, a)) == multiset(Flatten(leaves, b))
    decreases |a|
  {
    if a == [] {
      assert |multiset(b)| == 0;
    } else {
      var front, back := TakeOut(a, b);
      FlattenPermutes(leaves, a[1..], front + back);
      FlattenConcat(leaves, front, [a[0]] + back);
      FlattenConcat(leaves, front, back);
      assert ([a[0]] + back)[1..] == back;
    }
  }

  /** A report has a sample among its first two leaves. */
  predicate SampledEarly(ls: seq<MetricValue>) {
    exists i :: 0 <= i < |ls| && i < 2 && RealMean(ls[i]) && ls[i].count > 0
  }

  /** A report is a single empty mean, and another one begins with an empty mean. */
  predicate EmptyPair(first: seq<MetricValue>, second: seq<MetricValue>) {
    |first| == 1 && second != [] && BeginsEmpty([first[0], second[0]])
  }

  /** Two different reports of a sequence, which may look the same. */
  ghost predicate Both<T>(ts: seq<T>, t: T, u: T) { multiset{t, u} <= multiset(ts) }

  /** The order of reports matters if all leaves are means, some order begins with two empty ones - both in
      one report, or the only one of a report and the first of another - and some report has a sample among
      its first two. */
  ghost predicate OrderMatters<T(!new)>(leaves: T -> seq<MetricValue>, ts: seq<T>) {
    AllMeans(Flatten(leaves, ts)) && CanBeginEmpty(leaves, ts) && CanBeginSampled(leaves, ts)
  }

  ghost predicate CanBeginEmpty<T(!new)>(leaves: T -> seq<MetricValue>, ts: seq<T>) {
    || (exists t :: t in ts && BeginsEmpty(leaves(t)))
    || (exists t, u :: Both(ts, t, u) && EmptyPair(leaves(t), leaves(u)))
  }

  ghost predicate CanBeginSampled<T(!new)>(leaves: T -> seq<MetricValue>, ts: seq<T>) {
    exists t :: t in ts && SampledEarly(leaves(t))
  }

  lemma CanBeginPermutes<T(!new)>(leaves: T -> seq<MetricValue>, ts: seq<T>, us: seq<T>)
    requires multiset(ts) == multiset(us)
    ensures CanBeginEmpty(leaves, us) ==> CanBeginEmpty(leaves, ts)
    ensures CanBeginSampled(leaves, us) ==> CanBeginSampled(leaves, ts)
  {
    forall t | t in us ensures t in ts { assert t in multiset(ts); }
    forall t, u | Both(us, t, u) ensures Both(ts, t, u) {}
  }

  /** The first report that has leaves. */
  lemma {:induction false} FirstReport<T>(leaves: T -> seq<MetricValue>, ts: seq<T>) returns (t: T, rest: seq<T>)
    requires Flatten(leaves, ts) != []
    ensures leaves(t) != [] && Flatten(leaves, ts) == leaves(t) + Flatten(leaves, rest)
    ensures multiset{t} + multiset(rest) <= multiset(ts)
  {
    t, rest := ts[0], ts[1..];
    assert ts == [t] + rest;
    if leaves(t) == [] { t, rest := FirstReport(leaves, rest); }
  }

  /** Which reports the first two leaves come from. */
  lemma FirstTwo<T(!new)>(leaves: T -> seq<MetricValue>, ts: seq<T>)
    requires |Flatten(leaves, ts)| >= 2 && AllMeans(Flatten(leaves, ts))
    ensures BeginsEmpty(Flatten(leaves, ts)) ==> CanBeginEmpty(leaves, ts)
    ensures !BeginsEmpty(Flatten(leaves, ts)) ==> CanBeginSampled(leaves, ts)
  {
    var ls := Flatten(leaves, ts);
    var t, rest := FirstReport(leaves, ts);
    assert t in multiset(ts);
    assert RealMean(ls[0]) && RealMean(ls[1]) && ls[0] == leaves(t)[0];
    if |leaves(t)| == 1 {
      assert ls[1] == Flatten(leaves, rest)[0];
      var u, _ := FirstReport(leaves, rest);
      assert ls[1] == leaves(u)[0];
      assert u in multiset(rest) && Both(ts, t, u);
      assert u in multiset(ts);
      assert BeginsEmpty(ls) <==> EmptyPair(leaves(t), leaves(u));
    } else {
      assert ls[1] == leaves(t)[1];
    }
  }

  /** A report can come first. */
  lemma BringForward<T>(ts: seq<T>, t: T) returns (rest: seq<T>)
    requires t in ts
    ensures multiset([t] + rest) == multiset(ts) && multiset(rest) == multiset(ts) - multiset{t}
  {
    var j :| 0 <= j < |ts| && ts[j] == t;
    rest := ts[..j] + ts[j + 1..];
    RemoveAt(ts, j);
  }

  /** Two reports can come first. */
  lemma BringBothForward<T>(ts: seq<T>, t: T, u: T) returns (rest: seq<T>)
    requires Both(ts, t, u)
    ensures multiset([t, u] + rest) == multiset(ts)
  {
    assert t in multiset(ts);
    var others := BringForward(ts, t);
    assert u in multiset(others);
    rest := BringForward(others, u);
    assert [t, u] + rest == [t] + ([u] + rest);
  }

  lemma FlattenTwo<T>(leaves: T -> seq<MetricValue>, t: T, u: T, rest: seq<T>)
    ensures Flatten(leaves, [t, u] + rest) == leaves(t) + (leaves(u) + Flatten(leaves, rest))
  {
    assert ([t, u] + rest)[1..] == [u] + rest && ([u] + rest)[1..] == rest;
  }

  lemma FlattenOne<T>(leaves: T -> seq<MetricValue>, t: T, rest: seq<T>)
    ensures Flatten(leaves, [t] + rest) == leaves(t) + Flatten(leaves, rest)
  {
    assert ([t] + rest)[1..] == rest;
  }

  /** If the order matters, some order begins with two empty means. */
  lemma EmptyFirst<T(!new)>(leaves: T -> seq<MetricValue>, ts: seq<T>) returns (us: seq<T>)
    requires OrderMatters(leaves, ts)
    ensures multiset(us) == multiset(ts) && BeginsEmpty(Flatten(leaves, us))
  {
    if t :| t in ts && BeginsEmpty(leaves(t)) {
      var rest := BringForward(ts, t);
      FlattenOne(leaves, t, rest);
      us := [t] + rest;
    } else {
      var t, u :| Both(ts, t, u) && EmptyPair(leaves(t), leaves(u));
      us := PairFirst(leaves, ts, t, u);
    }
  }

  lemma PairFirst<T>(leaves: T -> seq<MetricValue>, ts: seq<T>, t: T, u: T) returns (us: seq<T>)
    requires Both(ts, t, u) && EmptyPair(leaves(t), leaves(u))
    ensures multiset(us) == multiset(ts) && BeginsEmpty(Flatten(leaves, us))
  {
    var rest := BringBothForward(ts, t, u);
    FlattenTwo(leaves, t, u, rest);
    us := [t, u] + rest;
    var ls := Flatten(leaves, us);
    assert ls[0] == leaves(t)[0] && ls[1] == leaves(u)[0];
  }

  /** If the order matters, some order does not begin with two empty means. */
  lemma SampleFirst<T(!new)>(leaves: T -> seq<MetricValue>, ts: seq<T>) returns (us: seq<T>)
    requires OrderMatters(leaves, ts)
    ensures multiset(us) == multiset(ts) && !BeginsEmpty(Flatten(leaves, us))
  {
    var t :| t in ts && SampledEarly(leaves(t));
    var rest := BringForward(ts, t);
    FlattenOne(leaves, t, rest);
    us := [t] + rest;
    var i :| 0 <= i < |leaves(t)| && i < 2 && RealMean(leaves(t)[i]) && leaves(t)[i].count > 0;
    assert Flatten(leaves, us)[i] == leaves(t)[i];
  }

  /** The same reports in another order make another entry. */
  ghost predicate Reordered<T>(concat: Concat, leaves: T -> seq<MetricValue>, ts: seq<T>, us: seq<T>) {
    && multiset(us) == multiset(ts)
    && Entry(concat, Flatten(leaves, us)) != Entry(concat, Flatten(leaves, ts))
  }

  /** The order of reports changes the entry exactly if the condition above holds. */
  lemma OrderMattersExactly<T(!new)>(concat: Concat, weight: MetricValue -> real,
                                     leaves: T -> seq<MetricValue>, ts: seq<T>)
    requires Exact(concat, weight) && Determines(weight)
    ensures OrderMatters(leaves, ts) <==> exists us :: Reordered(concat, leaves, ts, us)
  {
    if OrderMatters(leaves, ts) {
      var us := EmptyFirst(leaves, ts);
      var vs := SampleFirst(leaves, ts);
      FlattenPermutes(leaves, ts, us);
      FlattenPermutes(leaves, ts, vs);
      SameEntryExactly(concat, weight, Flatten(leaves, ts), Flatten(leaves, us));
      SameEntryExactly(concat, weight, Flatten(leaves, ts), Flatten(leaves, vs));
      assert Reordered(concat, leaves, ts, us) || Reordered(concat, leaves, ts, vs);
    } else {
      forall us | multiset(us) == multiset(ts) ensures !Reordered(concat, leaves, ts, us) {
        SameOtherwise(concat, weight, leaves, us, ts);
      }
    }
  }

  lemma SameOtherwise<T(!new)>(concat: Concat, weight: MetricValue -> real,
                               leaves: T -> seq<MetricValue>, us: seq<T>, ts: seq<T>)
    requires Exact(concat, weight) && Determines(weight) && multiset(us) == multiset(ts) && !OrderMatters(leaves, ts)
    ensures Entry(concat, Flatten(leaves, us)) == Entry(concat, Flatten(leaves, ts))
  {
    var a, b := Flatten(leaves, ts), Flatten(leaves, us);
    FlattenPermutes(leaves, ts, us);
    SameElements(a, b);
    SameEntryExactly(concat, weight, a, b);
    if AllMeans(a) && |a| >= 2 {
      FirstTwo(leaves, ts);
      FirstTwo(leaves, us);
      CanBeginPermutes(leaves, ts, us);
    }
  }

  /** What a tree contributes to a path. */
  function TreeLeaves(path: string): Tree -> seq<MetricValue> {
    (tree: Tree) => LeavesAt(Visits(tree, ""), path)
  }

  lemma {:induction false} LeavesConcat(a: seq<Visit>, b: seq<Visit>, path: string)
    ensures LeavesAt(a + b, path) == LeavesAt(a, path) + LeavesAt(b, path)
  {
    if a == [] {
      assert a + b == b;
    } else {
      assert (a + b)[1..] == a[1..] + b;
      LeavesConcat(a[1..], b, path);
    }
  }

  lemma {:induction false} AllLeaves(trees: seq<Tree>, path: string)
    ensures LeavesAt(AllVisits(trees), path) == Flatten(TreeLeaves(path), trees)
  {
    if trees != [] {
      LeavesConcat(Visits(trees[0], ""), AllVisits(trees[1..]), path);
      AllLeaves(trees[1..], path);
    }
  }

  /** A run of Append leaves at every path the entry made of the leaves of its trees. */
  lemma AppendedEntry(concat: Concat, trees: seq<Tree>, path: string)
    ensures At(AppendAll(concat, map[], trees), path) == Entry(concat, Flatten(TreeLeaves(path), trees))
  {
    AppendVisitsAll(concat, map[], trees);
    CollectedEntry(concat, AllVisits(trees), path);
    AllLeaves(trees, path);
  }

  /** The same trees, appended in another order, leave another entry at the path. */
  ghost predicate AppendsDiffer(trees: seq<Tree>, others: seq<Tree>, path: string) {
    && multiset(others) == multiset(trees)
    && At(AppendAll(ConcatMetrics, map[], others), path) != At(AppendAll(ConcatMetrics, map[], trees), path)
  }

  lemma AppendsDifferExactly(trees: seq<Tree>, others: seq<Tree>, path: string)
    ensures AppendsDiffer(trees, others, path) <==> Reordered(ConcatMetrics, TreeLeaves(path), trees, others)
  {
    AppendedEntry(ConcatMetrics, trees, path);
    AppendedEntry(ConcatMetrics, others, path);
  }

  /** For the collector: appending the same trees in another order can change the entry of a path exactly if
      the order of what they contribute to it matters. */
  lemma AppendOrderExactly(trees: seq<Tree>, path: string)
    ensures OrderMatters(TreeLeaves(path), trees) <==> exists others :: AppendsDiffer(trees, others, path)
  {
    ConcatIsExact();
    OrderMattersExactly(ConcatMetrics, Samples, TreeLeaves(path), trees);
    forall others
      ensures AppendsDiffer(trees, others, path) <==> Reordered(ConcatMetrics, TreeLeaves(path), trees, others)
    {
      AppendsDifferExactly(trees, others, path);
    }
  }

  /** Two leaves of a path are empty and one is sampled. */
  ghost predicate Mixed(ls: seq<MetricValue>) {
    && AllMeans(ls)
    && (exists i, j :: 0 <= i < j < |ls| && ls[i].count == 0 && ls[j].count == 0)
    && exists k :: 0 <= k < |ls| && ls[k].count > 0
  }

  function Alone(): MetricValue -> seq<MetricValue> { (leaf: MetricValue) => [leaf] }

  lemma {:induction false} FlattenAlone(ls: seq<MetricValue>)
    ensures Flatten(Alone(), ls) == ls
  {
    if ls != [] { FlattenAlone(ls[1..]); }
  }

  lemma PairIn<T>(ls: seq<T>, i: nat, j: nat)
    requires i < j < |ls|
    ensures Both(ls, ls[i], ls[j])
  {
    RemoveAt(ls, i);
    var rest := ls[..i] + ls[i + 1..];
    assert rest[j - 1] == ls[j] && ls[j] in multiset(rest);
  }

  lemma PairPlaces<T>(ls: seq<T>, t: T, u: T) returns (i: nat, j: nat)
    requires Both(ls, t, u)
    ensures i < j < |ls| && ((ls[i] == t && ls[j] == u) || (ls[i] == u && ls[j] == t))
  {
    assert t in multiset(ls);
    i :| 0 <= i < |ls| && ls[i] == t;
    RemoveAt(ls, i);
    var rest := ls[..i] + ls[i + 1..];
    assert u in multiset(rest);
    j :| 0 <= j < |rest| && rest[j] == u;
    j := if j < i then j else j + 1;
    if j < i { i, j := j, i; }
  }

  lemma MixedIsEnough(ls: seq<MetricValue>)
    requires Mixed(ls)
    ensures OrderMatters(Alone(), ls)
  {
    var i, j :| 0 <= i < j < |ls| && ls[i].count == 0 && ls[j].count == 0;
    var k :| 0 <= k < |ls| && ls[k].count > 0;
    FlattenAlone(ls);
    PairIn(ls, i, j);
    assert EmptyPair(Alone()(ls[i]), Alone()(ls[j]));
    assert Alone()(ls[k])[0] == ls[k] && SampledEarly(Alone()(ls[k]));
  }

  lemma MixedIsNeeded(ls: seq<MetricValue>)
    requires OrderMatters(Alone(), ls)
    ensures Mixed(ls)
  {
    FlattenAlone(ls);
    TwoEmpty(ls);
    var s :| s in ls && SampledEarly(Alone()(s));
    assert s.Mean? && s.count > 0;
  }

  lemma TwoEmpty(ls: seq<MetricValue>)
    requires AllMeans(ls) && CanBeginEmpty(Alone(), ls)
    ensures exists i, j :: 0 <= i < j < |ls| && ls[i].count == 0 && ls[j].count == 0
  {
    assert !exists t :: t in ls && BeginsEmpty(Alone()(t));
    var t, u :| Both(ls, t, u) && EmptyPair(Alone()(t), Alone()(u));
    var i, j := PairPlaces(ls, t, u);
  }

  /** The same leaves in another order make another entry. */
  ghost predicate LeavesDiffer(ls: seq<MetricValue>, ms: seq<MetricValue>) {
    multiset(ms) == multiset(ls) && Entry(ConcatMetrics, ms) != Entry(ConcatMetrics, ls)
  }

  /** All orders of the same leaves make the same entry, exactly unless two of them are empty and one is
      sampled. */
  lemma LeafOrderExactly(ls: seq<MetricValue>)
    ensures Mixed(ls) <==> exists ms :: LeavesDiffer(ls, ms)
  {
    ConcatIsExact();
    if Mixed(ls) { MixedIsEnough(ls); }
    if OrderMatters(Alone(), ls) { MixedIsNeeded(ls); }
    OrderMattersExactly(ConcatMetrics, Samples, Alone(), ls);
    forall ms ensures LeavesDiffer(ls, ms) <==> Reordered(ConcatMetrics, Alone(), ls, ms) {
      FlattenAlone(ls);
      FlattenAlone(ms);
    }
  }

  /** Two runs of Append whose trees hold the same leaves at a path, in whatever order and however split into
      trees, leave the same entry there, unless two of the leaves are empty and one is sampled. */
  lemma OrderDoesNotMatter(a: seq<Tree>, b: seq<Tree>, path: string)
    requires multiset(LeavesAt(AllVisits(a), path)) == multiset(LeavesAt(AllVisits(b), path))
    requires !Mixed(LeavesAt(AllVisits(a), path))
    ensures At(AppendAll(ConcatMetrics, map[], a), path) == At(AppendAll(ConcatMetrics, map[], b), path)
  {
    var la, lb := LeavesAt(AllVisits(a), path), LeavesAt(AllVisits(b), path);
    LeafOrderExactly(la);
    assert !LeavesDiffer(la, lb);
    AllLeaves(a, path);
    AllLeaves(b, path);
    AppendedEntry(ConcatMetrics, a, path);
    AppendedEntry(ConcatMetrics, b, path);
  }

  /** An input on which the order matters: two reports without samples and one with a sample.  The entry is
      undefined if the sample comes last, and defined if it comes first. */
  lemma EmptyMeansDependOnOrder()
    ensures
      var e, f := [Metric("m", Mean(Real(0.0), 0))], [Metric("m", Mean(Real(1.0), 1))];
      && At(AppendAll(ConcatMetrics, map[], [e, e, f]), "/m") == Some(Mean(NaN, 1))
      && At(AppendAll(ConcatMetrics, map[], [f, e, e]), "/m") == Some(Mean(Real(1.0), 1))
  {
    var none, one := Mean(Real(0.0), 0), Mean(Real(1.0), 1);
    ThreeReports(none, none, one);
    ThreeReports(one, none, none);
    WithoutSamples(none, one);
  }

  lemma WithoutSamples(none: MetricValue, one: MetricValue)
    requires none == Mean(Real(0.0), 0) && one == Mean(Real(1.0), 1)
    ensures ConcatMetrics(ConcatMetrics(none, none), one) == Mean(NaN, 1)
    ensures ConcatMetrics(ConcatMetrics(one, none), none) == one
  {
    assert 1.0 / 1.0 * 1.0 + 0.0 / 1.0 * 0.0 == 1.0;
    assert ConcatMetrics(one, none) == one;
  }

  lemma ThreeReports(a: MetricValue, b: MetricValue, c: MetricValue)
    requires a.Mean? && b.Mean? && c.Mean?
    ensures At(AppendAll(ConcatMetrics, map[], [[Metric("m", a)], [Metric("m", b)], [Metric("m", c)]]), "/m")
            == Some(ConcatMetrics(ConcatMetrics(a, b), c))
  {
    var ta, tb, tc := [Metric("m", a)], [Metric("m", b)], [Metric("m", c)];
    var leaves := TreeLeaves("/m");
    OneLeaf(a);
    OneLeaf(b);
    OneLeaf(c);
    AppendedEntry(ConcatMetrics, [ta, tb, tc], "/m");
    assert Flatten(leaves, [ta, tb, tc]) == [a, b, c] by {
      FlattenTwo(leaves, ta, tb, [tc]);
      FlattenOne(leaves, tc, []);
      assert [ta, tb] + [tc] == [ta, tb, tc] && [tc] + [] == [tc];
    }
    MergeThree(ConcatMetrics, a, b, c);
  }

  lemma MergeThree(concat: Concat, a: MetricValue, b: MetricValue, c: MetricValue)
    ensures Entry(concat, [a, b, c]) == Some(concat(concat(a, b), c))
  {
    assert [c][1..] == [];
    assert Merge(concat, concat(a, b), [c]) == concat(concat(a, b), c);
    assert [a, b, c][1..] == [b, c] && [b, c][1..] == [c];
  }

  lemma OneLeaf(leaf: MetricValue)
    requires !leaf.Group?
    ensures TreeLeaves("/m")([Metric("m", leaf)]) == [leaf]
  {
    var m := Metric("m", leaf);
    assert ChildPath("", "m") == "/m";
    assert [m][1..] == [] && VisitsOf(m, "") == [Visit("/m", leaf)] && Visits([], "") == [];
    assert Visits([m], "") == [Visit("/m", leaf)];
    assert [Visit("/m", leaf)][1..] == [] && LeavesAt([], "/m") == [];
    assert LeavesAt([Visit("/m", leaf)], "/m") == [leaf];
  }
}
