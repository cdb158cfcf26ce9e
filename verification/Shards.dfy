/**
 * Shard placement: primaries dealt around the ring of nodes, and replicas taken from the nodes that
 * follow the primary. `nodes` is the list of known nodes, of which there are `total_nodes`; a name
 * stands for the node whose lower-case name it is.
 */
module Shards {
  import opened Arith
  import opened Sequences

  function LowerChar(c: char): char {
    if 'A' <= c <= 'Z' then c - 'A' + 'a' else c
  }

  function Lower(s: string): string {
    seq(|s|, i requires 0 <= i < |s| => LowerChar(s[i]))
  }

  /** The same letter, in either case. */
  predicate SameLetter(a: char, b: char) {
    || a == b
    || ('A' <= a <= 'Z' && b as int == a as int + 32)
    || ('A' <= b <= 'Z' && a as int == b as int + 32)
  }

  /** Names are compared without regard to case. */
  lemma LowerMeans(a: string, b: string)
    ensures Lower(a) == Lower(b) <==> |a| == |b| && forall i :: 0 <= i < |a| ==> SameLetter(a[i], b[i])
    ensures forall i :: 0 <= i < |a| ==> !('A' <= Lower(a)[i] <= 'Z')
  {
    hide LowerChar;
    var l, m := Lower(a), Lower(b);
    forall i | 0 <= i < |a| && i < |b| ensures l[i] == m[i] <==> SameLetter(a[i], b[i]) { LowerCharMeans(a[i], b[i]); }
    forall i | 0 <= i < |a| ensures !('A' <= l[i] <= 'Z') { LowerCharMeans(a[i], a[i]); }
  }

  lemma LowerCharMeans(a: char, b: char)
    ensures LowerChar(a) == LowerChar(b) <==> SameLetter(a, b)
    ensures !('A' <= LowerChar(a) <= 'Z')
  {
  }

  function LowerAll(names: seq<string>): (r: seq<string>)
    ensures |r| == |names|
  {
    seq(|names|, i requires 0 <= i < |names| => Lower(names[i]))
  }

  /** No two nodes share a name. */
  predicate Nodes(nodes: seq<string>) {
    nodes != [] && Distinct(LowerAll(nodes))
  }

  datatype Shard = Shard(nodes: seq<string>, modified: bool)

  // ----- the ring order

  /** The position of the node called `primary`, or the number of nodes when there is none. */
  function Position(nodes: seq<string>, primary: string): (p: nat)
    ensures p <= |nodes|
    ensures p < |nodes| ==> Lower(nodes[p]) == primary
    ensures forall i :: 0 <= i < p ==> Lower(nodes[i]) != primary
  {
    if nodes == [] then 0
    else if Lower(nodes[0]) == primary then 0
    else
      var q := Position(nodes[1..], primary);
      assert forall i :: 1 <= i < q + 1 ==> nodes[i] == nodes[1..][i - 1];
      1 + q
  }

  /** The nodes after position `p`, once around; past the end, all nodes but the first. */
  function After(nodes: seq<string>, p: nat): (r: seq<string>)
    requires nodes != [] && p <= |nodes|
    ensures |r| == |nodes| - 1
  {
    if p == |nodes| then nodes[1..] else nodes[p + 1..] + nodes[..p]
  }

  /** The names of `order` that are not among `used`, in order. */
  function Unused(order: seq<string>, used: seq<string>): seq<string> {
    if order == [] then [] else
      var last := order[|order| - 1];
      Unused(order[..|order| - 1], used) + if Lower(last) in used then [] else [last]
  }

  /** What `settle_replicas` makes of one list: `want` names, the old ones first. */
  function Settled(nodes: seq<string>, names: seq<string>, want: nat): seq<string>
    requires nodes != [] && names != []
  {
    if |names| < want then
      var others := Unused(After(nodes, Position(nodes, Lower(names[0]))), LowerAll(names));
      names + if |others| <= want - |names| then others else others[..want - |names|]
    else names[..want]
  }

  // ----- there are always enough unused nodes

  /** The names of `order` that are among `used`. */
  ghost function Taken(order: seq<string>, used: seq<string>): (r: seq<string>)
    ensures |r| + |Unused(order, used)| == |order|
    ensures forall i :: 0 <= i < |r| ==> r[i] in order && Lower(r[i]) in used
  {
    if order == [] then [] else
      var last := order[|order| - 1];
      Taken(order[..|order| - 1], used) + if Lower(last) in used then [last] else []
  }

  lemma {:induction false} TakenDistinct(order: seq<string>, used: seq<string>)
    requires Distinct(LowerAll(order))
    ensures Distinct(LowerAll(Taken(order, used)))
  {
    hide Lower;
    if order != [] {
      var order', last := order[..|order| - 1], order[|order| - 1];
      assert LowerAll(order') == LowerAll(order)[..|order| - 1];
      TakenDistinct(order', used);
      var t, t' := LowerAll(Taken(order, used)), LowerAll(Taken(order', used));
      assert t == t' + if Lower(last) in used then [Lower(last)] else [];
      forall i | 0 <= i < |Taken(order', used)| ensures t'[i] != Lower(last) {
        var j :| 0 <= j < |order'| && order'[j] == Taken(order', used)[i];
        assert LowerAll(order)[j] == Lower(order[j]) && LowerAll(order)[|order| - 1] == Lower(last);
      }
    }
  }

  lemma AfterDistinct(nodes: seq<string>, p: nat)
    requires Nodes(nodes) && p <= |nodes|
    ensures Distinct(LowerAll(After(nodes, p)))
    ensures p < |nodes| ==> forall i :: 0 <= i < |nodes| - 1 ==> Lower(After(nodes, p)[i]) != Lower(nodes[p])
  {
    hide Lower;
    var n, r, all := |nodes|, After(nodes, p), LowerAll(nodes);
    forall i | 0 <= i < n - 1
      ensures r[i] == nodes[Index(n, p, i)] && LowerAll(r)[i] == all[Index(n, p, i)]
      ensures p < n ==> Index(n, p, i) != p && all[p] == Lower(nodes[p])
    {
    }
    forall i, j | 0 <= i < j < n - 1 ensures LowerAll(r)[i] != LowerAll(r)[j] {
      assert Index(n, p, i) != Index(n, p, j);
    }
  }

  /** Where the name at position `i` of `After` comes from. */
  function Index(n: nat, p: nat, i: nat): (r: nat)
    requires p <= n && i < n - 1
    ensures r < n && (p < n ==> r != p)
  {
    if p == n then i + 1 else if i < n - 1 - p then p + 1 + i else i - (n - 1 - p)
  }

  /** The primary is not met again, so at most |old| - 1 of the others are used. */
  lemma EnoughUnused(nodes: seq<string>, names: seq<string>)
    requires Nodes(nodes) && names != []
    ensures |Unused(After(nodes, Position(nodes, Lower(names[0]))), LowerAll(names))| >= |nodes| - |names|
  {
    hide Lower, Unused, Distinct;
    var primary, used := Lower(names[0]), LowerAll(names);
    var p := Position(nodes, primary);
    var order := After(nodes, p);
    var taken := Taken(order, used);
    AfterDistinct(nodes, p);
    TakenDistinct(order, used);
    forall x | x in LowerAll(taken) ensures x in used[1..] {
      var i :| 0 <= i < |taken| && Lower(taken[i]) == x;
      var j :| 0 <= j < |order| && order[j] == taken[i];
      assert order[j] == nodes[Index(|nodes|, p, j)];
      assert x != primary;
      var k :| 0 <= k < |used| && used[k] == x;
      assert used[k] == used[1..][k - 1];
    }
    DistinctInto(LowerAll(taken), used[1..]);
  }

  // ----- what a settled list is

  lemma {:induction false} UnusedPrefix(order: seq<string>, used: seq<string>, n: nat)
    requires n <= |order|
    ensures Unused(order[..n], used) <= Unused(order, used)
  {
    hide Lower;
    if n == |order| {
      assert order[..n] == order;
    } else {
      var order' := order[..|order| - 1];
      UnusedPrefix(order', used, n);
      assert order'[..n] == order[..n];
    }
  }

  lemma {:induction false} UnusedMeans(order: seq<string>, used: seq<string>)
    ensures forall i :: 0 <= i < |Unused(order, used)| ==>
              Unused(order, used)[i] in order && Lower(Unused(order, used)[i]) !in used
    ensures Distinct(LowerAll(order)) ==> Distinct(LowerAll(Unused(order, used)))
  {
    hide Lower;
    if order != [] {
      var order', last := order[..|order| - 1], order[|order| - 1];
      UnusedMeans(order', used);
      var u, u' := LowerAll(Unused(order, used)), LowerAll(Unused(order', used));
      assert u == u' + if Lower(last) in used then [] else [Lower(last)];
      assert LowerAll(order') == LowerAll(order)[..|order| - 1];
      if Distinct(LowerAll(order)) {
        forall i | 0 <= i < |u'| ensures u'[i] != Lower(last) {
          var j :| 0 <= j < |order'| && order'[j] == Unused(order', used)[i];
          assert LowerAll(order)[j] == Lower(order[j]) && LowerAll(order)[|order| - 1] == Lower(last);
        }
      }
    }
  }

  /** One list keeps its names and grows by other nodes, none twice, or is cut to size. */
  lemma SettledMeans(nodes: seq<string>, names: seq<string>, want: nat)
    requires Nodes(nodes) && names != [] && 1 <= want <= |nodes|
    ensures var r := Settled(nodes, names, want);
            && |r| == want
            && (if want <= |names| then r == names[..want] else names <= r)
            && (forall i :: |names| <= i < want ==> r[i] in nodes && Lower(r[i]) !in LowerAll(names))
            && (forall i, j :: |names| <= i < j < want ==> Lower(r[i]) != Lower(r[j]))
  {
    hide Lower;
    var r := Settled(nodes, names, want);
    if |names| < want {
      var p := Position(nodes, Lower(names[0]));
      var order := After(nodes, p);
      var u := Unused(order, LowerAll(names));
      EnoughUnused(nodes, names);
      AfterDistinct(nodes, p);
      UnusedMeans(order, LowerAll(names));
      forall i | |names| <= i < want ensures r[i] == u[i - |names|] && r[i] in nodes && Lower(r[i]) !in LowerAll(names) {
        var j :| 0 <= j < |order| && order[j] == u[i - |names|];
        assert order[j] == nodes[Index(|nodes|, p, j)];
      }
      forall i, j | |names| <= i < j < want ensures Lower(r[i]) != Lower(r[j]) {
        assert LowerAll(u)[i - |names|] != LowerAll(u)[j - |names|];
      }
    }
  }

  // ----- which nodes are chosen

  /** The unused name at position `j` of the order comes after the unused names before it. */
  lemma UnusedAt(order: seq<string>, used: seq<string>, j: nat)
    requires j < |order| && Lower(order[j]) !in used
    ensures |Unused(order[..j], used)| < |Unused(order, used)|
    ensures Unused(order, used)[|Unused(order[..j], used)|] == order[j]
  {
    hide Lower;
    assert order[..j + 1][..j] == order[..j];
    UnusedPrefix(order, used, j + 1);
  }

  /** Among the first `k` unused names is `order[j]` exactly if it is unused and fewer than `k` come before it. */
  lemma Chosen(order: seq<string>, used: seq<string>, j: nat, k: nat)
    requires Distinct(LowerAll(order)) && j < |order| && k <= |Unused(order, used)|
    ensures (exists i :: 0 <= i < k && Lower(Unused(order, used)[i]) == Lower(order[j])) <==>
            Lower(order[j]) !in used && |Unused(order[..j], used)| < k
  {
    hide Lower, Unused;
    var u, n := Unused(order, used), |Unused(order[..j], used)|;
    UnusedMeans(order, used);
    if Lower(order[j]) !in used {
      UnusedAt(order, used, j);
      forall i | 0 <= i < |u| && Lower(u[i]) == Lower(order[j]) ensures i == n {
        assert LowerAll(u)[i] == LowerAll(u)[n];
      }
    }
  }

  /**
   * The first node of the list becomes a replica exactly if the primary is a known node, the first node
   * is not used yet, and the nodes after the primary leave room; so never if the primary is unknown.
   */
  lemma FirstNodeChosen(nodes: seq<string>, names: seq<string>, want: nat)
    requires Nodes(nodes) && names != [] && |names| < want <= |nodes|
    ensures |Settled(nodes, names, want)| == want
    ensures var r, p, used := Settled(nodes, names, want), Position(nodes, Lower(names[0])), LowerAll(names);
            (exists i :: |names| <= i < want && Lower(r[i]) == Lower(nodes[0])) <==>
            p < |nodes| && Lower(nodes[0]) !in used && |Unused(nodes[p + 1..], used)| < want - |names|
  {
    hide Lower, Unused, Settled, LowerAll;
    var r, p, used := Settled(nodes, names, want), Position(nodes, Lower(names[0])), LowerAll(names);
    var order, k := After(nodes, p), want - |names|;
    EnoughUnused(nodes, names);
    AfterDistinct(nodes, p);
    SettledMeans(nodes, names, want);
    NewNames(nodes, names, want);
    if p == |nodes| {
      assert forall i :: 0 <= i < |order| ==> order[i] == nodes[i + 1];
      FirstNotIn(nodes, order, used, k);
    } else if p == 0 {
      UsedPrimary(names);
    } else {
      var j := |nodes| - 1 - p;
      assert order[j] == nodes[0] && order[..j] == nodes[p + 1..];
      Chosen(order, used, j, k);
    }
  }

  lemma NewNames(nodes: seq<string>, names: seq<string>, want: nat)
    requires Nodes(nodes) && names != [] && |names| < want <= |nodes|
    ensures |Settled(nodes, names, want)| == want
    ensures var r, u := Settled(nodes, names, want), Unused(After(nodes, Position(nodes, Lower(names[0]))), LowerAll(names));
            && want - |names| <= |u|
            && (forall i :: |names| <= i < want ==> r[i] == u[i - |names|])
            && (forall i :: 0 <= i < want - |names| ==> r[i + |names|] == u[i])
  {
    hide Lower, Unused, LowerAll, After, Position;
    EnoughUnused(nodes, names);
  }

  lemma UsedPrimary(names: seq<string>)
    requires names != []
    ensures Lower(names[0]) in LowerAll(names)
  {
    assert LowerAll(names)[0] == Lower(names[0]);
  }

  lemma FirstNotIn(nodes: seq<string>, order: seq<string>, used: seq<string>, k: nat)
    requires Nodes(nodes) && order == nodes[1..] && k <= |Unused(order, used)|
    ensures forall i :: 0 <= i < k ==> Lower(Unused(order, used)[i]) != Lower(nodes[0])
  {
    hide Lower, Unused;
    var u := Unused(order, used);
    UnusedMeans(order, used);
    forall i | 0 <= i < k ensures Lower(u[i]) != Lower(nodes[0]) {
      var j :| 0 <= j < |order| && order[j] == u[i];
      assert LowerAll(nodes)[0] != LowerAll(nodes)[j + 1];
    }
  }

  // ----- settle_replicas

  method FindPosition(nodes: seq<string>, primary: string) returns (idx: nat)
    ensures idx == Position(nodes, primary)
  {
    hide Lower;
    idx := 0;
    while idx < |nodes| && Lower(nodes[idx]) != primary
      invariant idx <= |nodes|
      invariant forall i :: 0 <= i < idx ==> Lower(nodes[i]) != primary
    {
      idx := idx + 1;
    }
  }

  lemma RingAt(nodes: seq<string>, p: nat, v: nat)
    requires nodes != [] && p <= |nodes| && v < |nodes| - 1
    ensures nodes[(p + v + 1) % |nodes|] == After(nodes, p)[v]
  {
    var n := |nodes|;
    if p == n {
      DivUnique(p + v + 1, n, 1, v + 1);
    } else if p + v + 1 < n {
      DivUnique(p + v + 1, n, 0, p + v + 1);
    } else {
      DivUnique(p + v + 1, n, 1, p + v + 1 - n);
    }
  }

  /** What has been gathered when `v` of the nodes after the primary have been looked at. */
  ghost predicate Gathered(order: seq<string>, names: seq<string>, v: nat, r: seq<string>, used: set<string>) {
    && v <= |order|
    && r == names + Unused(order[..v], LowerAll(names))
    && (forall x :: x in used <==> x in LowerAll(r))
  }

  lemma GatherOne(order: seq<string>, names: seq<string>, v: nat, r: seq<string>, used: set<string>)
    requires Distinct(LowerAll(order)) && Gathered(order, names, v, r, used) && v < |order|
    ensures var x := order[v];
            if Lower(x) in used then Gathered(order, names, v + 1, r, used)
            else Gathered(order, names, v + 1, r + [x], used + {Lower(x)})
  {
    hide Lower;
    var x, u := order[v], LowerAll(names);
    var got := Unused(order[..v], u);
    assert order[..v + 1][..v] == order[..v];
    assert LowerAll(r) == u + LowerAll(got);
    assert LowerAll(r + [x]) == LowerAll(r) + [Lower(x)];
    UnusedMeans(order[..v], u);
    assert Lower(x) !in LowerAll(got) by {
      forall i | 0 <= i < |got| ensures Lower(got[i]) != Lower(x) {
        var j :| 0 <= j < v && order[..v][j] == got[i];
        assert LowerAll(order)[j] != LowerAll(order)[v];
      }
    }
  }

  lemma GatheredAll(nodes: seq<string>, names: seq<string>, v: nat, r: seq<string>, used: set<string>)
    requires Nodes(nodes) && names != []
    requires Gathered(After(nodes, Position(nodes, Lower(names[0]))), names, v, r, used)
    ensures v == |nodes| - 1 ==> |r| >= |nodes|
    ensures |names| < |r| ==> r == Settled(nodes, names, |r|)
  {
    hide Lower, LowerAll, Unused, After, Position, Distinct, Settled;
    var order, u := After(nodes, Position(nodes, Lower(names[0]))), LowerAll(names);
    var all, got := Unused(order, u), Unused(order[..v], u);
    EnoughUnused(nodes, names);
    UnusedPrefix(order, u, v);
    assert v == |order| ==> order[..v] == order;
    if got != [] {
      SettledGathered(nodes, names, all, got);
    }
  }

  lemma SettledGathered(nodes: seq<string>, names: seq<string>, all: seq<string>, got: seq<string>)
    requires nodes != [] && names != [] && got != [] && got <= all
    requires all == Unused(After(nodes, Position(nodes, Lower(names[0]))), LowerAll(names))
    ensures Settled(nodes, names, |names + got|) == names + got
  {
    hide Lower, LowerAll, Unused, After, Position;
    assert got == all[..|got|];
    assert |all| == |got| ==> got == all;
  }

  /** One more replica: the first node around the ring that is not used. */
  method NextReplica(nodes: seq<string>, names: seq<string>, r0: seq<string>, used0: set<string>, idx0: nat)
    returns (r: seq<string>, used: set<string>, idx: nat)
    requires Nodes(nodes) && names != [] && |r0| < |nodes|
    requires var p := Position(nodes, Lower(names[0]));
             p <= idx0 && Gathered(After(nodes, p), names, idx0 - p, r0, used0)
    ensures |r| == |r0| + 1
    ensures var p := Position(nodes, Lower(names[0]));
            p <= idx && Gathered(After(nodes, p), names, idx - p, r, used)
    ensures idx < 2 * |nodes|
  {
    hide Lower, Distinct, After, Gathered, LowerAll;
    ghost var p := Position(nodes, Lower(names[0]));
    ghost var order := After(nodes, p);
    AfterDistinct(nodes, p);
    idx, used, r := idx0, used0, r0;
    GatheredBound(order, names, idx - p, r, used);
    GatheredAll(nodes, names, idx - p, r, used);
    GatherOne(order, names, idx - p, r, used);
    RingAt(nodes, p, idx - p);
    idx := idx + 1;
    var node := nodes[idx % |nodes|];
    while Lower(node) in used
      invariant p < idx < p + |nodes|
      invariant node == order[idx - p - 1]
      invariant if Lower(node) in used then Gathered(order, names, idx - p, r, used)
                else Gathered(order, names, idx - p, r + [node], used + {Lower(node)})
      decreases p + |nodes| - idx
    {
      GatheredAll(nodes, names, idx - p, r, used);
      GatherOne(order, names, idx - p, r, used);
      RingAt(nodes, p, idx - p);
      idx := idx + 1;
      node := nodes[idx % |nodes|];
    }
    r := r + [node];
    used := used + {Lower(node)};
  }

  lemma GatheredBound(order: seq<string>, names: seq<string>, v: nat, r: seq<string>, used: set<string>)
    requires Gathered(order, names, v, r, used)
    ensures v <= |order|
  {
  }

  method Grow(nodes: seq<string>, names: seq<string>, want: nat) returns (r: seq<string>)
    requires Nodes(nodes) && names != [] && |names| < want <= |nodes|
    ensures r == Settled(nodes, names, want)
  {
    hide Lower, Distinct, After, Settled, Gathered;
    var used := set i | 0 <= i < |names| :: Lower(names[i]);
    var idx := FindPosition(nodes, Lower(names[0]));
    ghost var p := idx;
    r := names;
    GatherNone(After(nodes, p), names, used);
    while |r| < want
      invariant |names| <= |r| <= want
      invariant p <= idx && Gathered(After(nodes, p), names, idx - p, r, used)
      decreases want - |r|
    {
      r, used, idx := NextReplica(nodes, names, r, used, idx);
    }
    GatheredAll(nodes, names, idx - p, r, used);
  }

  lemma GatherNone(order: seq<string>, names: seq<string>, used: set<string>)
    requires used == set i | 0 <= i < |names| :: Lower(names[i])
    ensures Gathered(order, names, 0, names, used)
  {
    hide Lower;
    var low := LowerAll(names);
    forall x | x in used ensures x in low {
      var i :| 0 <= i < |names| && Lower(names[i]) == x;
      assert low[i] == x;
    }
    forall x | x in low ensures x in used {
      var i :| 0 <= i < |low| && low[i] == x;
      assert Lower(names[i]) == x;
    }
  }

  class IndexSettings {
    var shards: seq<Shard>
    var saved: bool

    /**
     * Every list of nodes gets `requested` names, or as many as there are nodes; only a list whose
     * length was different is touched, and only then must the settings be saved again.
     */
    method SettleReplicas(nodes: seq<string>, requested: nat)
      requires Nodes(nodes) && requested >= 1
      requires forall i :: 0 <= i < |shards| ==> shards[i].nodes != []
      modifies this
      ensures |shards| == |old(shards)|
      ensures var want := Want(nodes, requested);
              && (forall i :: 0 <= i < |shards| ==> shards[i] == SettledShard(nodes, old(shards)[i], want))
              && saved == (old(saved) && forall i :: 0 <= i < |shards| ==> |old(shards)[i].nodes| == want)
      ensures forall i :: 0 <= i < |shards| ==>
                && |shards[i].nodes| <= requested && |shards[i].nodes| <= |nodes|
                && (|shards[i].nodes| == requested || |shards[i].nodes| == |nodes|)
                && (shards[i].modified <==> old(shards)[i].modified || shards[i].nodes != old(shards)[i].nodes)
      ensures saved <==> old(saved) && forall i :: 0 <= i < |shards| ==> shards[i].nodes == old(shards)[i].nodes
    {
      hide Settled, Distinct;
      var want := requested;
      if want > |nodes| {
        want := |nodes|;
      }
      var i := 0;
      while i < |shards|
        invariant 0 <= i <= |shards| == |old(shards)|
        invariant forall j :: i <= j < |shards| ==> shards[j] == old(shards)[j]
        invariant forall j :: 0 <= j < i ==> shards[j] == SettledShard(nodes, old(shards)[j], want)
        invariant saved == (old(saved) && forall j :: 0 <= j < i ==> |old(shards)[j].nodes| == want)
      {
        var names := shards[i].nodes;
        if |names| < want {
          names := Grow(nodes, names, want);
          shards := shards[i := Shard(names, true)];
          saved := false;
        } else if |names| > want {
          SettledShort(nodes, names, want);
          shards := shards[i := Shard(names[..want], true)];
          saved := false;
        } else {
          SettledShort(nodes, names, want);
        }
        i := i + 1;
      }
      forall j | 0 <= j < |shards|
        ensures |shards[j].nodes| == want && (shards[j].nodes == old(shards)[j].nodes <==> |old(shards)[j].nodes| == want)
      {
        SettledSize(nodes, old(shards)[j].nodes, want);
      }
    }
  }

  /** A list has the wanted length afterwards, and changes exactly if it had another. */
  lemma SettledSize(nodes: seq<string>, names: seq<string>, want: nat)
    requires Nodes(nodes) && names != [] && 1 <= want <= |nodes|
    ensures |Settled(nodes, names, want)| == want
    ensures Settled(nodes, names, want) == names <==> |names| == want
  {
    hide Settled, Distinct;
    SettledMeans(nodes, names, want);
    if want <= |names| { SettledShort(nodes, names, want); }
  }

  function Want(nodes: seq<string>, requested: nat): nat {
    if requested > |nodes| then |nodes| else requested
  }

  function SettledShard(nodes: seq<string>, shard: Shard, want: nat): Shard
    requires nodes != [] && shard.nodes != []
  {
    Shard(Settled(nodes, shard.nodes, want), shard.modified || |shard.nodes| != want)
  }

  lemma SettledShort(nodes: seq<string>, names: seq<string>, want: nat)
    requires nodes != [] && names != [] && want <= |names|
    ensures Settled(nodes, names, want) == names[..want]
    ensures want == |names| ==> names[..want] == names
  {
  }

  // ----- calculate_shards

  /** How many of the shards are placed on `name`. */
  function Count(shards: seq<Shard>, name: string): nat {
    if shards == [] then 0 else
      Count(shards[..|shards| - 1], name) + if shards[|shards| - 1].nodes == [name] then 1 else 0
  }

  lemma FloorStep(a: int, n: nat)
    requires n > 0
    ensures a / n == (a - 1) / n + if a % n == 0 then 1 else 0
  {
    var q, r := (a - 1) / n, (a - 1) % n;
    assert a - 1 == n * q + r;
    if r == n - 1 {
      assert a == n * (q + 1) by { MulDist(n, q, 1); }
      FloorUnique(a, n, q + 1, 0);
    } else {
      FloorUnique(a, n, q, r + 1);
    }
  }

  /** A range of `s` numbers holds the multiples of n either s / n or s / n + 1 times. */
  lemma FloorRange(a: int, s: nat, n: nat)
    requires n > 0
    ensures s / n <= a / n - (a - s) / n <= s / n + 1
  {
    var q, r, q', r' := s / n, s % n, (a - s) / n, (a - s) % n;
    MulDist(n, q, q');
    if r + r' < n {
      FloorUnique(a, n, q + q', r + r');
    } else {
      MulDist(n, q + q', 1);
      FloorUnique(a, n, q + q' + 1, r + r' - n);
    }
  }

  lemma SameResidue(t: nat, i: nat, n: nat)
    requires i < n
    ensures t % n == i <==> (t - i) % n == 0
  {
    var q, r := t / n, t % n;
    assert t == n * q + r;
    if r == i {
      FloorUnique(t - i, n, q, 0);
    } else if (t - i) % n == 0 {
      FloorUnique(t, n, (t - i) / n, i);
    }
  }

  ghost predicate Dealt(nodes: seq<string>, key: nat, shards: seq<Shard>)
    requires nodes != []
  {
    && |shards| <= key + 1
    && forall s :: 0 <= s < |shards| ==> shards[s] == Shard([nodes[(key - s) % |nodes|]], true)
  }

  lemma {:induction false} CountDealt(nodes: seq<string>, key: nat, shards: seq<Shard>, i: nat)
    requires Nodes(nodes) && Dealt(nodes, key, shards) && i < |nodes|
    ensures Count(shards, nodes[i]) == (key - i) / |nodes| - (key - |shards| - i) / |nodes|
  {
    if shards != [] {
      var s, n := |shards| - 1, |nodes|;
      CountDealt(nodes, key, shards[..s], i);
      FloorStep(key - s - i, n);
      SameResidue(key - s, i, n);
      NamesDiffer(nodes, (key - s) % n, i);
    }
  }

  lemma NamesDiffer(nodes: seq<string>, i: nat, j: nat)
    requires Nodes(nodes) && i < |nodes| && j < |nodes|
    ensures nodes[i] == nodes[j] <==> i == j
  {
    assert LowerAll(nodes)[i] == Lower(nodes[i]) && LowerAll(nodes)[j] == Lower(nodes[j]);
  }

  /** The primaries are spread evenly: the loads of two nodes differ by one at most. */
  lemma Balanced(nodes: seq<string>, key: nat, shards: seq<Shard>, i: nat, j: nat)
    requires Nodes(nodes) && Dealt(nodes, key, shards) && i < |nodes| && j < |nodes|
    ensures Count(shards, nodes[i]) <= Count(shards, nodes[j]) + 1
    ensures |shards| / |nodes| <= Count(shards, nodes[i]) <= |shards| / |nodes| + 1
  {
    hide Count, Nodes, Dealt;
    CountDealt(nodes, key, shards, i);
    CountDealt(nodes, key, shards, j);
    FloorRange(key - i, |shards|, |nodes|);
    FloorRange(key - j, |shards|, |nodes|);
  }

  method CalculateShards(routingKey: nat, nodes: seq<string>, numShards: nat) returns (shards: seq<Shard>)
    requires nodes == [] || Nodes(nodes)
    ensures if nodes == [] then shards == [] else |shards| == numShards
    ensures nodes != [] ==> Dealt(nodes, if routingKey < numShards then routingKey + numShards else routingKey, shards)
    ensures forall s :: 0 <= s < |shards| ==> |shards[s].nodes| == 1 && shards[s].nodes[0] in nodes && shards[s].modified
    ensures forall i, j :: 0 <= i < |nodes| && 0 <= j < |nodes| ==> Count(shards, nodes[i]) <= Count(shards, nodes[j]) + 1
  {
    hide Nodes, Count;
    shards := [];
    if nodes != [] {
      var key := routingKey;
      if key < numShards {
        key := key + numShards;
      }
      var s := 0;
      while s < numShards
        invariant s == |shards| <= numShards
        invariant Dealt(nodes, key, shards)
      {
        var idx := (key - s) % |nodes|;
        shards := shards + [Shard([nodes[idx]], true)];
        s := s + 1;
      }
      forall i, j | 0 <= i < |nodes| && 0 <= j < |nodes|
        ensures Count(shards, nodes[i]) <= Count(shards, nodes[j]) + 1
      {
        Balanced(nodes, key, shards, i, j);
      }
    }
  }
}
