/** What the marked files and the cleanup layers mean in terms of the inclusion
    graph: closure under includers, longest chains, cycles. */
module CleanupOrder {
  import opened CppParser
  import opened Wrappers

  // ----- the inclusion pass -----

  lemma {:induction false} MarkedExtends(rows: seq<Inclusion>, status: map<File, IncrementalStatus>, x: File, g: File)
    requires Marked(rows, status, x) && Inclusion(g, x) in rows && g !in status
    ensures Marked(rows, status, g)
  {
    var s :| s in Seeds(status) && ReachedOutside(rows, status.Keys, s, x);
    var p :| Climbs(rows, p) && |p| > 1 && p[0] == s && p[|p| - 1] == x
      && forall i :: 0 < i < |p| ==> p[i] !in status.Keys;
    var q := p + [g];
    assert Climbs(rows, q) && q[|q| - 1] == g;
    assert ReachedOutside(rows, status.Keys, s, g);
  }

  /** The pass leaves a set of keys closed under includers, so that no vertex is
      missing when the edges are built, exactly when every includer of a file
      that was neither MODIFIED nor DELETED is a key or is reached anyway. */
  lemma PassCloses(rows: seq<Inclusion>, status: map<File, IncrementalStatus>, keys: set<File>)
    requires forall f :: f in keys <==> f in status || Marked(rows, status, f)
    ensures IncluderClosed(rows, keys) <==>
      forall f, g :: f in status && !IsSeed(status[f]) && Inclusion(g, f) in rows ==> g in status || Marked(rows, status, g)
  {
    if forall f, g :: f in status && !IsSeed(status[f]) && Inclusion(g, f) in rows ==> g in status || Marked(rows, status, g) {
      forall f, g | f in keys && Inclusion(g, f) in rows ensures g in keys {
        if g !in status {
          if f !in status {
            MarkedExtends(rows, status, f, g);
          } else if IsSeed(status[f]) {
            ReachedStep(rows, status.Keys, f, g);
            assert f in Seeds(status);
          }
        }
      }
    }
  }

  // f itself or a file that includes it, perhaps transitively.
  ghost predicate IncludesTransitively(rows: seq<Inclusion>, x: File, f: File) {
    exists p :: Climbs(rows, p) && p[0] == f && p[|p| - 1] == x
  }

  // A climb from a key to a file that is no key leaves the keys a last time.
  lemma {:induction false} LastKey(rows: seq<Inclusion>, status: map<File, IncrementalStatus>, p: seq<File>)
    requires Climbs(rows, p) && p[0] in status && p[|p| - 1] !in status
    requires forall f :: f in status ==> IsSeed(status[f])
    ensures Marked(rows, status, p[|p| - 1])
    decreases |p|
  {
    if i :| 0 < i < |p| && p[i] in status {
      var q := p[i..];
      assert Climbs(rows, q) by {
        forall j | 0 <= j < |q| - 1 ensures Inclusion(q[j + 1], q[j]) in rows {
          assert Inclusion(p[i + j + 1], p[i + j]) in rows;
        }
      }
      LastKey(rows, status, q);
    } else {
      assert ReachedOutside(rows, status.Keys, p[0], p[|p| - 1]);
      assert p[0] in Seeds(status);
    }
  }

  lemma {:induction false} ClimbStaysIn(rows: seq<Inclusion>, keys: set<File>, p: seq<File>, i: nat)
    requires IncluderClosed(rows, keys) && Climbs(rows, p) && p[0] in keys && i < |p|
    ensures p[i] in keys
  {
    if i > 0 {
      ClimbStaysIn(rows, keys, p, i - 1);
      assert Inclusion(p[i - 1 + 1], p[i - 1]) in rows;
      assert IncludersIn(rows, p[i - 1], keys);
    }
  }

  lemma MarkedIsTransitive(rows: seq<Inclusion>, status: map<File, IncrementalStatus>, keys: set<File>, x: File)
    requires forall f :: f in keys <==> f in status || Marked(rows, status, f)
    requires forall f :: f in status ==> IsSeed(status[f])
    ensures x in keys <==> exists f :: f in status && IncludesTransitively(rows, x, f)
  {
    if x in status {
      assert Climbs(rows, [x]) && [x][0] == x;
      assert IncludesTransitively(rows, x, x);
    } else if Marked(rows, status, x) {
      var s :| s in Seeds(status) && ReachedOutside(rows, status.Keys, s, x);
      assert IncludesTransitively(rows, x, s);
    } else if f :| f in status && IncludesTransitively(rows, x, f) {
      var p :| Climbs(rows, p) && p[0] == f && p[|p| - 1] == x;
      LastKey(rows, status, p);
    }
  }

  /** When all changed files are MODIFIED or DELETED, the pass marks exactly the
      changed files and all their transitive includers, also for cyclic inclusions. */
  lemma PassMarksTransitiveIncluders(rows: seq<Inclusion>, status: map<File, IncrementalStatus>, keys: set<File>)
    requires forall f :: f in keys <==> f in status || Marked(rows, status, f)
    requires forall f :: f in status ==> status[f] == MODIFIED || status[f] == DELETED
    ensures IncluderClosed(rows, keys)
    ensures forall x :: x in keys <==> exists f :: f in status && IncludesTransitively(rows, x, f)
  {
    assert forall f :: f in status ==> IsSeed(status[f]);
    PassCloses(rows, status, keys);
    forall x ensures x in keys <==> exists f :: f in status && IncludesTransitively(rows, x, f) {
      MarkedIsTransitive(rows, status, keys, x);
    }
  }

  // ----- chains of inclusions among the marked files -----

  // A chain of k inclusions among `names` ends at f.
  ghost predicate EndsChain(rows: seq<Inclusion>, names: set<File>, f: File, k: nat)
    decreases k
  {
    f in names && (k == 0 || exists g :: Inclusion(g, f) in rows && EndsChain(rows, names, g, k - 1))
  }

  // n inclusion steps lead from g to f.
  ghost predicate Steps(rows: seq<Inclusion>, names: set<File>, g: File, f: File, n: nat)
    decreases n
  {
    f in names && (if n == 0 then g == f else exists h :: Inclusion(h, f) in rows && Steps(rows, names, g, h, n - 1))
  }

  // At least one inclusion step leads from g to f.
  ghost predicate LeadsTo(rows: seq<Inclusion>, names: set<File>, g: File, f: File) {
    exists n: nat :: n > 0 && Steps(rows, names, g, f, n)
  }

  ghost predicate OnCycle(rows: seq<Inclusion>, names: set<File>, g: File) {
    LeadsTo(rows, names, g, g)
  }

  // f is on an inclusion cycle or transitively included from one.
  ghost predicate BelowCycle(rows: seq<Inclusion>, names: set<File>, f: File) {
    exists g, n: nat :: OnCycle(rows, names, g) && Steps(rows, names, g, f, n)
  }

  lemma {:induction false} ShorterChain(rows: seq<Inclusion>, names: set<File>, f: File, k: nat)
    requires EndsChain(rows, names, f, k + 1)
    ensures EndsChain(rows, names, f, k)
    decreases k
  {
    if k > 0 {
      var g :| Inclusion(g, f) in rows && EndsChain(rows, names, g, k);
      ShorterChain(rows, names, g, k - 1);
    }
  }

  // Before the peeling is stuck, k layers leave the files that end a chain of k inclusions.
  lemma {:induction false} RestIsChainEnds(rows: seq<Inclusion>, names: set<File>, k: nat, f: File)
    requires forall j :: 0 <= j < k ==> !IsLeftover(rows, names, j)
    ensures f in Rest(rows, names, k) <==> EndsChain(rows, names, f, k)
  {
    if k > 0 {
      var rest := Rest(rows, names, k - 1);
      assert !IsLeftover(rows, names, k - 1);
      RestIsChainEnds(rows, names, k - 1, f);
      forall g ensures g in rest <==> EndsChain(rows, names, g, k - 1) {
        RestIsChainEnds(rows, names, k - 1, g);
      }
      if EndsChain(rows, names, f, k) {
        ShorterChain(rows, names, f, k - 1);
      }
      assert f in Rest(rows, names, k) <==> f in rest && HasIncluderIn(rows, f, rest);
    }
  }

  lemma {:induction false} LeftoverHasChains(rows: seq<Inclusion>, names: set<File>, k: nat, f: File, m: nat)
    requires IsLeftover(rows, names, k) && f in Rest(rows, names, k)
    ensures EndsChain(rows, names, f, m)
    decreases m
  {
    RestWithin(rows, names, k);
    if m > 0 {
      var rest := Rest(rows, names, k);
      assert f !in Sources(rows, rest);
      var g :| g in rest && Inclusion(g, f) in rows;
      LeftoverHasChains(rows, names, k, g, m - 1);
    }
  }

  lemma {:induction false} RestWithin(rows: seq<Inclusion>, names: set<File>, k: nat)
    ensures Rest(rows, names, k) <= names
  {
    if k > 0 {
      RestWithin(rows, names, k - 1);
    }
  }

  // ----- cycles -----

  lemma {:induction false} StepsCompose(rows: seq<Inclusion>, names: set<File>, e: File, g: File, f: File, m: nat, n: nat)
    requires Steps(rows, names, e, g, m) && Steps(rows, names, g, f, n)
    ensures Steps(rows, names, e, f, m + n)
    decreases n
  {
    if n > 0 {
      var h :| Inclusion(h, f) in rows && Steps(rows, names, g, h, n - 1);
      StepsCompose(rows, names, e, g, h, m, n - 1);
      assert Steps(rows, names, e, h, m + n - 1);
    }
  }

  lemma {:induction false} StepsEndChain(rows: seq<Inclusion>, names: set<File>, g: File, f: File, n: nat)
    requires Steps(rows, names, g, f, n)
    ensures EndsChain(rows, names, f, n)
    decreases n
  {
    if n > 0 {
      var h :| Inclusion(h, f) in rows && Steps(rows, names, g, h, n - 1);
      StepsEndChain(rows, names, g, h, n - 1);
    }
  }

  lemma {:induction false} ChainDownTo(rows: seq<Inclusion>, names: set<File>, f: File, k: nat, m: nat)
    requires EndsChain(rows, names, f, m) && k <= m
    ensures EndsChain(rows, names, f, k)
    decreases m - k
  {
    if k < m {
      ShorterChain(rows, names, f, m - 1);
      ChainDownTo(rows, names, f, k, m - 1);
    }
  }

  lemma {:induction false} PumpedCycle(rows: seq<Inclusion>, names: set<File>, g: File, n: nat, m: nat) returns (len: nat)
    requires n > 0 && Steps(rows, names, g, g, n)
    ensures len >= m && Steps(rows, names, g, g, len)
  {
    if m == 0 {
      len := n;
    } else {
      var shorter := PumpedCycle(rows, names, g, n, m - 1);
      StepsCompose(rows, names, g, g, g, n, shorter);
      len := n + shorter;
    }
  }

  lemma BelowCycleEndsChains(rows: seq<Inclusion>, names: set<File>, f: File, k: nat)
    requires BelowCycle(rows, names, f)
    ensures EndsChain(rows, names, f, k)
  {
    var g, n: nat :| OnCycle(rows, names, g) && Steps(rows, names, g, f, n);
    var c: nat :| c > 0 && Steps(rows, names, g, g, c);
    var len := PumpedCycle(rows, names, g, c, k);
    StepsCompose(rows, names, g, g, f, len, n);
    StepsEndChain(rows, names, g, f, len + n);
    ChainDownTo(rows, names, f, k, len + n);
  }

  // A chain that avoids `seen` and runs into files that all lie below f, or closes a cycle.
  lemma {:induction false} LongChainBelowCycle(rows: seq<Inclusion>, names: set<File>, f: File, k: nat, x: File, n: nat,
                                               seen: set<File>)
    requires EndsChain(rows, names, x, k) && Steps(rows, names, x, f, n)
    requires seen <= names && k >= |names| - |seen|
    requires forall s :: s in seen ==> LeadsTo(rows, names, x, s)
    ensures BelowCycle(rows, names, f)
    decreases k
  {
    if x in seen {
      assert OnCycle(rows, names, x);
    } else {
      assert seen + {x} <= names;
      SubsetSize(seen + {x}, names);
      var g :| Inclusion(g, x) in rows && EndsChain(rows, names, g, k - 1);
      assert Steps(rows, names, g, g, 0);
      assert Steps(rows, names, g, x, 1);
      StepsCompose(rows, names, g, x, f, 1, n);
      forall s | s in seen + {x} ensures LeadsTo(rows, names, g, s) {
        if s != x {
          var m: nat :| m > 0 && Steps(rows, names, x, s, m);
          StepsCompose(rows, names, g, x, s, 1, m);
          var m': nat := 1 + m;
          assert Steps(rows, names, g, s, m');
        }
      }
      LongChainBelowCycle(rows, names, f, k - 1, g, n + 1, seen + {x});
    }
  }

  lemma {:induction false} SubsetSize(a: set<File>, b: set<File>)
    requires a <= b
    ensures |a| <= |b|
  {
    if a != {} {
      var x :| x in a;
      SubsetSize(a - {x}, b - {x});
    }
  }

  lemma LongChainMeansCycle(rows: seq<Inclusion>, names: set<File>, f: File)
    requires EndsChain(rows, names, f, |names|)
    ensures BelowCycle(rows, names, f)
  {
    assert Steps(rows, names, f, f, 0);
    LongChainBelowCycle(rows, names, f, |names|, f, 0, {});
  }

  // ----- main results on the layers -----

  lemma {:induction false} RestShrinks(rows: seq<Inclusion>, names: set<File>, j: nat, k: nat)
    requires j <= k
    ensures Rest(rows, names, k) <= Rest(rows, names, j)
    decreases k
  {
    if j < k {
      RestShrinks(rows, names, j, k - 1);
    }
  }

  // What is in one layer is gone in all later ones.
  lemma LayersDisjoint(rows: seq<Inclusion>, names: set<File>, j: nat, k: nat)
    requires j < k
    ensures Layer(rows, Rest(rows, names, j)) !! Rest(rows, names, k)
  {
    RestShrinks(rows, names, j + 1, k);
  }

  lemma {:induction false} LayerFound(rows: seq<Inclusion>, names: set<File>, n: nat, f: File) returns (k: nat)
    requires f in names && f !in Rest(rows, names, n)
    ensures k < n && f in Layer(rows, Rest(rows, names, k))
  {
    if f in Rest(rows, names, n - 1) {
      k := n - 1;
    } else {
      k := LayerFound(rows, names, n - 1, f);
    }
  }

  /** The layers partition the marked files: every file is in one layer at one
      position, nothing else is in any, and no layer is empty. */
  lemma LayersPartition(rows: seq<Inclusion>, names: set<File>, layers: seq<seq<File>>)
    requires IsCleanupOrder(rows, names, layers)
    ensures forall f :: f in names <==> exists k :: 0 <= k < |layers| && f in layers[k]
    ensures forall j, k, f :: 0 <= j < k < |layers| && f in layers[j] ==> f !in layers[k]
    ensures forall k :: 0 <= k < |layers| ==> layers[k] != [] && Distinct(layers[k])
  {
    forall k | 0 <= k < |layers| ensures layers[k] != [] && Distinct(layers[k]) {
      assert IsLayer(rows, names, k, layers[k]);
    }
    forall f ensures f in names <==> exists k :: 0 <= k < |layers| && f in layers[k] {
      if f in names {
        var k := LayerFound(rows, names, |layers|, f);
        assert IsLayer(rows, names, k, layers[k]);
        assert f in ToSet(layers[k]);
      }
      if k :| 0 <= k < |layers| && f in layers[k] {
        InLayer(rows, names, layers, k, f);
        RestWithin(rows, names, k);
      }
    }
    forall j, k, f | 0 <= j < k < |layers| && f in layers[j] ensures f !in layers[k] {
      if f in layers[k] {
        InLayer(rows, names, layers, j, f);
        InLayer(rows, names, layers, k, f);
        LayersDisjoint(rows, names, j, k);
        assert false;
      }
    }
  }

  lemma InLayer(rows: seq<Inclusion>, names: set<File>, layers: seq<seq<File>>, k: nat, f: File)
    requires IsCleanupOrder(rows, names, layers) && k < |layers|
    ensures f in layers[k] <==> f in Layer(rows, Rest(rows, names, k))
    ensures Layer(rows, Rest(rows, names, k)) <= Rest(rows, names, k)
    ensures Rest(rows, names, k) != {}
  {
    assert IsLayer(rows, names, k, layers[k]);
    assert f in layers[k] <==> f in ToSet(layers[k]);
    assert layers[k][0] in ToSet(layers[k]);
  }

  // Only the last layer can be the leftover of the cycles.
  lemma LeftoverIsLast(rows: seq<Inclusion>, names: set<File>, layers: seq<seq<File>>, k: nat)
    requires IsCleanupOrder(rows, names, layers) && k < |layers| && IsLeftover(rows, names, k)
    ensures k == |layers| - 1
  {
    if k + 1 < |layers| {
      assert Rest(rows, names, k + 1) == {};
      InLayer(rows, names, layers, k + 1, layers[k + 1][0]);
    }
  }

  lemma NoLeftoverBefore(rows: seq<Inclusion>, names: set<File>, layers: seq<seq<File>>, k: nat)
    requires IsCleanupOrder(rows, names, layers) && k < |layers| && !IsLeftover(rows, names, k)
    ensures forall j :: 0 <= j <= k ==> !IsLeftover(rows, names, j)
  {
    forall j | 0 <= j < k ensures !IsLeftover(rows, names, j) {
      if IsLeftover(rows, names, j) {
        LeftoverIsLast(rows, names, layers, j);
        assert false;
      }
    }
  }

  lemma LayerChains(rows: seq<Inclusion>, names: set<File>, layers: seq<seq<File>>, k: nat, f: File)
    requires IsCleanupOrder(rows, names, layers) && k < |layers| && f in layers[k]
    requires !IsLeftover(rows, names, k)
    ensures EndsChain(rows, names, f, k) && !EndsChain(rows, names, f, k + 1)
  {
    InLayer(rows, names, layers, k, f);
    NoLeftoverBefore(rows, names, layers, k);
    LayersDisjoint(rows, names, k, k + 1);
    RestIsChainEnds(rows, names, k, f);
    NextRestIsChainEnds(rows, names, k, f);
  }

  lemma NextRestIsChainEnds(rows: seq<Inclusion>, names: set<File>, k: nat, f: File)
    requires forall j :: 0 <= j <= k ==> !IsLeftover(rows, names, j)
    ensures f in Rest(rows, names, k + 1) <==> EndsChain(rows, names, f, k + 1)
  {
    RestIsChainEnds(rows, names, k + 1, f);
  }

  lemma ChainBound(rows: seq<Inclusion>, names: set<File>, f: File, k: nat, m: nat)
    requires !EndsChain(rows, names, f, k + 1) && EndsChain(rows, names, f, m)
    ensures m <= k
  {
    if m > k {
      ChainDownTo(rows, names, f, k + 1, m);
      assert false;
    }
  }

  /** The index of a layer that is not the leftover is the number of inclusions
      in the longest chain that ends at each of its files. */
  lemma LayerIsLongestChain(rows: seq<Inclusion>, names: set<File>, layers: seq<seq<File>>, k: nat, f: File)
    requires IsCleanupOrder(rows, names, layers) && k < |layers| && f in layers[k]
    requires !IsLeftover(rows, names, k)
    ensures EndsChain(rows, names, f, k)
    ensures forall m: nat :: EndsChain(rows, names, f, m) ==> m <= k
  {
    LayerChains(rows, names, layers, k, f);
    forall m: nat | EndsChain(rows, names, f, m) ensures m <= k {
      ChainBound(rows, names, f, k, m);
    }
  }

  /** The files of the leftover layer are exactly the marked files that are on an
      inclusion cycle or transitively included from one; so there is such a layer
      if and only if there is a cycle among the marked files. */
  lemma LeftoverIsBelowCycles(rows: seq<Inclusion>, names: set<File>, layers: seq<seq<File>>, k: nat, f: File)
    requires IsCleanupOrder(rows, names, layers) && k < |layers| && f in layers[k]
    ensures IsLeftover(rows, names, k) <==> BelowCycle(rows, names, f)
  {
    InLayer(rows, names, layers, k, f);
    if IsLeftover(rows, names, k) {
      LeftoverHasChains(rows, names, k, f, |names|);
      LongChainMeansCycle(rows, names, f);
    } else if BelowCycle(rows, names, f) {
      BelowCycleEndsChains(rows, names, f, k + 1);
      LayerIsLongestChain(rows, names, layers, k, f);
      assert false;
    }
  }

  lemma LeftoverIffCycle(rows: seq<Inclusion>, names: set<File>, layers: seq<seq<File>>)
    requires IsCleanupOrder(rows, names, layers)
    ensures (exists k :: 0 <= k < |layers| && IsLeftover(rows, names, k)) <==> (exists g :: OnCycle(rows, names, g))
  {
    if k :| 0 <= k < |layers| && IsLeftover(rows, names, k) {
      var f := layers[k][0];
      assert IsLayer(rows, names, k, layers[k]);
      LeftoverIsBelowCycles(rows, names, layers, k, f);
    }
    if g :| OnCycle(rows, names, g) {
      var n: nat :| n > 0 && Steps(rows, names, g, g, n);
      LayersPartition(rows, names, layers);
      assert g in names;
      var k :| 0 <= k < |layers| && g in layers[k];
      assert Steps(rows, names, g, g, 0);
      LeftoverIsBelowCycles(rows, names, layers, k, g);
    }
  }

  /** A file outside the leftover layer lies in a later layer than every marked
      file that includes it. */
  lemma IncludersComeFirst(rows: seq<Inclusion>, names: set<File>, layers: seq<seq<File>>, g: File, f: File, k: nat)
    requires IsCleanupOrder(rows, names, layers) && k < |layers| && f in layers[k] && !IsLeftover(rows, names, k)
    requires g in names && Inclusion(g, f) in rows
    ensures exists j :: 0 <= j < k && g in layers[j]
  {
    LayersPartition(rows, names, layers);
    var j :| 0 <= j < |layers| && g in layers[j];
    if j >= k {
      InLayer(rows, names, layers, k, f);
      InLayer(rows, names, layers, j, g);
      RestShrinks(rows, names, k, j);
      assert false;
    }
  }

  // ----- the sources of vanished build actions -----

  /** Files entered after the pass keep the marked files closed under includers
      exactly when each of their includers is marked or entered too. */
  lemma EnteredClosedIff(rows: seq<Inclusion>, keys: set<File>, more: set<File>)
    requires IncluderClosed(rows, keys)
    ensures IncluderClosed(rows, keys + more) <==> forall f :: f in more ==> IncludersIn(rows, f, keys + more)
  {
    IncludersMonotone(rows, keys, keys + more);
  }

  // Source f has lost its build action; g, which includes it, has not.
  lemma VanishedStopsOrder(f: File, g: File, gone: string, kept: string)
    requires f != g && gone != kept
    ensures var actions := [BuildAction(gone, [f]), BuildAction(kept, [g])];
      Vanished([Some([kept])], actions) == {f} && !IncludersIn([Inclusion(g, f)], f, {f})
  {
    var actions := [BuildAction(gone, [f]), BuildAction(kept, [g])];
    assert [Some([kept])][0] == Some([kept]) && actions[0] in actions;
    assert Lacks(Some([kept]), actions[0]) && f in actions[0].sources;
    assert Inclusion(g, f) in [Inclusion(g, f)];
  }

  ghost predicate IsChanged(rows: seq<Inclusion>, status: map<File, IncrementalStatus>, x: File) {
    exists f :: f in status && IncludesTransitively(rows, x, f)
  }

  /** markModifiedFiles and then the order: the marked files are the changed files,
      their transitive includers, and the sources of vanished build actions. The
      order exists exactly when each includer of such a source is marked too; else
      the lookup of an includer that is not marked throws. */
  method MarkAndOrder(parser: Parser, inputs: seq<Input>) returns (r: CleanupOrder)
    requires forall f :: f in parser.fileStatus ==> parser.fileStatus[f] == MODIFIED || parser.fileStatus[f] == DELETED
    modifies parser`fileStatus
    ensures var vanished := Vanished(inputs, parser.buildActions);
      && (forall x :: x in parser.fileStatus <==>
        IsChanged(parser.inclusions, old(parser.fileStatus), x) || x in vanished)
      && (r.Order? <==> forall f :: f in vanished ==> IncludersIn(parser.inclusions, f, parser.fileStatus.Keys))
      && (r.MissingVertex? ==> exists f :: f in vanished && Inclusion(r.path, f) in parser.inclusions)
    ensures r.Order? ==> IsCleanupOrder(parser.inclusions, parser.fileStatus.Keys, r.layers)
    ensures r.MissingVertex? ==> r.path !in parser.fileStatus
  {
    ghost var before := parser.fileStatus;
    parser.MarkIncluders();
    ghost var keys := parser.fileStatus.Keys;
    PassMarksTransitiveIncluders(parser.inclusions, before, keys);
    parser.MarkActionChanged(inputs);
    EnteredClosedIff(parser.inclusions, keys, Vanished(inputs, parser.buildActions));
    r := parser.CreateCleanupOrder();
  }

  /** A run in which the order does not come about: one source has lost its build
      action, and the file that includes it is unchanged. */
  method VanishedThrows(f: File, g: File, gone: string, kept: string) returns (r: CleanupOrder)
    requires f != g && gone != kept
    ensures r == MissingVertex(g)
  {
    var parser := new Parser(map[], [Inclusion(g, f)], [BuildAction(gone, [f]), BuildAction(kept, [g])]);
    VanishedStopsOrder(f, g, gone, kept);
    r := MarkAndOrder(parser, [Some([kept])]);
    assert forall x :: x in parser.fileStatus <==> x == f;
  }
}
