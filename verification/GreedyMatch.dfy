/** When the greedy matcher of `trace_checker.c` finds a split of a trace: whenever an item is left
    before it is full, the entry that follows could not have been one of its own. */
module GreedyMatch {
  import opened Bytes
  import opened PageWalk
  import opened TraceChecker

  /** By type and size the entry could belong to the item, whatever its pointer. */
  ghost predicate Fits(x: Expected, w: Walked)
  {
    w.kind == x.kind && SizeOk(x, w)
  }

  /** The item could take more entries than these. */
  ghost predicate Open(x: Expected, block: seq<Walked>)
  {
    if x.wild then NoneOf(x.kind, block) else x.atmost == 0 || |block| < x.atmost
  }

  /** The bounds cut the entries into blocks, one for each item, and a rest. */
  ghost predicate Cuts(expected: seq<Expected>, entries: seq<Walked>, bounds: seq<nat>)
  {
    && |bounds| == |expected| + 1 && bounds[|expected|] <= |entries|
    && forall k {:trigger expected[k]} :: 0 <= k < |expected| ==> bounds[k] <= bounds[k + 1] <= |entries|
  }

  /** No entry fits both its own item and an open one passed over for it. An entry behind the blocks
      of all items comes after an item that is full. */
  ghost predicate Clear(expected: seq<Expected>, entries: seq<Walked>, bounds: seq<nat>)
    requires Cuts(expected, entries, bounds)
  {
    forall k :: 0 <= k < |expected| && bounds[k + 1] < |entries| &&
                Open(expected[k], entries[bounds[k]..bounds[k + 1]]) ==>
      !expected[k].wild && !Fits(expected[k], entries[bounds[k + 1]]) && bounds[k + 1] < bounds[|expected|]
  }

  ghost predicate ClearSplit(expected: seq<Expected>, entries: seq<Walked>, bounds: seq<nat>, values: map<nat, nat>)
  {
    Splits(expected, entries, bounds, values) && Clear(expected, entries, bounds)
  }

  /** After `n` entries the matcher stands in the block of item `e`, or at its end if it is open. */
  ghost predicate Stands(expected: seq<Expected>, entries: seq<Walked>, bounds: seq<nat>, e: nat, n: nat)
    requires Cuts(expected, entries, bounds)
  {
    && e <= |expected| && n <= |entries| && bounds[e] <= n
    && (e < |expected| ==>
          n <= bounds[e + 1] && (n == bounds[e + 1] ==> Open(expected[e], entries[bounds[e]..bounds[e + 1]])))
  }

  /** What the counts say of a block so far. */
  ghost predicate Counted(x: Expected, n: nat, atleast: nat, atmost: nat)
  {
    if x.wild then atleast == x.atleast
    else
      && atleast == (if n >= x.atleast then 0 else x.atleast - n)
      && (if x.atmost == 0 then atmost == 0 else n + atmost == x.atmost && atmost > 0)
  }

  /** An open block needs nothing more. */
  lemma OpenEnough(x: Expected, block: seq<Walked>, values: map<nat, nat>, atleast: nat, atmost: nat)
    requires BlockOk(x, block, values) && Open(x, block) && Counted(x, |block|, atleast, atmost)
    ensures atleast == 0
  {
  }

  /** An entry of the item's own block is taken, and finishes the block exactly if it is the last of
      a full one. */
  lemma OwnTaken(x: Expected, block: seq<Walked>, i: nat, known: map<nat, nat>, values: map<nat, nat>, atleast: nat,
                 atmost: nat)
    requires BlockOk(x, block, values) && i < |block| && Extends(known, values) && Counted(x, i, atleast, atmost)
    ensures Takes(x, block[i], known)
    ensures Finishes(x, atmost, block[i]) <==> i + 1 == |block| && !Open(x, block)
    ensures (x.wild && block[i].kind != x.kind) || PtrOk(x, block[i], values)
  {
    if x.wild {
      if !NoneOf(x.kind, block) && i + 1 < |block| { assert block[..|block| - 1][i] == block[i]; }
    } else {
      assert Matches(x, block[i], values);
    }
  }

  lemma BindExtends(known: map<nat, nat>, values: map<nat, nat>, x: Expected, w: Walked)
    requires Extends(known, values) && PtrOk(x, w, values)
    ensures Extends(Bind(known, x.check, w.ptr), values)
  {
  }

  /** Where the matcher stands after entry `n`. */
  ghost predicate Moved(expected: seq<Expected>, entries: seq<Walked>, bounds: seq<nat>, values: map<nat, nat>, n: nat,
                        r: (seq<nat>, map<nat, nat>))
    requires Cuts(expected, entries, bounds)
  {
    && 0 < |r.0| <= |bounds| && r.0 == bounds[..|r.0|] && Extends(r.1, values)
    && Stands(expected, entries, bounds, |r.0| - 1, n + 1)
  }

  /** The entry is in the block of the item the matcher stands at. */
  lemma StepOwn(expected: seq<Expected>, entries: seq<Walked>, bounds: seq<nat>, values: map<nat, nat>, e: nat,
                n: nat, atleast: nat, atmost: nat, known: map<nat, nat>)
    requires ClearSplit(expected, entries, bounds, values)
    requires e < |expected| && bounds[e] <= n < bounds[e + 1] && Extends(known, values)
    requires Counted(expected[e], n - bounds[e], atleast, atmost)
    ensures Takes(expected[e], entries[n], known)
    ensures Moved(expected, entries, bounds, values, n,
                  Greedy(expected, e, atmost, entries[n], n, bounds[..e + 1], known))
  {
    hide BlockOk, Takes, PtrOk, Extends, Finishes, Counted, Clear;
    var x, w, block := expected[e], entries[n], entries[bounds[e]..bounds[e + 1]];
    assert block[n - bounds[e]] == w;
    OwnTaken(x, block, n - bounds[e], known, values, atleast, atmost);
    if PtrOk(x, w, values) { BindExtends(known, values, x, w); }
    if Finishes(x, atmost, w) {
      assert bounds[..e + 1] + [n + 1] == bounds[..e + 2];
      if e + 1 < |expected| { EmptyOpen(expected[e + 1], entries, bounds[e + 1]); }
    }
  }

  lemma EmptyOpen(x: Expected, entries: seq<Walked>, b: nat)
    requires b <= |entries|
    ensures Open(x, entries[b..b])
  {
  }

  lemma BoundsCut(expected: seq<Expected>, entries: seq<Walked>, bounds: seq<nat>, values: map<nat, nat>, e: nat,
                  n: nat)
    requires ClearSplit(expected, entries, bounds, values) && Stands(expected, entries, bounds, e, n)
    requires e < |expected|
    ensures Cuts(expected, entries, bounds) && |bounds| == |expected| + 1 && bounds[e] <= n <= bounds[e + 1]
  {
    hide BlockOk, Clear, Open;
  }

  /** An open item at the end of its block is passed over for an entry that is not its own. */
  lemma PassedOver(expected: seq<Expected>, entries: seq<Walked>, bounds: seq<nat>, values: map<nat, nat>, e: nat,
                   atleast: nat, atmost: nat)
    requires ClearSplit(expected, entries, bounds, values) && e < |expected| && bounds[e + 1] < |entries|
    requires Stands(expected, entries, bounds, e, bounds[e + 1])
    requires Counted(expected[e], bounds[e + 1] - bounds[e], atleast, atmost)
    ensures atleast == 0 && !expected[e].wild && !Fits(expected[e], entries[bounds[e + 1]])
    ensures e + 1 < |expected| && Stands(expected, entries, bounds, e + 1, bounds[e + 1])
    ensures Counted(expected[e + 1], 0, expected[e + 1].atleast, expected[e + 1].atmost)
  {
    hide BlockOk, Open, Fits;
    OpenEnough(expected[e], entries[bounds[e]..bounds[e + 1]], values, atleast, atmost);
    LaterBlock(expected, entries, bounds, values, e + 1);
    EmptyOpen(expected[e + 1], entries, bounds[e + 1]);
  }

  /** The entry is in the block of the item the matcher stands at, or of a later one. */
  lemma {:induction false} StepOn(expected: seq<Expected>, entries: seq<Walked>, bounds: seq<nat>,
                                  values: map<nat, nat>, e: nat, n: nat, atleast: nat, atmost: nat,
                                  known: map<nat, nat>)
    requires ClearSplit(expected, entries, bounds, values) && Stands(expected, entries, bounds, e, n)
    requires e < |expected| && n < |entries| && Extends(known, values)
    requires Counted(expected[e], n - bounds[e], atleast, atmost)
    ensures Acceptable(expected, e, atleast, entries[n], known)
    ensures Moved(expected, entries, bounds, values, n,
                  Greedy(expected, e, atmost, entries[n], n, bounds[..e + 1], known))
    decreases |expected| - e
  {
    hide ClearSplit, Splits, Stands, Clear, Cuts, BlockOk, Open, Counted, Extends, Moved, SizeOk;
    BoundsCut(expected, entries, bounds, values, e, n);
    if n < bounds[e + 1] {
      StepOwn(expected, entries, bounds, values, e, n, atleast, atmost, known);
    } else {
      PassedOver(expected, entries, bounds, values, e, atleast, atmost);
      assert bounds[..e + 1] + [n] == bounds[..e + 2];
      StepOn(expected, entries, bounds, values, e + 1, n, expected[e + 1].atleast, expected[e + 1].atmost, known);
    }
  }

  /** Bounds only grow: if entries are left for later items, there is a later item. */
  lemma {:induction false} LaterBlock(expected: seq<Expected>, entries: seq<Walked>, bounds: seq<nat>,
                                      values: map<nat, nat>, e: nat)
    requires Splits(expected, entries, bounds, values) && e <= |expected|
    ensures bounds[e] <= bounds[|expected|] && (bounds[e] < bounds[|expected|] ==> e < |expected|)
    decreases |expected| - e
  {
    hide BlockOk;
    if e < |expected| { LaterBlock(expected, entries, bounds, values, e + 1); }
  }

  /** At the end of the entries nothing more is required. */
  lemma {:induction false} RestEmpty(expected: seq<Expected>, entries: seq<Walked>, bounds: seq<nat>,
                                     values: map<nat, nat>, e: nat, k: nat)
    requires Splits(expected, entries, bounds, values) && e <= k < |expected| && bounds[e] == |entries|
    ensures bounds[k] == |entries| && expected[k].atleast == 0
    decreases k
  {
    if e < k { RestEmpty(expected, entries, bounds, values, e, k - 1); }
    assert BlockOk(expected[k], entries[bounds[k]..bounds[k + 1]], values);
    assert entries[bounds[k]..bounds[k + 1]] == [];
  }

  /** The matcher follows a clear split. */
  ghost predicate Follows(c: Checker, entries: seq<Walked>, bounds: seq<nat>, values: map<nat, nat>, n: nat)
    requires Splits(c.expected, entries, bounds, values)
    reads c
  {
    && !c.failed && c.e <= |c.expected| && c.bounds == bounds[..c.e + 1] && Extends(c.values, values)
    && Stands(c.expected, entries, bounds, c.e, n)
  }

  lemma FollowsCounted(c: Checker, entries: seq<Walked>, bounds: seq<nat>, values: map<nat, nat>, n: nat)
    requires Splits(c.expected, entries, bounds, values) && c.Valid() && Follows(c, entries, bounds, values, n)
    requires n <= |entries| && c.seen == entries[..n] && c.e < |c.expected|
    ensures Counted(c.expected[c.e], n - bounds[c.e], c.atleast, c.atmost)
  {
    hide BlockOk;
    assert c.bounds[c.e] == bounds[c.e];
  }

  lemma FollowsOn(c: Checker, entries: seq<Walked>, bounds: seq<nat>, values: map<nat, nat>, n: nat)
    requires ClearSplit(c.expected, entries, bounds, values) && c.Valid() && Follows(c, entries, bounds, values, n)
    requires n < |entries| && c.seen == entries[..n] && c.e < |c.expected|
    ensures Acceptable(c.expected, c.e, c.atleast, entries[n], c.values)
    ensures Moved(c.expected, entries, bounds, values, n,
                  Greedy(c.expected, c.e, c.atmost, entries[n], n, c.bounds, c.values))
  {
    hide BlockOk, Moved, Acceptable, Greedy, Extends, Blocks, Clear, c.Valid;
    FollowsCounted(c, entries, bounds, values, n);
    StepOn(c.expected, entries, bounds, values, c.e, n, c.atleast, c.atmost, c.values);
  }

  lemma FollowsEnd(c: Checker, entries: seq<Walked>, bounds: seq<nat>, values: map<nat, nat>)
    requires ClearSplit(c.expected, entries, bounds, values) && c.Valid()
    requires Follows(c, entries, bounds, values, |entries|) && c.seen == entries
    ensures c.OnlyOptional()
  {
    hide BlockOk, Extends;
    if c.e < |c.expected| {
      assert c.seen == entries[..|entries|];
      FollowsCounted(c, entries, bounds, values, |entries|);
      OpenEnough(c.expected[c.e], entries[bounds[c.e]..bounds[c.e + 1]], values, c.atleast, c.atmost);
      forall k | c.e < k < |c.expected| ensures c.expected[k].atleast == 0 {
        RestEmpty(c.expected, entries, bounds, values, c.e + 1, k);
      }
    }
  }

  lemma FollowsMoved(c: Checker, entries: seq<Walked>, bounds: seq<nat>, values: map<nat, nat>, n: nat)
    requires Splits(c.expected, entries, bounds, values) && c.Valid() && !c.failed
    requires Moved(c.expected, entries, bounds, values, n, (c.bounds, c.values))
    ensures Follows(c, entries, bounds, values, n + 1)
  {
    hide BlockOk, Extends, Partial;
  }

  /** Behind the blocks of all items. */
  lemma MovedBehind(c: Checker, entries: seq<Walked>, bounds: seq<nat>, values: map<nat, nat>, n: nat)
    requires Splits(c.expected, entries, bounds, values) && Follows(c, entries, bounds, values, n) && n < |entries|
    requires c.e == |c.expected|
    ensures Moved(c.expected, entries, bounds, values, n, (c.bounds, c.values))
  {
    hide BlockOk, Extends;
  }

  /** Checking a trace: it is accepted only if it splits, and whenever it has a clear split. */
  method CheckTrace(expected: seq<Expected>, entries: seq<Walked>, ghost bounds: seq<nat>, ghost values: map<nat, nat>)
    returns (accepted: bool, ghost found: seq<nat>, ghost known: map<nat, nat>)
    ensures accepted ==> Splits(expected, entries, found, known)
    ensures accepted ==> forall k, i :: 0 <= k < |expected| && found[k] <= i < found[k + 1] ==>
      Agrees(expected[k], entries[i], known)
    ensures ClearSplit(expected, entries, bounds, values) ==> accepted
    ensures
      var end := Over(expected, Before(expected, 0, map[]), entries);
      accepted <==> end.Some? && MayEnd(expected, end.value)
  {
    hide Splits, ClearSplit, Stands, Extends, Acceptable, Greedy, Moved, Follows, Over, Advance, MayEnd;
    var c := new Checker(expected);
    ghost var start := c.At();
    OverNone(expected, start);
    c.Start();
    ghost var clear := ClearSplit(expected, entries, bounds, values);
    if clear { FollowsStart(c, entries, bounds, values); }
    var i := 0;
    while i < |entries|
      invariant 0 <= i <= |entries| && fresh(c) && c.expected == expected && c.Valid() && c.started
      invariant c.seen == entries[..i]
      invariant c.failed <==> Over(expected, start, entries[..i]).None?
      invariant !c.failed ==> Over(expected, start, entries[..i]) == Some(c.At())
      invariant c.e <= |expected| && (clear ==> !c.failed)
      invariant clear ==> Splits(expected, entries, bounds, values) && Follows(c, entries, bounds, values, i)
    {
      hide c.Valid, c.Tracks;
      if clear {
        if c.e < |expected| {
          FollowsOn(c, entries, bounds, values, i);
        } else {
          MovedBehind(c, entries, bounds, values, i);
        }
      }
      OverOne(expected, start, entries[..i], entries[i]);
      c.Check(entries[i]);
      if clear { FollowsMoved(c, entries, bounds, values, i); }
      assert entries[..i] + [entries[i]] == entries[..i + 1];
      i := i + 1;
    }
    assert c.seen == entries;
    if clear { FollowsEnd(c, entries, bounds, values); }
    accepted := c.CheckEmpty();
    accepted, found, known := accepted && !c.failed, c.bounds, c.values;
  }

  lemma FollowsStart(c: Checker, entries: seq<Walked>, bounds: seq<nat>, values: map<nat, nat>)
    requires ClearSplit(c.expected, entries, bounds, values)
    requires !c.failed && c.e == 0 && c.bounds == [0] && c.values == map[]
    ensures Splits(c.expected, entries, bounds, values) && Follows(c, entries, bounds, values, 0)
  {
    hide BlockOk, Clear;
    assert bounds[..1] == [0];
    if c.expected != [] { EmptyOpen(c.expected[0], entries, 0); }
  }

  /** Any number of entries of a type, then at least one. */
  function OptionalThenRequired(kind: nat): seq<Expected>
  {
    [Expected(0, 0, None, kind, false, None), Expected(1, 0, None, kind, false, None)]
  }

  /** Without a clear split a trace that splits may be refused: an optional item takes every entry of
      a type, and none is left for one of the same type that is required. */
  method Greed(kind: nat, entries: seq<Walked>) returns (accepted: bool)
    requires entries != [] && forall k :: 0 <= k < |entries| ==> entries[k].kind == kind
    ensures Splits(OptionalThenRequired(kind), entries, [0, 0, |entries|], map[]) && !accepted
  {
    hide Blocks, Partial;
    var expected := OptionalThenRequired(kind);
    GreedSplits(kind, entries);
    var c := new Checker(expected);
    c.Start();
    var i := 0;
    while i < |entries|
      invariant 0 <= i <= |entries| && fresh(c) && c.expected == expected && c.Valid() && c.started && !c.failed
      invariant c.e == 0 && c.bounds == [0]
    {
      TracksZero(c);
      c.Check(entries[i]);
      TracksZero(c);
      i := i + 1;
    }
    assert c.expected[1].atleast > 0;
    accepted := c.CheckEmpty();
  }

  lemma GreedSplits(kind: nat, entries: seq<Walked>)
    requires entries != [] && forall k :: 0 <= k < |entries| ==> entries[k].kind == kind
    ensures Splits(OptionalThenRequired(kind), entries, [0, 0, |entries|], map[])
  {
    assert entries[0..|entries|] == entries;
  }

  lemma TracksZero(c: Checker)
    requires c.Valid() && !c.failed
    ensures |c.bounds| == c.e + 1
    ensures c.e < |c.expected| && !c.expected[c.e].wild && c.expected[c.e].atmost == 0 ==> c.atmost == 0
  {
  }
}
