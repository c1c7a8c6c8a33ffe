/** `trace_checker.c`: pages are walked entry by entry and matched, greedily and resuming from page
    to page, against a list of expected entries with counts, wildcards and pointer variables. */
module TraceChecker {
  import opened Bytes
  import opened Entries
  import opened TraceReader
  import opened Fragment
  import opened PageWalk

  /** An expected entry; `atmost` 0 is without bound. A wildcard skips up to the next entry of its
      type. */
  datatype Expected = Expected(atleast: nat, atmost: nat, check: Option<nat>, kind: nat, wild: bool, size: Option<nat>)

  // --------------------------------------------------- what a match means

  ghost predicate PtrOk(x: Expected, w: Walked, values: map<nat, nat>)
  {
    x.check.Some? ==> x.check.value in values && values[x.check.value] == w.ptr
  }

  predicate SizeOk(x: Expected, w: Walked)
  {
    x.size.Some? ==> w.size.Some? && w.size.value == x.size.value
  }

  ghost predicate Matches(x: Expected, w: Walked, values: map<nat, nat>)
  {
    w.kind == x.kind && SizeOk(x, w) && PtrOk(x, w, values)
  }

  ghost predicate AllMatch(x: Expected, block: seq<Walked>, values: map<nat, nat>)
  {
    forall k :: 0 <= k < |block| ==> Matches(x, block[k], values)
  }

  /** An upper bound wins over a larger lower bound. */
  ghost predicate CountOk(x: Expected, n: nat)
  {
    && (n >= x.atleast || 0 < x.atmost == n)
    && (x.atmost > 0 ==> n <= x.atmost)
  }

  ghost predicate NoneOf(kind: nat, block: seq<Walked>)
  {
    forall k :: 0 <= k < |block| ==> block[k].kind != kind
  }

  /** The entries one expected item stands for. */
  ghost predicate BlockOk(x: Expected, block: seq<Walked>, values: map<nat, nat>)
  {
    if !x.wild then CountOk(x, |block|) && AllMatch(x, block, values)
    else if NoneOf(x.kind, block) then x.atleast == 0
    else
      var n := |block| - 1;
      NoneOf(x.kind, block[..n]) && block[n].kind == x.kind && PtrOk(x, block[n], values)
  }

  /** The blocks of the first `n` items of an expected trace. */
  ghost predicate Blocks(expected: seq<Expected>, n: nat, seen: seq<Walked>, bounds: seq<nat>, values: map<nat, nat>)
  {
    && n <= |expected| && |bounds| == n + 1 && bounds[0] == 0
    && (forall k :: 0 <= k <= n ==> bounds[k] <= |seen|)
    && (forall k :: 0 <= k < n ==>
          bounds[k] <= bounds[k + 1] && BlockOk(expected[k], seen[bounds[k]..bounds[k + 1]], values))
  }

  /** A whole trace matches: consecutive blocks, one per item, then entries that are free, under
      one assignment of the pointer variables. */
  ghost predicate Splits(expected: seq<Expected>, seen: seq<Walked>, bounds: seq<nat>, values: map<nat, nat>)
  {
    Blocks(expected, |expected|, seen, bounds, values)
  }

  /** What an entry counted for an item has in common with it. */
  ghost predicate Agrees(x: Expected, w: Walked, values: map<nat, nat>)
  {
    !x.wild ==>
      && w.kind == x.kind && (x.size != None ==> w.size == x.size)
      && forall c :: x.check == Some(c) ==> c in values && values[c] == w.ptr
  }

  /** In a split every entry agrees with the item of its block: in type, size and pointer. */
  lemma SplitAgrees(expected: seq<Expected>, seen: seq<Walked>, bounds: seq<nat>, values: map<nat, nat>)
    requires Splits(expected, seen, bounds, values)
    ensures forall k, i :: 0 <= k < |expected| && bounds[k] <= i < bounds[k + 1] ==>
      Agrees(expected[k], seen[i], values)
  {
    forall k, i | 0 <= k < |expected| && bounds[k] <= i < bounds[k + 1] ensures Agrees(expected[k], seen[i], values) {
      var block := seen[bounds[k]..bounds[k + 1]];
      assert BlockOk(expected[k], block, values) && block[i - bounds[k]] == seen[i];
      if !expected[k].wild { assert Matches(expected[k], block[i - bounds[k]], values); }
    }
  }

  /** The block being matched, and the counts left for it. */
  ghost predicate Partial(x: Expected, block: seq<Walked>, atleast: nat, atmost: nat, values: map<nat, nat>)
  {
    if x.wild then NoneOf(x.kind, block) && atleast == x.atleast
    else
      && AllMatch(x, block, values)
      && atleast == (if |block| >= x.atleast then 0 else x.atleast - |block|)
      && (if x.atmost == 0 then atmost == 0 else |block| + atmost == x.atmost && atmost > 0)
  }

  /** How many entries an item needs: an upper bound below the lower one undercuts it. */
  function Needed(x: Expected): nat
  {
    if 0 < x.atmost < x.atleast then x.atmost else x.atleast
  }

  /** The pointer variable, if there is one, has no value or this one. */
  ghost predicate Free(check: Option<nat>, ptr: nat, values: map<nat, nat>)
  {
    forall c :: check == Some(c) && c in values ==> values[c] == ptr
  }

  /** The item takes the entry: by type, size and, unless its variable is still free, pointer. A
      wildcard takes entries of other types too. */
  predicate Takes(x: Expected, w: Walked, values: map<nat, nat>)
  {
    var free := x.check.None? || x.check.value !in values || values[x.check.value] == w.ptr;
    if x.wild then w.kind == x.kind ==> free else w.kind == x.kind && SizeOk(x, w) && free
  }

  /** From item `e` on, of which `atleast` more are required, some item takes the entry and all
      before it may be passed over. */
  predicate Acceptable(expected: seq<Expected>, e: nat, atleast: nat, w: Walked, values: map<nat, nat>)
    requires e <= |expected|
    decreases |expected| - e
  {
    e < |expected| &&
    (Takes(expected[e], w, values) ||
     (!expected[e].wild && atleast == 0 && e + 1 < |expected| &&
      Acceptable(expected, e + 1, expected[e + 1].atleast, w, values)))
  }

  /** The pointer variables after an entry with this pointer. */
  function Bind(values: map<nat, nat>, check: Option<nat>, ptr: nat): map<nat, nat>
  {
    if check.Some? then values[check.value := ptr] else values
  }

  /** The entry finishes the block of the item that takes it, of which at most `atmost` more may come. */
  predicate Finishes(x: Expected, atmost: nat, w: Walked)
  {
    if x.wild then w.kind == x.kind else atmost == 1
  }

  /** How the greedy matcher goes on from item `e`, of which at most `atmost` more may come, with the
      entry that follows `n` others: the first item that takes it does. The result is where the
      finished blocks end, and the pointer variables. */
  ghost function Greedy(expected: seq<Expected>, e: nat, atmost: nat, w: Walked, n: nat, bounds: seq<nat>,
                        values: map<nat, nat>): (seq<nat>, map<nat, nat>)
    requires e < |expected|
    decreases |expected| - e
  {
    var x := expected[e];
    if Takes(x, w, values) then
      (if Finishes(x, atmost, w) then bounds + [n + 1] else bounds,
       if x.wild && w.kind != x.kind then values else Bind(values, x.check, w.ptr))
    else if e + 1 < |expected| then
      Greedy(expected, e + 1, expected[e + 1].atmost, w, n, bounds + [n], values)
    else (bounds, values)
  }

  /** Where the checker stands: the item, how many more entries it needs and may take, and the pointer
      variables. */
  datatype Point = Point(e: nat, atleast: nat, atmost: nat, values: map<nat, nat>)

  /** At the beginning of item `e`. */
  ghost function Before(expected: seq<Expected>, e: nat, values: map<nat, nat>): Point
  {
    if e < |expected| then Point(e, expected[e].atleast, expected[e].atmost, values) else Point(e, 0, 0, values)
  }

  /** Where one entry leads, unless it fails. */
  ghost function Advance(expected: seq<Expected>, p: Point, w: Walked): Option<Point>
    requires p.e < |expected|
    decreases |expected| - p.e
  {
    var x, values := expected[p.e], Bind(p.values, expected[p.e].check, w.ptr);
    if Takes(x, w, p.values) then
      if x.wild && w.kind != x.kind then Some(p)
      else if Finishes(x, p.atmost, w) then Some(Before(expected, p.e + 1, values))
      else
        var less, fewer := if p.atleast > 0 then p.atleast - 1 else 0, if p.atmost > 0 then p.atmost - 1 else 0;
        Some(Point(p.e, less, fewer, values))
    else if !x.wild && p.atleast == 0 && p.e + 1 < |expected| then
      Advance(expected, Before(expected, p.e + 1, p.values), w)
    else None
  }

  /** Where some entries lead, one after the other. An entry behind the last expected one is free. */
  ghost function Over(expected: seq<Expected>, p: Point, entries: seq<Walked>): Option<Point>
  {
    if entries == [] then Some(p)
    else
      var before := Over(expected, p, entries[..|entries| - 1]);
      if before.None? || before.value.e >= |expected| then before
      else Advance(expected, before.value, entries[|entries| - 1])
  }

  /** No item from here on needs another entry. */
  ghost predicate MayEnd(expected: seq<Expected>, p: Point)
  {
    p.e < |expected| ==> p.atleast == 0 && forall k :: p.e < k < |expected| ==> expected[k].atleast == 0
  }

  lemma OverNone(expected: seq<Expected>, p: Point)
    ensures Over(expected, p, []) == Some(p)
  {
  }

  lemma OverOne(expected: seq<Expected>, p: Point, entries: seq<Walked>, w: Walked)
    ensures
      var before := Over(expected, p, entries);
      Over(expected, p, entries + [w]) ==
      if before.None? || before.value.e >= |expected| then before else Advance(expected, before.value, w)
  {
    assert (entries + [w])[..|entries|] == entries;
  }

  /** How the entries are spread over pages makes no difference. */
  lemma {:induction false} OverPages(expected: seq<Expected>, p: Point, a: seq<Walked>, b: seq<Walked>)
    ensures
      var middle := Over(expected, p, a);
      Over(expected, p, a + b) == if middle.None? then None else Over(expected, middle.value, b)
    decreases |b|
  {
    hide Advance;
    if b == [] {
      assert a + b == a;
    } else {
      var last := |b| - 1;
      OverPages(expected, p, a, b[..last]);
      assert (a + b)[..|a| + last] == a + b[..last] && (a + b)[|a| + last] == b[last];
    }
  }

  // ------------------------------------------------------ keeping a match

  ghost predicate Extends(before: map<nat, nat>, after: map<nat, nat>)
  {
    forall c :: c in before ==> c in after && after[c] == before[c]
  }

  lemma BlockExtends(x: Expected, block: seq<Walked>, before: map<nat, nat>, after: map<nat, nat>)
    requires Extends(before, after)
    ensures BlockOk(x, block, before) ==> BlockOk(x, block, after)
    ensures AllMatch(x, block, before) ==> AllMatch(x, block, after)
  {
    if AllMatch(x, block, before) {
      forall k | 0 <= k < |block| ensures Matches(x, block[k], after) { assert Matches(x, block[k], before); }
    }
  }

  lemma BlocksExtend(expected: seq<Expected>, n: nat, seen: seq<Walked>, bounds: seq<nat>, before: map<nat, nat>,
                     after: map<nat, nat>)
    requires Blocks(expected, n, seen, bounds, before) && Extends(before, after)
    ensures Blocks(expected, n, seen, bounds, after)
  {
    hide BlockOk;
    forall k | 0 <= k < n ensures BlockOk(expected[k], seen[bounds[k]..bounds[k + 1]], after) {
      BlockExtends(expected[k], seen[bounds[k]..bounds[k + 1]], before, after);
    }
  }

  /** Further entries leave the finished blocks alone. */
  lemma BlocksSeen(expected: seq<Expected>, n: nat, seen: seq<Walked>, w: Walked, bounds: seq<nat>,
                   values: map<nat, nat>)
    requires Blocks(expected, n, seen, bounds, values)
    ensures Blocks(expected, n, seen + [w], bounds, values)
  {
    hide BlockOk;
    forall k | 0 <= k < n ensures BlockOk(expected[k], (seen + [w])[bounds[k]..bounds[k + 1]], values) {
      assert (seen + [w])[bounds[k]..bounds[k + 1]] == seen[bounds[k]..bounds[k + 1]];
    }
  }

  /** Finishing the block of item `n`. */
  lemma BlocksNext(expected: seq<Expected>, n: nat, seen: seq<Walked>, bounds: seq<nat>, values: map<nat, nat>)
    requires n < |expected| && Blocks(expected, n, seen, bounds, values)
    requires BlockOk(expected[n], seen[bounds[n]..], values)
    ensures Blocks(expected, n + 1, seen, bounds + [|seen|], values)
  {
    hide BlockOk;
    var b := bounds + [|seen|];
    assert seen[b[n]..b[n + 1]] == seen[bounds[n]..];
    forall k | 0 <= k < n + 1 ensures b[k] <= b[k + 1] && BlockOk(expected[k], seen[b[k]..b[k + 1]], values) {
      if k < n { assert BlockOk(expected[k], seen[bounds[k]..bounds[k + 1]], values); }
    }
  }

  /** An item that needs no more entries may be left. */
  lemma PartialDone(x: Expected, block: seq<Walked>, atmost: nat, values: map<nat, nat>)
    requires Partial(x, block, 0, atmost, values)
    ensures BlockOk(x, block, values)
  {
  }

  /** One more matching entry, counted. */
  lemma PartialMatch(x: Expected, block: seq<Walked>, atleast: nat, atmost: nat, values: map<nat, nat>, w: Walked)
    requires !x.wild && Partial(x, block, atleast, atmost, values) && Matches(x, w, values)
    ensures atmost == 1 ==> BlockOk(x, block + [w], values)
    ensures atmost != 1 ==>
      Partial(x, block + [w], if atleast > 0 then atleast - 1 else 0, if atmost == 0 then 0 else atmost - 1, values)
  {
  }

  lemma PartialExtends(x: Expected, block: seq<Walked>, atleast: nat, atmost: nat, before: map<nat, nat>,
                       after: map<nat, nat>)
    requires Extends(before, after) && Partial(x, block, atleast, atmost, before)
    ensures Partial(x, block, atleast, atmost, after)
  {
    BlockExtends(x, block, before, after);
  }

  /** A wildcard skips, or ends its block. */
  lemma PartialWild(x: Expected, block: seq<Walked>, atleast: nat, atmost: nat, values: map<nat, nat>, w: Walked)
    requires x.wild && Partial(x, block, atleast, atmost, values)
    ensures w.kind != x.kind ==> Partial(x, block + [w], atleast, atmost, values)
    ensures w.kind == x.kind && PtrOk(x, w, values) ==> BlockOk(x, block + [w], values)
  {
    assert (block + [w])[..|block|] == block && (block + [w])[|block|] == w;
  }

  // ------------------------------------------------------------ the checker

  datatype PtrMatch = MatchPtr | MatchInitPtr | MismatchPtr | NoCheckPtr

  class Checker {
    const expected: seq<Expected>
    var e: nat
    var atleast: nat
    var atmost: nat
    var values: map<nat, nat>
    var started: bool
    var failed: bool

    /** The entries checked so far, and where the finished blocks end. */
    ghost var seen: seq<Walked>
    ghost var bounds: seq<nat>

    ghost predicate Valid()
      reads this
    {
      e <= |expected| && (!failed ==> Tracks())
    }

    /** As long as nothing has failed: a block for each item passed, and a part of the next. */
    ghost predicate Tracks()
      reads this
    {
      && Blocks(expected, e, seen, bounds, values)
      && (e < |expected| ==> Partial(expected[e], seen[bounds[e]..], atleast, atmost, values))
    }

    ghost function At(): Point
      reads this
    {
      Point(e, atleast, atmost, values)
    }

    /** `register_expected_trace`, and what `init_expected_entry_iterator` will set. */
    constructor (expected: seq<Expected>)
      ensures Valid() && !started && !failed && seen == [] && bounds == [0] && values == map[]
      ensures this.expected == expected && e == 0
      ensures At() == Before(expected, 0, map[])
    {
      this.expected, e, values, started, failed, seen, bounds := expected, 0, map[], false, false, [], [0];
      atleast := if expected == [] then 0 else expected[0].atleast;
      atmost := if expected == [] then 0 else expected[0].atmost;
    }

    /** The iterator is initialised with the first page. */
    method Start()
      requires Valid()
      modifies this`started
      ensures Valid() && started
    {
      started := true;
    }

    /** `next_expected_entry_and_reset`. */
    method Next()
      requires e < |expected|
      modifies this`e, this`atleast, this`atmost, this`bounds
      ensures e == old(e) + 1 && bounds == old(bounds) + [|seen|]
      ensures At() == Before(expected, e, values)
      ensures
        old(Blocks(expected, e, seen, bounds, values) && BlockOk(expected[e], seen[bounds[e]..], values)) ==> Tracks()
    {
      hide Blocks, BlockOk;
      if Blocks(expected, e, seen, bounds, values) {
        BlocksBound(expected, e, seen, bounds, values);
        if BlockOk(expected[e], seen[bounds[e]..], values) { BlocksNext(expected, e, seen, bounds, values); }
      }
      bounds := bounds + [|seen|];
      e := e + 1;
      if e < |expected| {
        atleast, atmost := expected[e].atleast, expected[e].atmost;
      } else {
        atleast, atmost := 0, 0;
      }
    }

    /** `_check_ptr`. */
    method CheckPtr(ptr: nat) returns (m: PtrMatch)
      requires e < |expected|
      modifies this`values
      ensures values == if m.MismatchPtr? then old(values) else Bind(old(values), expected[e].check, ptr)
      ensures Extends(old(values), values)
      ensures
        var check := expected[e].check;
        m.MismatchPtr? <==> check.Some? && check.value in old(values) && old(values)[check.value] != ptr
      ensures !m.MismatchPtr? ==> forall w: Walked :: w.ptr == ptr ==> PtrOk(expected[e], w, values)
    {
      var check := expected[e].check;
      if check.None? { return NoCheckPtr; }
      if check.value !in values {
        values := values[check.value := ptr];
        return MatchInitPtr;
      }
      if values[check.value] == ptr {
        assert values == values[check.value := ptr];
        return MatchPtr;
      }
      return MismatchPtr;
    }

    /** An entry that was not accepted. */
    method Reject(w: Walked) returns (ok: bool)
      modifies this`seen
      ensures !ok && seen == old(seen) + [w]
    {
      ghost var s := seen + [w];
      seen := s;
      ok := false;
    }

    /** The entry fits the current item: it is counted. */
    method Accept(w: Walked)
      requires e < |expected| && !expected[e].wild
      modifies this`e, this`atleast, this`atmost, this`seen, this`bounds
      ensures seen == old(seen) + [w] && old(e) <= e <= |expected|
      ensures bounds == old(if atmost == 1 then bounds + [|seen| + 1] else bounds)
      ensures At() == old(
        if atmost == 1 then Before(expected, e + 1, values)
        else Point(e, if atleast > 0 then atleast - 1 else 0, if atmost > 0 then atmost - 1 else 0, values))
      ensures old(Tracks()) && Matches(expected[old(e)], w, values) ==> Tracks()
    {
      hide Partial, BlockOk, Matches, Blocks;
      ghost var tracks := Tracks() && Matches(expected[e], w, values);
      ghost var s := seen + [w];
      if tracks {
        BlocksBound(expected, e, seen, bounds, values);
        PartialMatch(expected[e], seen[bounds[e]..], atleast, atmost, values, w);
        BlocksSeen(expected, e, seen, w, bounds, values);
        assert s[bounds[e]..] == seen[bounds[e]..] + [w];
      }
      seen := s;
      if atleast > 0 { atleast := atleast - 1; }
      if atmost == 0 { return; }
      if atmost == 1 {
        Next();
      } else {
        atmost := atmost - 1;
      }
    }

    /** `_check_next_expected`: an optional item is passed over. */
    method CheckNext(w: Walked) returns (ok: bool)
      requires e < |expected| && !expected[e].wild && atleast == 0 && !Takes(expected[e], w, values)
      modifies this`e, this`atleast, this`atmost, this`values, this`seen, this`bounds
      ensures seen == old(seen) + [w] && old(e) <= e <= |expected|
      ensures ok <==> old(Acceptable(expected, e, atleast, w, values))
      ensures old(Advance(expected, At(), w)) == if ok then Some(At()) else None
      ensures ok ==> (bounds, values) == old(Greedy(expected, e, atmost, w, |seen|, bounds, values))
      ensures ok && old(Tracks()) ==> Tracks()
      decreases |expected| - e, 0
    {
      hide Partial, BlockOk, Blocks;
      if Tracks() {
        BlocksBound(expected, e, seen, bounds, values);
        PartialDone(expected[e], seen[bounds[e]..], atmost, values);
      }
      Next();
      if e == |expected| {
        ok := Reject(w);
      } else {
        ok := CheckEntry(w);
      }
    }

    /** Binding a pointer variable keeps what has been matched. */
    lemma TracksExtends(before: map<nat, nat>)
      requires Extends(before, values) && e <= |expected| && Blocks(expected, e, seen, bounds, before)
      requires e < |expected| ==> Partial(expected[e], seen[bounds[e]..], atleast, atmost, before)
      ensures Tracks()
    {
      hide Partial, BlockOk, Extends;
      BlocksExtend(expected, e, seen, bounds, before, values);
      if e < |expected| { PartialExtends(expected[e], seen[bounds[e]..], atleast, atmost, before, values); }
    }

    /** `_check_non_wildcard`. */
    method CheckNonWildcard(w: Walked) returns (ok: bool)
      requires e < |expected| && !expected[e].wild
      modifies this`e, this`atleast, this`atmost, this`values, this`seen, this`bounds
      ensures seen == old(seen) + [w] && old(e) <= e <= |expected|
      ensures ok <==> old(Acceptable(expected, e, atleast, w, values))
      ensures old(Advance(expected, At(), w)) == if ok then Some(At()) else None
      ensures ok ==> (bounds, values) == old(Greedy(expected, e, atmost, w, |seen|, bounds, values))
      ensures ok && old(Tracks()) ==> Tracks()
      ensures
        var x, free := expected[old(e)], old(Free(expected[e].check, w.ptr, values));
        if w.kind == x.kind && (x.size == None || w.size == x.size) && free then ok else old(atleast) > 0 ==> !ok
      decreases |expected| - e, 1
    {
      hide Partial, BlockOk, Blocks, Extends, PtrOk;
      var same := w.kind == expected[e].kind && SizeOk(expected[e], w);
      if !same {
        if atleast > 0 {
          ok := Reject(w);
        } else {
          ok := CheckNext(w);
        }
        return;
      }
      ghost var before := values;
      ghost var tracks := Tracks();
      var p := CheckPtr(w.ptr);
      if tracks { TracksExtends(before); }
      if p.MismatchPtr? {
        if atleast > 0 {
          ok := Reject(w);
        } else {
          ok := CheckNext(w);
        }
        return;
      }
      assert PtrOk(expected[e], w, values);
      Accept(w);
      ok := true;
    }

    /** `_check_wildcard`. */
    method CheckWildcard(w: Walked) returns (ok: bool)
      requires e < |expected| && expected[e].wild
      modifies this`e, this`atleast, this`atmost, this`values, this`seen, this`bounds
      ensures seen == old(seen) + [w] && old(e) <= e <= |expected|
      ensures ok <==> old(Acceptable(expected, e, atleast, w, values))
      ensures old(Advance(expected, At(), w)) == if ok then Some(At()) else None
      ensures ok ==> (bounds, values) == old(Greedy(expected, e, atmost, w, |seen|, bounds, values))
      ensures ok && old(Tracks()) ==> Tracks()
    {
      hide Partial, BlockOk, Blocks, Extends, PtrOk;
      ghost var before, tracks, s := values, Tracks(), seen + [w];
      if tracks {
        BlocksBound(expected, e, seen, bounds, values);
        PartialWild(expected[e], seen[bounds[e]..], atleast, atmost, values, w);
        BlocksSeen(expected, e, seen, w, bounds, values);
        assert s[bounds[e]..] == seen[bounds[e]..] + [w];
      }
      if w.kind != expected[e].kind {
        seen := s;
        return true;
      }
      var p := CheckPtr(w.ptr);
      if p.MismatchPtr? {
        ok := Reject(w);
        return;
      }
      if tracks {
        TracksExtends(before);
        PartialWild(expected[e], seen[bounds[e]..], atleast, atmost, values, w);
        BlocksSeen(expected, e, seen, w, bounds, values);
      }
      seen := s;
      Next();
      ok := true;
    }

    /** `_check_entry`. */
    method CheckEntry(w: Walked) returns (ok: bool)
      requires e < |expected|
      modifies this`e, this`atleast, this`atmost, this`values, this`seen, this`bounds
      ensures seen == old(seen) + [w] && old(e) <= e <= |expected|
      ensures ok <==> old(Acceptable(expected, e, atleast, w, values))
      ensures old(Advance(expected, At(), w)) == if ok then Some(At()) else None
      ensures ok ==> (bounds, values) == old(Greedy(expected, e, atmost, w, |seen|, bounds, values))
      ensures ok && old(Tracks()) ==> Tracks()
      decreases |expected| - e, 2
    {
      hide Tracks;
      if expected[e].wild {
        ok := CheckWildcard(w);
      } else {
        ok := CheckNonWildcard(w);
      }
    }

    /** The matching part of `coldtrace_writer_close`: an entry behind the last expected one is
        free. */
    method Check(w: Walked)
      requires Valid()
      modifies this
      ensures Valid() && seen == old(seen) + [w] && started == old(started)
      ensures failed <==> old(failed || (e < |expected| && !Acceptable(expected, e, atleast, w, values)))
      ensures failed <==> old(failed) || (old(e) < |expected| && old(Advance(expected, At(), w)) == None)
      ensures !failed ==> Some(At()) == old(if e < |expected| then Advance(expected, At(), w) else Some(At()))
      ensures
        !failed ==>
          (bounds, values) ==
          old(if e < |expected| then Greedy(expected, e, atmost, w, |seen|, bounds, values) else (bounds, values))
      ensures old(e == |expected|) ==> failed == old(failed)
      ensures old(e < |expected| && !expected[e].wild) ==>
        var x, free := expected[old(e)], old(Free(expected[e].check, w.ptr, values));
        && (w.kind == x.kind && (x.size == None || w.size == x.size) && free ==> failed == old(failed))
        && (old(atleast) > 0 && w.kind != x.kind ==> failed)
        && (old(atleast) > 0 && x.size != None && w.size != x.size ==> failed)
        && (old(atleast) > 0 && !free ==> failed)
      ensures old(e < |expected| && expected[e].wild) ==>
        failed == old(failed || (w.kind == expected[e].kind && !Free(expected[e].check, w.ptr, values)))
    {
      hide Partial, Blocks;
      if e == |expected| {
        if !failed { BlocksSeen(expected, e, seen, w, bounds, values); }
        ghost var s := seen + [w];
        seen := s;
        return;
      }
      var ok := CheckEntry(w);
      failed := failed || !ok;
    }

    /** `coldtrace_writer_close` on a page as the writer fills it: the walk visits exactly the
        entries appended, each parsed to what was logged, and ends at the end of the page. */
    method CheckPage(page: seq<Byte>, ghost version: seq<Byte>, ghost ps: seq<Placed>)
      requires Valid()
      requires |version| == VERSION_SIZE && Chain(ps) && page == version + Layout(ps)
      modifies this
      ensures Valid() && started && seen == old(seen) + WalkedAll(ps, |ps|)
      ensures failed <==> old(failed) || Over(expected, old(At()), WalkedAll(ps, |ps|)).None?
      ensures !failed ==> Over(expected, old(At()), WalkedAll(ps, |ps|)) == Some(At())
    {
      hide Blocks, Partial, Layout, LinkedAt, ParseWalked, EntrySize, ParseType, FixedSize, WalkedOf, Offset, Encode;
      hide PlacedOk, Tracks, Over, Advance, Acceptable, Greedy;
      assert Holds(page, ps) by { assert page[VERSION_SIZE..] == Layout(ps); }
      LayoutEnds(ps);
      OverNone(expected, At());
      Start();
      var off := VERSION_SIZE;
      ghost var i := 0;
      while off + 8 <= |page|
        invariant 0 <= i <= |ps| && off == Offset(ps, i) && Valid() && started
        invariant seen == old(seen) + WalkedAll(ps, i)
        invariant failed <==> old(failed) || Over(expected, old(At()), WalkedAll(ps, i)).None?
        invariant !failed ==> Over(expected, old(At()), WalkedAll(ps, i)) == Some(At())
        decreases |ps| - i
      {
        EntryAt(page, ps, i);
        var size := EntrySize(page, off);
        if size == 0 { break; }
        OverOne(expected, old(At()), WalkedAll(ps, i), WalkedOf(ps[i].r));
        Check(ParseWalked(page, off));
        off := off + size;
        i := i + 1;
      }
      if i < |ps| { EntryAt(page, ps, i); }
    }

    /** Nothing that is still expected is required. */
    ghost predicate OnlyOptional()
      reads this
    {
      MayEnd(expected, At())
    }

    /** `check_empty_expected_trace` for this thread, which fails if no page was ever checked. If it
        holds and no check has failed, the entries of all pages split into the blocks of the expected
        items. */
    method CheckEmpty() returns (ok: bool)
      requires Valid()
      modifies this`e, this`atleast, this`atmost, this`bounds
      ensures ok <==> old(started && OnlyOptional())
      ensures ok && !failed ==> Splits(expected, seen, bounds, values)
      ensures ok && !failed ==> forall k, i :: 0 <= k < |expected| && bounds[k] <= i < bounds[k + 1] ==>
        Agrees(expected[k], seen[i], values)
    {
      hide Partial, BlockOk, Blocks;
      if !started { return false; }
      while e < |expected| && atleast == 0
        invariant e <= |expected| && (!failed ==> Tracks())
        invariant OnlyOptional() <==> old(OnlyOptional())
        decreases |expected| - e
      {
        if !failed {
          BlocksBound(expected, e, seen, bounds, values);
          PartialDone(expected[e], seen[bounds[e]..], atmost, values);
        }
        Next();
      }
      ok := e == |expected|;
      if ok && !failed { SplitAgrees(expected, seen, bounds, values); }
    }
  }

  /** The first `n` entries of a page as the checker should see them. */
  ghost function WalkedAll(ps: seq<Placed>, n: nat): seq<Walked>
    requires n <= |ps|
  {
    if n == 0 then [] else WalkedAll(ps, n - 1) + [WalkedOf(ps[n - 1].r)]
  }

  lemma LayoutEnds(ps: seq<Placed>)
    requires AllPlaced(ps)
    ensures Offset(ps, 0) == VERSION_SIZE && Offset(ps, |ps|) == VERSION_SIZE + |Layout(ps)|
  {
  }

  lemma EntryAt(page: seq<Byte>, ps: seq<Placed>, i: nat)
    requires Holds(page, ps) && i <= |ps| && (i == |ps| ==> Offset(ps, i) + 8 <= |page|)
    ensures i < |ps|
    ensures
      var off := Offset(ps, i);
      && off + 8 <= |page| && off + FixedSize(ParseType(page, off)) <= |page|
      && EntrySize(page, off) > 0 && off + EntrySize(page, off) == Offset(ps, i + 1)
      && ParseWalked(page, off) == WalkedOf(ps[i].r)
  {
    hide ParseWalked, EntrySize, ParseType, FixedSize, WalkedOf, Encode;
    LayoutEnds(ps);
    if i < |ps| {
      assert PlacedOk(ps[i]);
      EntryStands(page, ps, i);
      EntryWalks(page, Offset(ps, i), ps[i].r, ps[i].kept);
      EncodedSize(ps[i].r, ps[i].kept);
    }
  }

  lemma BlocksBound(expected: seq<Expected>, n: nat, seen: seq<Walked>, bounds: seq<nat>, values: map<nat, nat>)
    requires Blocks(expected, n, seen, bounds, values)
    ensures |bounds| == n + 1 && bounds[n] <= |seen|
  {
  }

  // ------------------------------------------------- what is enforced

  /** Entries that fit one item and agree in their pointers. */
  ghost predicate Alike(x: Expected, entries: seq<Walked>)
  {
    forall k :: 0 <= k < |entries| ==>
      entries[k].kind == x.kind && SizeOk(x, entries[k]) && (x.check.Some? ==> entries[k].ptr == entries[0].ptr)
  }

  lemma AlikeTaken(x: Expected, entries: seq<Walked>, i: nat, bounds: seq<nat>, atleast: nat, atmost: nat,
                   values: map<nat, nat>)
    requires !x.wild && Alike(x, entries) && i < |entries| && Blocks([x], 0, entries[..i], bounds, values)
    requires Partial(x, entries[..i][bounds[0]..], atleast, atmost, values) && (i == 0 ==> values == map[])
    ensures Takes(x, entries[i], values)
  {
    if i > 0 {
      assert entries[..i][bounds[0]..] == entries[..i];
      assert Matches(x, entries[..i][0], values);
    }
  }

  lemma EnoughSeen(x: Expected, e: nat, seen: seq<Walked>, bounds: seq<nat>, atleast: nat, atmost: nat,
                   values: map<nat, nat>)
    requires !x.wild && e <= 1 && Blocks([x], e, seen, bounds, values)
    requires e == 0 ==> Partial(x, seen[bounds[0]..], atleast, atmost, values)
    ensures |seen| >= Needed(x) <==> e == 1 || atleast == 0
  {
    if e == 1 {
      assert BlockOk([x][0], seen[bounds[0]..bounds[1]], values);
    } else {
      assert seen[bounds[0]..] == seen;
    }
  }

  /** What the checker enforces of the counts of an item: the lower bound if the upper bound is 0 or
      not below it; if it is below, the upper bound in its place. */
  method CountsEnforced(x: Expected, entries: seq<Walked>) returns (accepted: bool)
    requires !x.wild && Alike(x, entries)
    ensures x.atmost == 0 || x.atleast <= x.atmost ==> (accepted <==> |entries| >= x.atleast)
    ensures 0 < x.atmost < x.atleast ==> (accepted <==> |entries| >= x.atmost)
  {
    hide Partial, Blocks, Alike, Takes;
    var c := new Checker([x]);
    c.Start();
    var i := 0;
    while i < |entries|
      invariant 0 <= i <= |entries| && fresh(c) && c.expected == [x] && c.Valid() && c.started && !c.failed
      invariant c.seen == entries[..i] && (i == 0 ==> c.values == map[])
    {
      if c.e == 0 { AlikeTaken(x, entries, i, c.bounds, c.atleast, c.atmost, c.values); }
      c.Check(entries[i]);
      assert entries[..i] + [entries[i]] == entries[..i + 1];
      i := i + 1;
    }
    assert c.seen == entries;
    EnoughSeen(x, c.e, c.seen, c.bounds, c.atleast, c.atmost, c.values);
    var ok := c.CheckEmpty();
    accepted := ok && !c.failed;
  }
}
