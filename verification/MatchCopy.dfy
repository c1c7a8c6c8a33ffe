/** Match copies: the byte-by-byte copy that defines a match, and why copying whole blocks
    from a distance that is a multiple of the offset gives the same bytes. */
module MatchCopy {
  import opened Bytes

  /** Append `n` bytes, each the byte `offset` positions back. Offset zero, which the format
      forbids, yields zero bytes: the optimised decoder clears the first word of such a match
      and then copies from it. */
  function CopyMatch(out: seq<Byte>, offset: nat, n: nat): (r: seq<Byte>)
    requires offset <= |out|
    ensures |r| == |out| + n && r[..|out|] == out
    decreases n
  {
    if n == 0 then out
    else
      var r := CopyMatch(out, offset, n - 1);
      r + [if offset == 0 then 0 else r[|r| - offset]]
  }

  /** Every copied byte equals the byte `offset` before it. */
  lemma {:induction false} CopiedByte(out: seq<Byte>, offset: nat, n: nat, i: nat)
    requires 1 <= offset <= |out| <= i < |out| + n
    ensures CopyMatch(out, offset, n)[i] == CopyMatch(out, offset, n)[i - offset]
    decreases n
  {
    if i < |out| + n - 1 { CopiedByte(out, offset, n - 1, i); }
  }

  lemma {:induction false} ZeroByte(out: seq<Byte>, n: nat, i: nat)
    requires |out| <= i < |out| + n
    ensures CopyMatch(out, 0, n)[i] == 0
    decreases n
  {
    if i < |out| + n - 1 { ZeroByte(out, n - 1, i); }
  }

  ghost predicate Multiple(offset: nat, d: nat)
    requires offset > 0
    decreases d
  {
    d == 0 || (offset <= d && Multiple(offset, d - offset))
  }

  /** Stepping back a multiple of the offset changes nothing while the match source is not left. */
  lemma {:induction false} PeriodicByte(out: seq<Byte>, offset: nat, n: nat, i: nat, d: nat)
    requires 1 <= offset <= |out| && Multiple(offset, d)
    requires 0 <= |out| - offset <= i - d && i < |out| + n
    ensures CopyMatch(out, offset, n)[i] == CopyMatch(out, offset, n)[i - d]
    decreases d
  {
    if d > 0 {
      PeriodicByte(out, offset, n, i - offset, d - offset);
      CopiedByte(out, offset, n, i);
    }
  }

  lemma {:induction false} CopyPrefix(out: seq<Byte>, offset: nat, m: nat, n: nat)
    requires offset <= |out| && m <= n
    ensures CopyMatch(out, offset, n)[..|out| + m] == CopyMatch(out, offset, m)
    decreases n
  {
    if m < n { CopyPrefix(out, offset, m, n - 1); }
  }

  /** A distance from which whole blocks may be copied when `m` bytes of the match are done: a
      multiple of the offset that reaches no further back than the match source. For the forbidden
      offset zero any distance into the zeros will do. */
  ghost predicate GoodDistance(offset: nat, m: nat, d: nat)
  {
    && d <= m + offset
    && (offset > 0 ==> Multiple(offset, d))
  }

  lemma {:induction false} BlockByte(out: seq<Byte>, offset: nat, m: nat, d: nat, n: nat, i: nat)
    requires offset <= |out| && GoodDistance(offset, m, d)
    requires |out| + m <= i < |out| + m + n && i < |out| + m + d
    ensures CopyMatch(out, offset, m + n)[i] == CopyMatch(out, offset, m + n)[i - d]
  {
    if offset == 0 {
      ZeroByte(out, m + n, i);
      ZeroByte(out, m + n, i - d);
    } else {
      PeriodicByte(out, offset, m + n, i, d);
    }
  }

  /** Copying a block of `n` bytes from such a distance continues the byte-by-byte copy. */
  lemma {:induction false} BlockCopy(out: seq<Byte>, offset: nat, m: nat, d: nat, n: nat)
    requires offset <= |out| && GoodDistance(offset, m, d) && n <= d
    ensures
      var cur := CopyMatch(out, offset, m);
      CopyMatch(out, offset, m + n) == cur + cur[|cur| - d..|cur| - d + n]
  {
    hide CopyMatch, Multiple;
    var cur := CopyMatch(out, offset, m);
    var all := CopyMatch(out, offset, m + n);
    CopyPrefix(out, offset, m, m + n);
    forall i | |cur| <= i < |all| ensures all[i] == cur[i - d] {
      BlockByte(out, offset, m, d, n, i);
      assert all[..|cur|][i - d] == cur[i - d];
    }
  }

  // ------------------------------------------------- the same, as a property

  ghost predicate CopiedAt(all: seq<Byte>, offset: nat, i: nat)
    requires offset <= i < |all|
  {
    all[i] == if offset == 0 then 0 else all[i - offset]
  }

  /** `all` is `out` followed by part of a match at `offset`. */
  ghost predicate Copied(all: seq<Byte>, out: seq<Byte>, offset: nat)
  {
    && offset <= |out| <= |all|
    && all[..|out|] == out
    && forall i :: |out| <= i < |all| ==> CopiedAt(all, offset, i)
  }

  lemma MatchIsCopied(out: seq<Byte>, offset: nat, n: nat)
    requires offset <= |out|
    ensures Copied(CopyMatch(out, offset, n), out, offset)
  {
    hide CopyMatch;
    var all := CopyMatch(out, offset, n);
    forall i | |out| <= i < |all| ensures CopiedAt(all, offset, i) {
      if offset == 0 { ZeroByte(out, n, i); } else { CopiedByte(out, offset, n, i); }
    }
  }

  lemma {:induction false} CopiedIsMatch(all: seq<Byte>, out: seq<Byte>, offset: nat)
    requires offset <= |out| <= |all|
    ensures Copied(all, out, offset) <==> all == CopyMatch(out, offset, |all| - |out|)
    decreases |all|
  {
    var n := |all| - |out|;
    if all == CopyMatch(out, offset, n) { MatchIsCopied(out, offset, n); }
    if Copied(all, out, offset) && n > 0 {
      CopiedPrefix(all, |all| - 1, out, offset);
      CopiedIsMatch(all[..|all| - 1], out, offset);
      assert CopiedAt(all, offset, |all| - 1);
      assert all == all[..|all| - 1] + [all[|all| - 1]];
    }
  }

  /** What was copied past the end does not matter. */
  lemma {:induction false} CopiedPrefix(all: seq<Byte>, e: nat, out: seq<Byte>, offset: nat)
    requires Copied(all, out, offset) && |out| <= e <= |all|
    ensures Copied(all[..e], out, offset)
  {
    forall i | |out| <= i < e ensures CopiedAt(all[..e], offset, i) {
      assert CopiedAt(all, offset, i);
    }
  }

  /** A match under way: nothing is copied yet, and the offset itself is a good distance. */
  lemma CopiedStart(out: seq<Byte>, offset: nat)
    requires 0 < offset <= |out|
    ensures Copied(out, out, offset) && forall m: nat :: GoodDistance(offset, m, offset)
  {
    assert Multiple(offset, 0);
  }

  lemma {:induction false} CopiedBlock(cur: seq<Byte>, out: seq<Byte>, offset: nat, d: nat, n: nat)
    requires Copied(cur, out, offset) && GoodDistance(offset, |cur| - |out|, d) && n <= d
    ensures Copied(cur + cur[|cur| - d..|cur| - d + n], out, offset)
  {
    hide CopyMatch, CopiedAt, Multiple;
    CopiedIsMatch(cur, out, offset);
    BlockCopy(out, offset, |cur| - |out|, d, n);
    CopiedIsMatch(cur + cur[|cur| - d..|cur| - d + n], out, offset);
  }
}
