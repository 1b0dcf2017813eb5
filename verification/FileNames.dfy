/** A directory's names, symbolic links among them, and the names a publish uses. */
module FileNames {
  import opened Collections
  import Decimal

  // A directory holds named contents, each content told apart by a number.
  datatype Node = Dir(entries: map<string, nat>) | Link(target: string) | File

  type Names = map<string, Node>

  // ---- Following links ----

  // The kernel gives up after this many links (ELOOP).
  const LINK_LIMIT: nat := 40

  // The name reached from n by following at most k links.
  function Chase(fs: Names, n: string, k: nat): Option<string>
    decreases k
  {
    if n !in fs then None
    else if !fs[n].Link? then Some(n)
    else if k == 0 then None
    else Chase(fs, fs[n].target, k - 1)
  }

  function Resolve(fs: Names, n: string): Option<string> {
    Chase(fs, n, LINK_LIMIT)
  }

  // os.path.exists
  predicate Exists(fs: Names, n: string) {
    Resolve(fs, n).Some?
  }

  // The names met on the way, n included.
  function Trail(fs: Names, n: string, k: nat): set<string>
    decreases k
  {
    {n} + if n in fs && fs[n].Link? && k > 0 then Trail(fs, fs[n].target, k - 1) else {}
  }

  // Only the names on the trail matter.
  lemma {:induction false} ChaseAgree(fs: Names, fs': Names, n: string, k: nat)
    requires forall y :: y in Trail(fs, n, k) ==> (y in fs <==> y in fs') && (y in fs ==> fs[y] == fs'[y])
    ensures Chase(fs', n, k) == Chase(fs, n, k)
    ensures Trail(fs', n, k) == Trail(fs, n, k)
    decreases k
  {
    assert n in Trail(fs, n, k);
    if n in fs && fs[n].Link? && k > 0 {
      ChaseAgree(fs, fs', fs[n].target, k - 1);
    }
  }

  lemma {:induction false} LiveTrailExists(fs: Names, n: string, k: nat)
    requires Chase(fs, n, k).Some?
    ensures forall y :: y in Trail(fs, n, k) ==> y in fs
    decreases k
  {
    if fs[n].Link? {
      LiveTrailExists(fs, fs[n].target, k - 1);
    }
  }

  // New names do not disturb what already resolves.
  lemma ChaseGrows(fs: Names, fs': Names, n: string, k: nat)
    requires Chase(fs, n, k).Some?
    requires forall y :: y in fs ==> y in fs' && fs'[y] == fs[y]
    ensures Chase(fs', n, k) == Chase(fs, n, k) && Trail(fs', n, k) == Trail(fs, n, k)
  {
    LiveTrailExists(fs, n, k);
    ChaseAgree(fs, fs', n, k);
  }

  // The absent name a trail ends at, if it does.
  function MissingEnd(fs: Names, n: string, k: nat): Option<string>
    decreases k
  {
    if n !in fs then Some(n)
    else if fs[n].Link? && k > 0 then MissingEnd(fs, fs[n].target, k - 1)
    else None
  }

  // Making the absent name x changes a resolution only if the trail ended at x.
  lemma {:induction false} ChaseAfterNew(fs: Names, x: string, node: Node, n: string, k: nat)
    requires x !in fs
    ensures MissingEnd(fs, n, k) != Some(x) ==>
              Chase(fs[x := node], n, k) == Chase(fs, n, k) && MissingEnd(fs[x := node], n, k) == MissingEnd(fs, n, k)
    ensures MissingEnd(fs, n, k) == Some(x) && !node.Link? ==>
              Chase(fs, n, k) == None && Chase(fs[x := node], n, k) == Some(x)
    ensures MissingEnd(fs, n, k) == Some(x) && node.Link? && node.target in fs && !fs[node.target].Link? ==>
              Chase(fs, n, k) == None && Chase(fs[x := node], n, k) in {None, Some(node.target)}
    decreases k
  {
    if n in fs && fs[n].Link? && k > 0 {
      ChaseAfterNew(fs, x, node, fs[n].target, k - 1);
    }
  }

  // A link is never met twice on a trail that ends: a name that leads back to
  // itself resolves to nothing.
  lemma {:induction false} LoopResolvesToNothing(fs: Names, n: string, k: nat)
    requires n in fs && fs[n].Link? && exists j: nat :: n in Trail(fs, fs[n].target, j)
    ensures Chase(fs, n, k) == None
    decreases k, 0
  {
    if k > 0 {
      var j: nat :| n in Trail(fs, fs[n].target, j);
      LoopTail(fs, n, fs[n].target, j, k - 1);
    }
  }

  lemma {:induction false} LoopTail(fs: Names, n: string, x: string, j: nat, k: nat)
    requires n in fs && fs[n].Link? && n in Trail(fs, x, j) && exists i: nat :: n in Trail(fs, fs[n].target, i)
    ensures Chase(fs, x, k) == None
    decreases k, 1
  {
    if x == n {
      LoopResolvesToNothing(fs, n, k);
    } else if k > 0 {
      LoopTail(fs, n, fs[x].target, j - 1, k - 1);
    }
  }

  // ---- The names a publish of dst uses ----

  // What strftime("%Y-%m-%d") gives.
  predicate IsDate(date: string) {
    |date| == 10 && Decimal.IsDigit(date[0])
  }

  function Dated(dst: string, date: string, i: nat): string {
    dst + "." + date + "." + Decimal.Render(i)
  }

  function Temporary(dst: string, i: nat): string {
    dst + ".TMP." + Decimal.Render(i)
  }

  function OldName(dst: string): string {
    dst + ".old"
  }

  // The third loop never advances its counter: this is the only name it tries.
  function OldTemporary(dst: string): string {
    dst + ".old." + Decimal.Render(0)
  }

  lemma NamesDistinct(dst: string, date: string, i: nat, j: nat)
    requires IsDate(date)
    ensures Dated(dst, date, i) !in {dst, Temporary(dst, j), OldName(dst), OldTemporary(dst)}
    ensures Temporary(dst, j) !in {dst, OldName(dst), OldTemporary(dst)}
    ensures OldTemporary(dst) != OldName(dst) && OldName(dst) != dst && OldTemporary(dst) != dst
    ensures OldName(dst) == dst + ".old" && OldTemporary(dst) == dst + ".old.0" && Temporary(dst, 0) == dst + ".TMP.0"
  {
    var p := |dst| + 1;
    assert Dated(dst, date, i)[p] == date[0];
    assert Temporary(dst, j)[p] == 'T';
    assert OldName(dst)[p] == 'o' && OldTemporary(dst)[p] == 'o';
    assert |OldName(dst)| == |dst| + 4 && |OldTemporary(dst)| > |dst| + 4;
  }

  lemma DatedInjective(dst: string, date: string, i: nat, date': string, i': nat)
    requires IsDate(date) && IsDate(date') && i != i'
    ensures Dated(dst, date, i) != Dated(dst, date', i')
  {
    var p := |dst| + 12;
    assert Dated(dst, date, i)[p..] == Decimal.Render(i);
    assert Dated(dst, date', i')[p..] == Decimal.Render(i');
    Decimal.RenderInjective(i, i');
  }

  lemma TemporaryInjective(dst: string, i: nat, i': nat)
    requires i != i'
    ensures Temporary(dst, i) != Temporary(dst, i')
  {
    var p := |dst| + 5;
    assert Temporary(dst, i)[p..] == Decimal.Render(i);
    assert Temporary(dst, i')[p..] == Decimal.Render(i');
    Decimal.RenderInjective(i, i');
  }
}
