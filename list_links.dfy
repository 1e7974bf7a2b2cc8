/**
 * The next/prev links of the arena (struct pal_list_head, include/qwiet/platform/common/list.h:13-15),
 * as two sequences indexed by node, and what it means for them to realise a Layout: every list is
 * a genuine cycle head -> s[0] -> ... -> s[|s|-1] -> head in which n->next->prev == n and
 * n->prev->next == n.
 *
 * The lemmas here show that the handful of pointer writes each primitive change of shape needs
 * (cutting a run out, pasting a run in, making a node a head) keep the links consistent.
 */
module ListLinks {
  import opened ListLayout

  /** The links of nx/pv make h, s[0], ..., s[|s|-1] a cycle, in both directions. */
  ghost predicate Linked(nx: seq<int>, pv: seq<int>, h: int, s: seq<int>) {
    && |pv| == |nx|
    && 0 <= h < |nx|
    && (forall i | 0 <= i < |s| :: 0 <= s[i] < |nx|)
    && forall j | 0 <= j <= |s| ::
         nx[Before(h, s, j)] == After(h, s, j) && pv[After(h, s, j)] == Before(h, s, j)
  }

  /** The nodes of t are linked to each other in order (a run cut out of a list keeps this). */
  ghost predicate Chain(nx: seq<int>, pv: seq<int>, t: seq<int>) {
    && |pv| == |nx|
    && (forall i | 0 <= i < |t| :: 0 <= t[i] < |nx|)
    && forall i | 0 < i < |t| :: nx[t[i - 1]] == t[i] && pv[t[i]] == t[i - 1]
  }

  /** The links realise the layout g: g is well shaped and each of its lists is a cycle. */
  ghost predicate Realises(nx: seq<int>, pv: seq<int>, g: Layout) {
    && |nx| == |g.owner|
    && |pv| == |g.owner|
    && WellShaped(g)
    && forall h | h in g.lists :: Linked(nx, pv, h, g.lists[h])
  }

  // ---------------------------------------------------------------------------------------
  // Reading links
  // ---------------------------------------------------------------------------------------

  /** Distinct gaps of a list leave from distinct nodes and arrive at distinct nodes. */
  lemma GapsDistinct(h: int, s: seq<int>, j1: int, j2: int)
    requires Distinct(s) && h !in s
    requires 0 <= j1 <= |s| && 0 <= j2 <= |s| && j1 != j2
    ensures Before(h, s, j1) != Before(h, s, j2)
    ensures After(h, s, j1) != After(h, s, j2)
  {
  }

  /** Both ends of every gap of list h are owned by h. */
  lemma GapsOwned(g: Layout, h: int)
    requires WellShaped(g) && h in g.lists
    ensures forall j | 0 <= j <= |g.lists[h]| ::
      && 0 <= Before(h, g.lists[h], j) < |g.owner| && g.owner[Before(h, g.lists[h], j)] == h
      && 0 <= After(h, g.lists[h], j) < |g.owner| && g.owner[After(h, g.lists[h], j)] == h
  {
    assert HeadShaped(g, h);
  }

  /** A list's entries, and any run of them, are chained. */
  lemma ChainOfRun(nx: seq<int>, pv: seq<int>, h: int, s: seq<int>, a: int, b: int)
    requires Linked(nx, pv, h, s) && 0 <= a <= b <= |s|
    ensures Chain(nx, pv, s[a..b])
  {
    forall i | 0 < i < b - a ensures nx[s[a..b][i - 1]] == s[a..b][i] && pv[s[a..b][i]] == s[a..b][i - 1] {
      assert Before(h, s, a + i) == s[a..b][i - 1] && After(h, s, a + i) == s[a..b][i];
    }
  }

  /** Writing the links of free nodes changes no list. */
  lemma FreeWriteLinks(nx: seq<int>, pv: seq<int>, g: Layout, x: int, u: int, v: int)
    requires Realises(nx, pv, g) && IsFree(g, x)
    ensures Realises(nx[x := u], pv[x := v], g)
  {
    forall h | h in g.lists ensures Linked(nx[x := u], pv[x := v], h, g.lists[h]) {
      GapsOwned(g, h);
    }
  }

  /** Detaching a head writes nothing; its old entries stay chained. */
  lemma DetachLinks(nx: seq<int>, pv: seq<int>, g: Layout, x: int)
    requires Realises(nx, pv, g) && 0 <= x < |g.owner| && !IsEntry(g, x)
    ensures Realises(nx, pv, Detach(g, x)) && IsFree(Detach(g, x), x)
    ensures Detach(g, x).lists == g.lists - {x}
    ensures x in g.lists ==> AllFree(Detach(g, x), g.lists[x]) && Chain(nx, pv, g.lists[x])
    ensures forall m | 0 <= m < |g.owner| && g.owner[m] != x :: Detach(g, x).owner[m] == g.owner[m]
  {
    DetachShaped(g, x);
    if x in g.lists {
      ChainOfRun(nx, pv, x, g.lists[x], 0, |g.lists[x]|);
      assert g.lists[x][0..|g.lists[x]|] == g.lists[x];
    }
  }

  // ---------------------------------------------------------------------------------------
  // The primitive writes
  // ---------------------------------------------------------------------------------------

  /** Lists other than h are untouched by writes that only hit nodes of h and free nodes. */
  lemma OthersFrame(nx: seq<int>, pv: seq<int>, nx': seq<int>, pv': seq<int>, g: Layout, g': Layout, h: int)
    requires Realises(nx, pv, g) && |nx'| == |nx| && |pv'| == |pv|
    requires forall m | 0 <= m < |nx| && g.owner[m] != h && g.owner[m] != NULL ::
               nx'[m] == nx[m] && pv'[m] == pv[m]
    requires forall k | k in g'.lists && k != h :: k in g.lists && g'.lists[k] == g.lists[k]
    ensures forall k | k in g'.lists && k != h :: Linked(nx', pv', k, g'.lists[k])
  {
    forall k | k in g'.lists && k != h ensures Linked(nx', pv', k, g'.lists[k]) {
      GapsOwned(g, k);
    }
  }

  /** The two writes that cut s[a..b] out of the cycle h, s leave the rest a cycle and the run a chain. */
  lemma CutLinked(nx: seq<int>, pv: seq<int>, h: int, s: seq<int>, a: int, b: int)
    requires Linked(nx, pv, h, s) && Distinct(s) && h !in s && 0 <= a < b <= |s|
    ensures var p := Before(h, s, a);
            var n := After(h, s, b);
            && Linked(nx[p := n], pv[n := p], h, s[..a] + s[b..])
            && Chain(nx[p := n], pv[n := p], s[a..b])
  {
    var p := Before(h, s, a);
    var n := After(h, s, b);
    var nx', pv' := nx[p := n], pv[n := p];
    var s' := s[..a] + s[b..];
    forall j | 0 <= j <= |s'|
      ensures nx'[Before(h, s', j)] == After(h, s', j) && pv'[After(h, s', j)] == Before(h, s', j)
    {
      if j < a {
        assert Before(h, s', j) == Before(h, s, j) && After(h, s', j) == After(h, s, j);
        GapsDistinct(h, s, j, a);
        GapsDistinct(h, s, j, b);
      } else if j == a {
        assert Before(h, s', j) == p && After(h, s', j) == n;
      } else {
        var k := j + b - a;
        assert Before(h, s', j) == Before(h, s, k) && After(h, s', j) == After(h, s, k);
        GapsDistinct(h, s, k, a);
        GapsDistinct(h, s, k, b);
      }
    }
    forall i | 0 <= i < |s'| ensures 0 <= s'[i] < |nx| {
      if i < a { assert s'[i] == s[i]; } else { assert s'[i] == s[i + b - a]; }
    }
    forall i | 0 < i < b - a
      ensures nx'[s[a..b][i - 1]] == s[a..b][i] && pv'[s[a..b][i]] == s[a..b][i - 1]
    {
      assert s[a..b][i - 1] == Before(h, s, a + i) && s[a..b][i] == After(h, s, a + i);
      GapsDistinct(h, s, a + i, a);
      GapsDistinct(h, s, a + i, b);
    }
  }

  /**
   * Cutting the run s[a..b] out of list h needs two writes: the node before the run and the
   * node after it are linked to each other (__pal_list_del for a run of one). The run keeps its
   * inner links and its nodes become free.
   */
  lemma CutLinks(nx: seq<int>, pv: seq<int>, g: Layout, h: int, a: int, b: int)
    requires Realises(nx, pv, g) && h in g.lists && 0 <= a < b <= |g.lists[h]|
    ensures var s := g.lists[h];
            var p := Before(h, s, a);
            var n := After(h, s, b);
            && Realises(nx[p := n], pv[n := p], CutRun(g, h, a, b))
            && Chain(nx[p := n], pv[n := p], s[a..b])
            && AllFree(CutRun(g, h, a, b), s[a..b])
  {
    var s := g.lists[h];
    var p := Before(h, s, a);
    var n := After(h, s, b);
    assert HeadShaped(g, h);
    CutShaped(g, h, a, b);
    CutLinked(nx, pv, h, s, a, b);
    GapsOwned(g, h);
    OthersFrame(nx, pv, nx[p := n], pv[n := p], g, CutRun(g, h, a, b), h);
  }

  /** The four writes that paste the chain t into gap j of the cycle h, s. */
  lemma PasteLinked(nx: seq<int>, pv: seq<int>, h: int, s: seq<int>, j: int, t: seq<int>)
    requires Linked(nx, pv, h, s) && Distinct(s) && h !in s && 0 <= j <= |s|
    requires |t| > 0 && Chain(nx, pv, t) && Distinct(t) && h !in t
    requires forall i | 0 <= i < |t| :: t[i] !in s
    ensures var p := Before(h, s, j);
            var n := After(h, s, j);
            Linked(nx[p := t[0]][t[|t| - 1] := n], pv[t[0] := p][n := t[|t| - 1]], h, s[..j] + t + s[j..])
  {
    var p := Before(h, s, j);
    var n := After(h, s, j);
    var first, last := t[0], t[|t| - 1];
    var nx', pv' := nx[p := first][last := n], pv[first := p][n := last];
    var s' := s[..j] + t + s[j..];
    assert p != last && n != first;
    forall i | 0 <= i < |s'| ensures 0 <= s'[i] < |nx| {
      if i < j { assert s'[i] == s[i]; }
      else if i < j + |t| { assert s'[i] == t[i - j]; }
      else { assert s'[i] == s[i - |t|]; }
    }
    forall k | 0 <= k <= |s'|
      ensures nx'[Before(h, s', k)] == After(h, s', k) && pv'[After(h, s', k)] == Before(h, s', k)
    {
      if k < j {
        assert Before(h, s', k) == Before(h, s, k) && After(h, s', k) == After(h, s, k);
        GapsDistinct(h, s, k, j);
      } else if k == j {
        assert Before(h, s', k) == p && After(h, s', k) == first;
      } else if k < j + |t| {
        assert Before(h, s', k) == t[k - j - 1] && After(h, s', k) == t[k - j];
        assert t[k - j - 1] != p && t[k - j - 1] != last;
        assert t[k - j] != n && t[k - j] != first;
      } else if k == j + |t| {
        assert Before(h, s', k) == last && After(h, s', k) == n;
      } else {
        var l := k - |t|;
        assert Before(h, s', k) == Before(h, s, l) && After(h, s', k) == After(h, s, l);
        GapsDistinct(h, s, l, j);
      }
    }
  }

  /**
   * Pasting the chained free run t into gap j of list h needs four writes: the node before the
   * gap and the first of t, and the last of t and the node after the gap, are linked to each
   * other (__pal_list_add for a run of one, __pal_list_splice for a whole list).
   */
  lemma PasteLinks(nx: seq<int>, pv: seq<int>, g: Layout, h: int, j: int, t: seq<int>)
    requires Realises(nx, pv, g) && h in g.lists && 0 <= j <= |g.lists[h]|
    requires |t| > 0 && Distinct(t) && AllFree(g, t) && Chain(nx, pv, t)
    ensures var s := g.lists[h];
            var p := Before(h, s, j);
            var n := After(h, s, j);
            Realises(nx[p := t[0]][t[|t| - 1] := n], pv[t[0] := p][n := t[|t| - 1]], PasteRun(g, h, j, t))
  {
    var s := g.lists[h];
    var p := Before(h, s, j);
    var n := After(h, s, j);
    assert HeadShaped(g, h);
    PasteShaped(g, h, j, t);
    GapsOwned(g, h);
    forall i | 0 <= i < |t| ensures t[i] !in s && t[i] != h {
      assert IsFree(g, t[i]);
      forall l | 0 <= l < |s| ensures s[l] != t[i] {
        assert g.owner[s[l]] == h;
      }
    }
    PasteLinked(nx, pv, h, s, j, t);
    OthersFrame(nx, pv, nx[p := t[0]][t[|t| - 1] := n], pv[t[0] := p][n := t[|t| - 1]], g, PasteRun(g, h, j, t), h);
  }

  /** Making the free node x the head of the chained free run t (pal_list_init when t is empty). */
  lemma MakeHeadLinks(nx: seq<int>, pv: seq<int>, g: Layout, x: int, t: seq<int>)
    requires Realises(nx, pv, g) && IsFree(g, x)
    requires Distinct(t) && AllFree(g, t) && x !in t && Chain(nx, pv, t)
    ensures t == [] ==> Realises(nx[x := x], pv[x := x], MakeHead(g, x, t))
    ensures t != [] ==>
      Realises(nx[x := t[0]][t[|t| - 1] := x], pv[t[0] := x][x := t[|t| - 1]], MakeHead(g, x, t))
  {
    MakeHeadShaped(g, x, t);
    var g' := MakeHead(g, x, t);
    var nx', pv' := if t == [] then nx[x := x] else nx[x := t[0]][t[|t| - 1] := x],
                    if t == [] then pv[x := x] else pv[t[0] := x][x := t[|t| - 1]];
    HeadCycle(nx, pv, x, t);
    assert forall i | 0 <= i < |t| :: g.owner[t[i]] == NULL;
    assert forall m | 0 <= m < |nx| && g.owner[m] != x && g.owner[m] != NULL ::
             nx'[m] == nx[m] && pv'[m] == pv[m];
    OthersFrame(nx, pv, nx', pv', g, g', x);
  }

  /** Linking x to the two ends of the chain t (to itself when t is empty) closes a cycle. */
  lemma HeadCycle(nx: seq<int>, pv: seq<int>, x: int, t: seq<int>)
    requires 0 <= x < |nx| && x !in t && Distinct(t) && Chain(nx, pv, t)
    ensures t == [] ==> Linked(nx[x := x], pv[x := x], x, t)
    ensures t != [] ==> Linked(nx[x := t[0]][t[|t| - 1] := x], pv[t[0] := x][x := t[|t| - 1]], x, t)
  {
    var nx', pv' := if t == [] then nx[x := x] else nx[x := t[0]][t[|t| - 1] := x],
                    if t == [] then pv[x := x] else pv[t[0] := x][x := t[|t| - 1]];
    forall k | 0 <= k <= |t|
      ensures nx'[Before(x, t, k)] == After(x, t, k) && pv'[After(x, t, k)] == Before(x, t, k)
    {
      if 0 < k < |t| {
        assert t[k - 1] != t[|t| - 1] && t[k] != t[0];
      }
    }
  }
}
