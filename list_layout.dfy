/**
 * The abstract shape of an arena of intrusive list nodes (include/qwiet/platform/common/list.h).
 *
 * Nodes are named by their index in the arena. A node is in exactly one of three states:
 *  - a head: the sentinel of a list, whose entries are the nodes reached from head->next
 *    until the head comes round again;
 *  - an entry of exactly one list;
 *  - free: linked into nothing (never initialised, or left by pal_list_del with NULL links).
 *
 * This module holds only the bookkeeping (which list holds which nodes, in which order) and
 * the few primitive changes every list operation is built from. The links themselves are in
 * ListLinks.
 */
module ListLayout {

  /** The NULL pointer that pal_list_del writes into a removed entry, and the owner of a free node. */
  const NULL: int := -1

  /**
   * lists[h] is the sequence of entries of the list whose head is h;
   * owner[n] is the head of the list holding n (n itself when n is a head), or NULL when n is free.
   */
  datatype Layout = Layout(lists: map<int, seq<int>>, owner: seq<int>)

  ghost predicate Distinct(s: seq<int>) {
    forall i, j | 0 <= i < j < |s| :: s[i] != s[j]
  }

  /** Head h owns itself and exactly the distinct entries of its list. */
  ghost predicate HeadShaped(g: Layout, h: int)
    requires h in g.lists
  {
    && 0 <= h < |g.owner|
    && g.owner[h] == h
    && h !in g.lists[h]
    && Distinct(g.lists[h])
    && forall i | 0 <= i < |g.lists[h]| :: 0 <= g.lists[h][i] < |g.owner| && g.owner[g.lists[h][i]] == h
  }

  /** Every list is well formed and every owned node is a head or an entry of its owner: lists are disjoint. */
  ghost predicate WellShaped(g: Layout) {
    && (forall h | h in g.lists :: HeadShaped(g, h))
    && (forall m | 0 <= m < |g.owner| && g.owner[m] != NULL ::
          g.owner[m] in g.lists && (g.owner[m] == m || m in g.lists[g.owner[m]]))
  }

  ghost predicate IsFree(g: Layout, n: int) {
    0 <= n < |g.owner| && g.owner[n] == NULL
  }

  /** n is a head or an entry of some list. */
  ghost predicate IsLinked(g: Layout, n: int) {
    0 <= n < |g.owner| && g.owner[n] != NULL
  }

  ghost predicate IsEntry(g: Layout, n: int) {
    0 <= n < |g.owner| && g.owner[n] != NULL && g.owner[n] != n
  }

  /** n links nothing but possibly itself: free, or the head of an empty list (self-pointing). */
  ghost predicate Detached(g: Layout, n: int) {
    IsFree(g, n) || (n in g.lists && g.lists[n] == [])
  }

  /** n is an entry, or the head of an empty list (self-pointing): unlinking it is well defined. */
  ghost predicate Unlinkable(g: Layout, n: int) {
    IsEntry(g, n) || (n in g.lists && g.lists[n] == [])
  }

  ghost predicate AllFree(g: Layout, t: seq<int>) {
    forall i | 0 <= i < |t| :: IsFree(g, t[i])
  }

  /**
   * The cycle of a list is h, s[0], ..., s[|s|-1], h. Gap j (0 <= j <= |s|) is the link from
   * Before(h, s, j) to After(h, s, j): gap 0 leaves the head, gap |s| returns to it.
   */
  ghost function Before(h: int, s: seq<int>, j: int): int
    requires 0 <= j <= |s|
  {
    if j == 0 then h else s[j - 1]
  }

  ghost function After(h: int, s: seq<int>, j: int): int
    requires 0 <= j <= |s|
  {
    if j == |s| then h else s[j]
  }

  /** The position of x in s. */
  ghost function IndexOf(s: seq<int>, x: int): (i: nat)
    requires x in s
    ensures i < |s| && s[i] == x
  {
    if s[0] == x then 0 else 1 + IndexOf(s[1..], x)
  }

  /** owner with every node of s given owner v. */
  ghost function Assign(owner: seq<int>, s: seq<int>, v: int): (r: seq<int>)
    ensures |r| == |owner|
  {
    seq(|owner|, m requires 0 <= m < |owner| => if m in s then v else owner[m])
  }

  // ---------------------------------------------------------------------------------------
  // The primitive changes of shape
  // ---------------------------------------------------------------------------------------

  /** x stops being a head: it and the entries it held become free (their links are stale). */
  ghost function Detach(g: Layout, x: int): Layout {
    if x in g.lists then Layout(g.lists - {x}, Assign(g.owner, [x] + g.lists[x], NULL)) else g
  }

  /** The free node x becomes the head of a list holding the free nodes t. */
  ghost function MakeHead(g: Layout, x: int, t: seq<int>): Layout {
    Layout(g.lists[x := t], Assign(g.owner, [x] + t, x))
  }

  /** The run s[a..b] of list h is taken out of it; its nodes become free. */
  ghost function CutRun(g: Layout, h: int, a: int, b: int): Layout
    requires h in g.lists && 0 <= a <= b <= |g.lists[h]|
  {
    var s := g.lists[h];
    Layout(g.lists[h := s[..a] + s[b..]], Assign(g.owner, s[a..b], NULL))
  }

  /** The free nodes t are put into gap j of list h. */
  ghost function PasteRun(g: Layout, h: int, j: int, t: seq<int>): Layout
    requires h in g.lists && 0 <= j <= |g.lists[h]|
  {
    var s := g.lists[h];
    Layout(g.lists[h := s[..j] + t + s[j..]], Assign(g.owner, t, h))
  }

  // ---------------------------------------------------------------------------------------
  // Shape lemmas
  // ---------------------------------------------------------------------------------------

  lemma DistinctAppend(a: seq<int>, b: seq<int>)
    requires Distinct(a) && Distinct(b)
    requires forall i | 0 <= i < |a| :: a[i] !in b
    ensures Distinct(a + b)
  {
    forall i, j | 0 <= i < j < |a + b| ensures (a + b)[i] != (a + b)[j] {
      if j >= |a| && i < |a| {
        assert (a + b)[j] == b[j - |a|];
      }
    }
  }

  lemma DistinctSlice(s: seq<int>, a: int, b: int)
    requires Distinct(s) && 0 <= a <= b <= |s|
    ensures Distinct(s[a..b])
  {
    forall i, j | 0 <= i < j < b - a ensures s[a..b][i] != s[a..b][j] {
      assert s[a..b][i] == s[a + i] && s[a..b][j] == s[a + j];
    }
  }

  /** Removing a run keeps the rest distinct and apart from the run. */
  lemma DistinctCut(s: seq<int>, a: int, b: int)
    requires Distinct(s) && 0 <= a <= b <= |s|
    ensures Distinct(s[..a] + s[b..])
    ensures forall m :: m in s[..a] + s[b..] ==> m in s && m !in s[a..b]
    ensures forall m :: m in s ==> m in s[..a] + s[b..] || m in s[a..b]
  {
    DistinctSlice(s, 0, a);
    DistinctSlice(s, b, |s|);
    assert s[..a] == s[0..a] && s[b..] == s[b..|s|];
    DistinctAppend(s[..a], s[b..]);
    forall m | m in s ensures m in s[..a] + s[b..] || m in s[a..b] {
      var i := IndexOf(s, m);
      if i < a { assert s[..a][i] == m; }
      else if i < b { assert s[a..b][i - a] == m; }
      else { assert s[b..][i - b] == m; }
    }
    forall m | m in s[..a] + s[b..] ensures m in s && m !in s[a..b] {
      var r := s[..a] + s[b..];
      var i := IndexOf(r, m);
      var k := if i < a then i else i - a + b;
      assert s[k] == m;
      forall l | 0 <= l < b - a ensures s[a..b][l] != m {
        assert s[a..b][l] == s[a + l];
      }
    }
  }

  /** Putting a run of fresh distinct nodes into a gap keeps the sequence distinct. */
  lemma DistinctPaste(s: seq<int>, j: int, t: seq<int>)
    requires Distinct(s) && Distinct(t) && 0 <= j <= |s|
    requires forall i | 0 <= i < |t| :: t[i] !in s
    ensures Distinct(s[..j] + t + s[j..])
    ensures forall m :: m in s[..j] + t + s[j..] <==> m in s || m in t
  {
    DistinctSlice(s, 0, j);
    DistinctSlice(s, j, |s|);
    assert s[..j] == s[0..j] && s[j..] == s[j..|s|];
    assert s == s[..j] + s[j..];
    DistinctAppend(s[..j], t);
    forall i | 0 <= i < |s[..j] + t| ensures (s[..j] + t)[i] !in s[j..] {
      if i < j {
        assert (s[..j] + t)[i] == s[i];
        forall l | 0 <= l < |s| - j ensures s[j..][l] != s[i] {
          assert s[j..][l] == s[j + l];
        }
      } else {
        assert (s[..j] + t)[i] == t[i - j];
      }
    }
    DistinctAppend(s[..j] + t, s[j..]);
  }

  lemma DetachShaped(g: Layout, x: int)
    requires WellShaped(g) && 0 <= x < |g.owner| && !IsEntry(g, x)
    ensures WellShaped(Detach(g, x)) && IsFree(Detach(g, x), x)
    ensures |Detach(g, x).owner| == |g.owner|
    ensures x in g.lists ==> AllFree(Detach(g, x), g.lists[x])
    ensures Detach(g, x).lists == g.lists - {x}
    ensures forall m | 0 <= m < |g.owner| && g.owner[m] != x :: Detach(g, x).owner[m] == g.owner[m]
  {
    if x in g.lists {
      var d := Detach(g, x);
      var c := [x] + g.lists[x];
      assert forall m | 0 <= m < |g.owner| :: m in c ==> g.owner[m] == x by {
        forall m | 0 <= m < |g.owner| && m in c ensures g.owner[m] == x {
          if m != x { var i := IndexOf(g.lists[x], m); }
        }
      }
      forall h | h in d.lists ensures HeadShaped(d, h) {
        assert HeadShaped(g, h);
        forall i | 0 <= i < |d.lists[h]| ensures d.owner[d.lists[h][i]] == h {
          assert g.owner[g.lists[h][i]] == h;
        }
      }
    }
  }

  lemma MakeHeadShaped(g: Layout, x: int, t: seq<int>)
    requires WellShaped(g) && IsFree(g, x) && Distinct(t) && AllFree(g, t) && x !in t
    ensures WellShaped(MakeHead(g, x, t))
  {
    var d := MakeHead(g, x, t);
    var c := [x] + t;
    assert forall m | 0 <= m < |g.owner| && m in c :: g.owner[m] == NULL by {
      forall m | 0 <= m < |g.owner| && m in c ensures g.owner[m] == NULL {
        if m != x { var i := IndexOf(t, m); }
      }
    }
    forall h | h in d.lists ensures HeadShaped(d, h) {
      if h != x {
        assert HeadShaped(g, h);
        forall i | 0 <= i < |d.lists[h]| ensures d.owner[d.lists[h][i]] == h {
          assert g.owner[g.lists[h][i]] == h;
        }
      } else {
        forall i | 0 <= i < |t| ensures 0 <= t[i] < |d.owner| && d.owner[t[i]] == x {
          assert IsFree(g, t[i]);
        }
      }
    }
    forall m | 0 <= m < |d.owner| && d.owner[m] != NULL
      ensures d.owner[m] in d.lists && (d.owner[m] == m || m in d.lists[d.owner[m]])
    {
      if m !in c {
        assert g.owner[m] != x;
      }
    }
  }

  lemma CutShaped(g: Layout, h: int, a: int, b: int)
    requires WellShaped(g) && h in g.lists && 0 <= a <= b <= |g.lists[h]|
    ensures WellShaped(CutRun(g, h, a, b))
    ensures AllFree(CutRun(g, h, a, b), g.lists[h][a..b])
  {
    var s := g.lists[h];
    var d := CutRun(g, h, a, b);
    assert HeadShaped(g, h);
    DistinctCut(s, a, b);
    forall i | 0 <= i < b - a ensures IsFree(d, s[a..b][i]) {
      assert s[a..b][i] == s[a + i];
    }
    forall k | k in d.lists ensures HeadShaped(d, k) {
      assert HeadShaped(g, k);
      if k == h {
        forall i | 0 <= i < |d.lists[h]| ensures 0 <= d.lists[h][i] < |d.owner| && d.owner[d.lists[h][i]] == h {
          var m := d.lists[h][i];
          assert m in s[..a] + s[b..];
          var l := IndexOf(s, m);
        }
      } else {
        forall i | 0 <= i < |d.lists[k]| ensures d.owner[d.lists[k][i]] == k {
          var m := g.lists[k][i];
          assert g.owner[m] == k;
          forall l | 0 <= l < b - a ensures s[a..b][l] != m {
            assert s[a..b][l] == s[a + l];
            assert g.owner[s[a + l]] == h;
          }
        }
      }
    }
    forall m | 0 <= m < |d.owner| && d.owner[m] != NULL
      ensures d.owner[m] in d.lists && (d.owner[m] == m || m in d.lists[d.owner[m]])
    {
      assert m !in s[a..b];
      if g.owner[m] == h && m != h {
        assert m in s;
      }
    }
  }

  lemma PasteShaped(g: Layout, h: int, j: int, t: seq<int>)
    requires WellShaped(g) && h in g.lists && 0 <= j <= |g.lists[h]|
    requires Distinct(t) && AllFree(g, t)
    ensures WellShaped(PasteRun(g, h, j, t))
  {
    var s := g.lists[h];
    var d := PasteRun(g, h, j, t);
    assert HeadShaped(g, h);
    assert forall m | 0 <= m < |g.owner| && m in t :: g.owner[m] == NULL by {
      forall m | 0 <= m < |g.owner| && m in t ensures g.owner[m] == NULL {
        var i := IndexOf(t, m);
      }
    }
    forall i | 0 <= i < |t| ensures t[i] !in s {
      assert IsFree(g, t[i]);
      forall l | 0 <= l < |s| ensures s[l] != t[i] {
        assert g.owner[s[l]] == h;
      }
    }
    DistinctPaste(s, j, t);
    forall k | k in d.lists ensures HeadShaped(d, k) {
      assert HeadShaped(g, k);
      if k == h {
        forall i | 0 <= i < |d.lists[h]| ensures 0 <= d.lists[h][i] < |d.owner| && d.owner[d.lists[h][i]] == h {
          var m := d.lists[h][i];
          assert m in s[..j] + t + s[j..];
          if m in s { var l := IndexOf(s, m); } else { var l := IndexOf(t, m); }
        }
        assert h !in t;
      } else {
        forall i | 0 <= i < |d.lists[k]| ensures d.owner[d.lists[k][i]] == k {
          assert g.owner[g.lists[k][i]] == k;
        }
      }
    }
    forall m | 0 <= m < |d.owner| && d.owner[m] != NULL
      ensures d.owner[m] in d.lists && (d.owner[m] == m || m in d.lists[d.owner[m]])
    {
      if m !in t && g.owner[m] == h && m != h {
        assert m in s;
      }
    }
  }

  // ---------------------------------------------------------------------------------------
  // The primitives undo each other
  // ---------------------------------------------------------------------------------------

  /** In a sequence without repetitions, the position of s[i] is i. */
  lemma {:induction false} IndexOfDistinct(s: seq<int>, i: int)
    requires Distinct(s) && 0 <= i < |s|
    ensures IndexOf(s, s[i]) == i
  {
    if i > 0 {
      assert s[0] != s[i];
      assert Distinct(s[1..]) by {
        forall a, b | 0 <= a < b < |s[1..]| ensures s[1..][a] != s[1..][b] {
          assert s[1..][a] == s[a + 1] && s[1..][b] == s[b + 1];
        }
      }
      IndexOfDistinct(s[1..], i - 1);
    }
  }

  /** Pasting a cut run back where it was cut from restores the layout. */
  lemma CutPasteInverse(g: Layout, h: int, a: int, b: int)
    requires WellShaped(g) && h in g.lists && 0 <= a <= b <= |g.lists[h]|
    ensures PasteRun(CutRun(g, h, a, b), h, a, g.lists[h][a..b]) == g
  {
    var s := g.lists[h];
    var c := CutRun(g, h, a, b);
    var r := PasteRun(c, h, a, s[a..b]);
    assert HeadShaped(g, h);
    assert (s[..a] + s[b..])[..a] + s[a..b] + (s[..a] + s[b..])[a..] == s;
    assert r.lists == g.lists;
    forall m | 0 <= m < |g.owner| ensures r.owner[m] == g.owner[m] {
      if m in s[a..b] {
        var i := IndexOf(s[a..b], m);
        assert s[a + i] == m;
      }
    }
  }

  /** Cutting a pasted run of free nodes out again restores the layout. */
  lemma PasteCutInverse(g: Layout, h: int, j: int, t: seq<int>)
    requires WellShaped(g) && h in g.lists && 0 <= j <= |g.lists[h]| && AllFree(g, t)
    ensures PasteRun(g, h, j, t).lists[h][j..j + |t|] == t
    ensures CutRun(PasteRun(g, h, j, t), h, j, j + |t|) == g
  {
    var s := g.lists[h];
    var p := PasteRun(g, h, j, t);
    var u := s[..j] + t + s[j..];
    assert u[j..j + |t|] == t;
    assert u[..j] + u[j + |t|..] == s;
    var r := CutRun(p, h, j, j + |t|);
    assert r.lists == g.lists;
    forall m | 0 <= m < |g.owner| ensures r.owner[m] == g.owner[m] {
      if m in t {
        var i := IndexOf(t, m);
      }
    }
  }
}
