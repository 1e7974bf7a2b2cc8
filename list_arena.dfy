/**
 * The list operations of include/qwiet/platform/common/list.h as they are written: pointer
 * writes into the next/prev links of an arena of nodes. Node n's struct pal_list_head is the
 * pair next[n], prev[n]; a pointer is a node index and NULL is ListLayout.NULL.
 *
 * Each method makes the same writes, in the same order, as the C function it models, and is
 * proved to leave links that realise the layout its ListSpec counterpart computes from the old
 * one. What each of those does to the entry sequences is proved in ListSpec.
 */
module IntrusiveList {
  import opened ListLayout
  import opened ListLinks
  import ListSpec

  class Arena {
    /** next[n] and prev[n] are the two links of node n. */
    const next: array<int>
    const prev: array<int>
    /** The lists the links make up. */
    ghost var layout: Layout

    ghost predicate Valid()
      reads this, next, prev
    {
      next != prev && Realises(next[..], prev[..], layout)
    }

    /** An arena of size nodes, none of them initialised: all free, with NULL links. */
    constructor (size: nat)
      ensures Valid() && fresh(next) && fresh(prev)
      ensures layout == Layout(map[], seq(size, _ => NULL))
    {
      next := new int[size](_ => NULL);
      prev := new int[size](_ => NULL);
      layout := Layout(map[], seq(size, _ => NULL));
    }

    // -------------------------------------------------------------------------------------
    // Building lists
    // -------------------------------------------------------------------------------------

    /** pal_list_init: x becomes an empty list, both its links pointing to itself. */
    method Init(x: int)
      requires Valid() && 0 <= x < next.Length && !IsEntry(layout, x)
      modifies this, next, prev
      ensures Valid() && layout == ListSpec.Init(old(layout), x)
      ensures next[x] == x && prev[x] == x && x in layout.lists && layout.lists[x] == []
    {
      DetachLinks(next[..], prev[..], layout, x);
      layout := Detach(layout, x);
      MakeHeadLinks(next[..], prev[..], layout, x, []);
      next[x] := x;
      prev[x] := x;
      layout := MakeHead(layout, x, []);
    }

    /** __pal_list_add: the detached node x goes into gap j of list h, between p and n. */
    method AddBetween(x: int, p: int, n: int, ghost h: int, ghost j: int)
      requires Valid() && Detached(layout, x) && h in layout.lists && h != x
      requires 0 <= j <= |layout.lists[h]|
      requires p == Before(h, layout.lists[h], j) && n == After(h, layout.lists[h], j)
      modifies this, next, prev
      ensures Valid() && layout == PasteRun(Detach(old(layout), x), h, j, [x])
    {
      ghost var nx, pv := next[..], prev[..];
      ghost var g := layout;
      DetachLinks(nx, pv, g, x);
      ghost var d := Detach(g, x);
      assert h in d.lists && d.lists[h] == g.lists[h];
      assert p != x && n != x by {
        GapsOwned(d, h);
      }
      PasteLinks(nx, pv, d, h, j, [x]);
      prev[n] := x;
      next[x] := n;
      prev[x] := p;
      next[p] := x;
      assert next[..] == nx[p := x][x := n];
      assert prev[..] == pv[x := p][n := x];
      layout := PasteRun(d, h, j, [x]);
    }

    /** The links of a list: n->next and n->prev of the node n before gap j are its neighbours. */
    lemma GapLinks(h: int, j: int)
      requires Valid() && h in layout.lists && 0 <= j <= |layout.lists[h]|
      ensures next[Before(h, layout.lists[h], j)] == After(h, layout.lists[h], j)
      ensures prev[After(h, layout.lists[h], j)] == Before(h, layout.lists[h], j)
    {
      assert Linked(next[..], prev[..], h, layout.lists[h]);
    }

    /** pal_list_add: the detached node x is inserted right after the linked node at. */
    method Add(x: int, at: int)
      requires Valid() && Detached(layout, x) && IsLinked(layout, at) && at != x
      modifies this, next, prev
      ensures Valid() && layout == ListSpec.Add(old(layout), x, at)
    {
      ghost var h := layout.owner[at];
      ghost var j := ListSpec.GapAfterNode(layout, at);
      GapLinks(h, j);
      AddBetween(x, at, next[at], h, j);
    }

    /** pal_list_add_tail: the detached node x is inserted right before the linked node at. */
    method AddTail(x: int, at: int)
      requires Valid() && Detached(layout, x) && IsLinked(layout, at) && at != x
      modifies this, next, prev
      ensures Valid() && layout == ListSpec.AddTail(old(layout), x, at)
    {
      ghost var h := layout.owner[at];
      ghost var j := ListSpec.GapBeforeNode(layout, at);
      GapLinks(h, j);
      AddBetween(x, prev[at], at, h, j);
    }

    // -------------------------------------------------------------------------------------
    // Removing entries
    // -------------------------------------------------------------------------------------

    /**
     * __pal_list_del_entry (with __pal_list_del): the neighbours of e are linked to each other;
     * e leaves its list, keeping its now stale links. On an empty list e both writes put back
     * the self-links e already has.
     */
    method DelEntry(e: int)
      requires Valid() && Unlinkable(layout, e)
      modifies this, next, prev
      ensures Valid() && layout == ListSpec.Del(old(layout), e) && IsFree(layout, e)
      ensures next[e] == old(next[e]) && prev[e] == old(prev[e])
    {
      ghost var nx, pv, g := next[..], prev[..], layout;
      DelLinks(nx, pv, g, e);
      ListSpec.DelShaped(g, e);
      var p, n := prev[e], next[e];
      prev[n] := p;
      next[p] := n;
      assert prev[..] == pv[n := p];
      assert next[..] == nx[p := n];
      layout := ListSpec.Del(g, e);
    }

    /** pal_list_del: e leaves its list (if it is an entry); its links are set to NULL. */
    method Del(e: int)
      requires Valid() && Unlinkable(layout, e)
      modifies this, next, prev
      ensures Valid() && layout == ListSpec.Del(old(layout), e) && IsFree(layout, e)
      ensures next[e] == NULL && prev[e] == NULL
    {
      DelEntry(e);
      FreeWriteLinks(next[..], prev[..], layout, e, NULL, NULL);
      next[e] := NULL;
      prev[e] := NULL;
    }

    /** pal_list_del_init: e leaves its list (if it is an entry) and is left an empty list. */
    method DelInit(e: int)
      requires Valid() && Unlinkable(layout, e)
      modifies this, next, prev
      ensures Valid() && layout == ListSpec.DelInit(old(layout), e)
      ensures next[e] == e && prev[e] == e
    {
      DelEntry(e);
      ListSpec.DetachFree(layout, e);
      Init(e);
    }

    // -------------------------------------------------------------------------------------
    // Replacing, swapping and moving entries
    // -------------------------------------------------------------------------------------

    /**
     * pal_list_replace: the detached node y takes the place of the linked node x, by four
     * writes; x keeps stale links. When x is an empty head, y ends an empty head too.
     */
    method Replace(x: int, y: int)
      requires Valid() && IsLinked(layout, x) && Detached(layout, y) && x != y
      modifies this, next, prev
      ensures Valid() && layout == ListSpec.Replace(old(layout), x, y) && IsFree(layout, x)
    {
      ghost var nx, pv, g := next[..], prev[..], layout;
      ListSpec.ReplaceFacts(g, x, y);
      SelfLinked(nx, pv, g, x);
      ghost var n, q := nx[x], if nx[x] == x then y else pv[x];
      if IsEntry(g, x) {
        ReplaceEntryLinks(nx, pv, g, x, y);
      } else {
        ReplaceHeadLinks(nx, pv, g, x, y, q);
      }
      next[y] := next[x];
      assert next[..] == nx[y := n] && next[y] == n;
      prev[next[y]] := y;
      assert prev[..] == pv[n := y] && prev[x] == if n == x then y else pv[x];
      prev[y] := prev[x];
      assert prev[..] == pv[n := y][y := q];
      next[prev[y]] := y;
      assert next[..] == nx[y := n][q := y];
      layout := ListSpec.Replace(g, x, y);
    }

    /** pal_list_replace_init: as Replace, and x is left an empty list. */
    method ReplaceInit(x: int, y: int)
      requires Valid() && IsLinked(layout, x) && Detached(layout, y) && x != y
      modifies this, next, prev
      ensures Valid() && layout == ListSpec.ReplaceInit(old(layout), x, y)
    {
      Replace(x, y);
      ListSpec.DetachFree(layout, x);
      Init(x);
    }

    /**
     * pal_list_swap: entry2 is deleted and replaces entry1, and entry1 is added after entry2's
     * old predecessor (after entry2 itself when that predecessor was entry1).
     */
    method Swap(e1: int, e2: int)
      requires Valid() && IsEntry(layout, e1) && IsEntry(layout, e2) && e1 != e2
      modifies this, next, prev
      ensures Valid() && layout == ListSpec.Swap(old(layout), e1, e2)
    {
      ghost var g := layout;
      ListSpec.SwapFacts(g, e1, e2);
      GapLinks(g.owner[e2], ListSpec.Pos(g, e2));
      var pos := prev[e2];
      Del(e2);
      Replace(e1, e2);
      if pos == e1 {
        pos := e2;
      }
      Add(e1, pos);
    }

    /** pal_list_move: e leaves its list (if it is an entry) and is inserted right after at. */
    method Move(e: int, at: int)
      requires Valid() && Unlinkable(layout, e) && IsLinked(layout, at) && at != e
      modifies this, next, prev
      ensures Valid() && layout == ListSpec.Move(old(layout), e, at)
    {
      ghost var g := layout;
      DelEntry(e);
      ListSpec.DelShaped(g, e);
      Add(e, at);
    }

    /** pal_list_move_tail: e leaves its list (if it is an entry) and is inserted right before at. */
    method MoveTail(e: int, at: int)
      requires Valid() && Unlinkable(layout, e) && IsLinked(layout, at) && at != e
      modifies this, next, prev
      ensures Valid() && layout == ListSpec.MoveTail(old(layout), e, at)
    {
      ghost var g := layout;
      DelEntry(e);
      ListSpec.DelShaped(g, e);
      AddTail(e, at);
    }
    /** pal_list_rotate_left: a non-empty list's first entry is moved to its tail. */
    method RotateLeft(h: int)
      requires Valid() && h in layout.lists
      modifies this, next, prev
      ensures Valid() && layout == ListSpec.RotateLeft(old(layout), h)
    {
      HeadNeighbours(next[..], prev[..], layout, h);
      if !Empty(h) {
        var first := next[h];
        assert HeadShaped(layout, h);
        MoveTail(first, h);
      }
    }

    /**
     * pal_list_rotate_to_front: pal_list_move_tail(head, entry). The head is unlinked from the
     * cycle and linked back in right before entry, which thereby becomes the first entry.
     */
    method RotateToFront(e: int, h: int)
      requires Valid() && IsEntry(layout, e) && layout.owner[e] == h
      modifies this, next, prev
      ensures Valid() && layout == ListSpec.RotateToFront(old(layout), e, h)
    {
      ghost var nx, pv, g := next[..], prev[..], layout;
      ghost var k := ListSpec.Pos(g, e);
      RotateToFrontLinks(nx, pv, g, e, h, k, g.lists[h]);
      // __pal_list_del_entry(head)
      var p, n := prev[h], next[h];
      prev[n] := p;
      next[p] := n;
      // pal_list_add_tail(head, entry), that is __pal_list_add(head, entry->prev, entry)
      var q := prev[e];
      prev[e] := h;
      next[h] := e;
      prev[h] := q;
      next[q] := h;
      ghost var sl := g.lists[h][|g.lists[h]| - 1];
      ghost var s0 := g.lists[h][0];
      if k == 0 {
        assert next[..] == nx[sl := s0][h := s0][sl := h] == nx;
        assert prev[..] == pv[s0 := sl][s0 := h][h := sl] == pv;
      } else {
        ghost var s := g.lists[h];
        assert next[..] == nx[h := s[k]][sl := s0][s[k - 1] := h];
        assert prev[..] == pv[s[k] := h][s0 := sl][h := s[k - 1]];
        layout := ListSpec.RotateToFront(g, e, h);
      }
    }

    /** pal_list_bulk_move_tail: the run first..last is unlinked and linked back in right before at. */
    method BulkMoveTail(at: int, first: int, last: int)
      requires Valid() && ListSpec.BulkMovable(layout, at, first, last)
      modifies this, next, prev
      ensures Valid() && layout == ListSpec.BulkMoveTail(old(layout), at, first, last)
    {
      ghost var nx, pv, g := next[..], prev[..], layout;
      ghost var p, n := prev[first], next[last];
      ghost var q := if at == n then p else pv[at];
      BulkMoveLinks(nx, pv, g, at, first, last, p, n, q);
      next[prev[first]] := next[last];
      prev[next[last]] := prev[first];
      next[prev[at]] := first;
      prev[first] := prev[at];
      next[last] := at;
      prev[at] := last;
      assert next[..] == nx[p := n][q := first][last := at];
      assert prev[..] == pv[n := p][first := q][at := last];
      layout := ListSpec.BulkMoveTail(g, at, first, last);
    }

    // -------------------------------------------------------------------------------------
    // Cutting and splicing
    // -------------------------------------------------------------------------------------

    /** __pal_list_cut_position: list gets the entries of h up to and including its entry e. */
    method CutPositionAt(list: int, h: int, e: int)
      requires Valid() && ListSpec.Receiver(layout, list, h) && e in layout.lists[h]
      modifies this, next, prev
      ensures Valid() && layout == ListSpec.CutPosition(old(layout), list, h, e)
    {
      ghost var nx, pv, g := next[..], prev[..], layout;
      CutPositionLinks(nx, pv, g, list, h, e);
      var newFirst := next[e];
      next[list] := next[h];
      prev[next[list]] := list;
      prev[list] := e;
      next[e] := list;
      next[h] := newFirst;
      prev[newFirst] := h;
      assert next[..] == nx[list := nx[h]][e := list][h := nx[e]];
      assert prev[..] == pv[nx[h] := list][list := e][nx[e] := h];
      layout := ListSpec.CutPosition(g, list, h, e);
    }

    /**
     * pal_list_cut_position: as CutPositionAt, except that an empty h, or a singular h with an
     * entry that is neither h nor its entry, is left alone, and e == h only initialises list.
     */
    method CutPosition(list: int, h: int, e: int)
      requires Valid() && ListSpec.Receiver(layout, list, h)
      requires e == h || e in layout.lists[h] || |layout.lists[h]| <= 1
      modifies this, next, prev
      ensures Valid() && layout == ListSpec.CutPosition(old(layout), list, h, e)
    {
      HeadNeighbours(next[..], prev[..], layout, h);
      if Empty(h) {
        return;
      }
      if IsSingular(h) && !IsHead(e, h) && e != next[h] {
        return;
      }
      if IsHead(e, h) {
        Init(list);
      } else {
        CutPositionAt(list, h, e);
      }
    }

    /** pal_list_cut_before: list gets the entries of h before e (all of them when e == h). */
    method CutBefore(list: int, h: int, e: int)
      requires Valid() && ListSpec.Receiver(layout, list, h) && (e == h || e in layout.lists[h])
      modifies this, next, prev
      ensures Valid() && layout == ListSpec.CutBefore(old(layout), list, h, e)
    {
      ghost var nx, pv, g := next[..], prev[..], layout;
      ghost var k := if e == h then |g.lists[h]| else IndexOf(g.lists[h], e);
      CutBeforeGap(nx, pv, g, h, e, k);
      if next[h] == e {
        Init(list);
        return;
      }
      CutBeforeLinks(nx, pv, g, list, h, e, k);
      next[list] := next[h];
      prev[next[list]] := list;
      prev[list] := prev[e];
      next[prev[list]] := list;
      next[h] := e;
      prev[e] := h;
      assert next[..] == nx[list := nx[h]][pv[e] := list][h := e];
      assert prev[..] == pv[nx[h] := list][list := pv[e]][e := h];
      layout := ListSpec.CutBefore(g, list, h, e);
    }

    /** __pal_list_splice: the entries of the non-empty list src go into gap j of list h, between p and n. */
    method SpliceBetween(src: int, p: int, n: int, ghost h: int, ghost j: int)
      requires Valid() && src in layout.lists && layout.lists[src] != [] && h in layout.lists && h != src
      requires 0 <= j <= |layout.lists[h]|
      requires p == Before(h, layout.lists[h], j) && n == After(h, layout.lists[h], j)
      modifies this, next, prev
      ensures Valid() && layout == PasteRun(Detach(old(layout), src), h, j, old(layout).lists[src])
    {
      ghost var nx, pv, g := next[..], prev[..], layout;
      ghost var t := g.lists[src];
      HeadNeighbours(nx, pv, g, src);
      DetachLinks(nx, pv, g, src);
      ghost var d := Detach(g, src);
      assert d.lists[h] == g.lists[h];
      PasteLinks(nx, pv, d, h, j, t);
      var first := next[src];
      var last := prev[src];
      prev[first] := p;
      next[p] := first;
      next[last] := n;
      prev[n] := last;
      assert next[..] == nx[p := t[0]][t[|t| - 1] := n];
      assert prev[..] == pv[t[0] := p][n := t[|t| - 1]];
      layout := PasteRun(d, h, j, t);
    }

    /** pal_list_splice: src's entries go, in order, right after at (nothing happens when src is empty). */
    method Splice(src: int, at: int)
      requires Valid() && ListSpec.Spliceable(layout, src, at)
      modifies this, next, prev
      ensures Valid() && layout == ListSpec.Splice(old(layout), src, at)
    {
      if !Empty(src) {
        ghost var h := layout.owner[at];
        ghost var j := ListSpec.GapAfterNode(layout, at);
        GapLinks(h, j);
        SpliceBetween(src, at, next[at], h, j);
      }
    }

    /** pal_list_splice_tail: src's entries go, in order, right before at. */
    method SpliceTail(src: int, at: int)
      requires Valid() && ListSpec.Spliceable(layout, src, at)
      modifies this, next, prev
      ensures Valid() && layout == ListSpec.SpliceTail(old(layout), src, at)
    {
      if !Empty(src) {
        ghost var h := layout.owner[at];
        ghost var j := ListSpec.GapBeforeNode(layout, at);
        GapLinks(h, j);
        SpliceBetween(src, prev[at], at, h, j);
      }
    }

    /** pal_list_splice_init: as Splice, and a non-empty src is left an empty list. */
    method SpliceInit(src: int, at: int)
      requires Valid() && ListSpec.Spliceable(layout, src, at)
      modifies this, next, prev
      ensures Valid() && layout == ListSpec.SpliceInit(old(layout), src, at)
    {
      if !Empty(src) {
        ghost var h := layout.owner[at];
        ghost var j := ListSpec.GapAfterNode(layout, at);
        GapLinks(h, j);
        SpliceBetween(src, at, next[at], h, j);
        ListSpec.DetachFree(layout, src);
        Init(src);
      }
    }

    /** pal_list_splice_tail_init: as SpliceTail, and a non-empty src is left an empty list. */
    method SpliceTailInit(src: int, at: int)
      requires Valid() && ListSpec.Spliceable(layout, src, at)
      modifies this, next, prev
      ensures Valid() && layout == ListSpec.SpliceTailInit(old(layout), src, at)
    {
      if !Empty(src) {
        ghost var h := layout.owner[at];
        ghost var j := ListSpec.GapBeforeNode(layout, at);
        GapLinks(h, j);
        SpliceBetween(src, prev[at], at, h, j);
        ListSpec.DetachFree(layout, src);
        Init(src);
      }
    }

    // -------------------------------------------------------------------------------------
    // Tests on a node
    // -------------------------------------------------------------------------------------

    /** pal_list_empty: the linked node h is an empty list exactly when its next link is itself. */
    function Empty(h: int): (r: bool)
      requires Valid() && IsLinked(layout, h)
      reads this, next, prev
      ensures r <==> h in layout.lists && layout.lists[h] == []
    {
      SelfLinked(next[..], prev[..], layout, h);
      next[h] == h
    }

    /** pal_list_is_singular: h holds exactly one entry. */
    function IsSingular(h: int): (r: bool)
      requires Valid() && h in layout.lists
      reads this, next, prev
      ensures r <==> |layout.lists[h]| == 1
    {
      HeadNeighbours(next[..], prev[..], layout, h);
      assert HeadShaped(layout, h);
      !Empty(h) && next[h] == prev[h]
    }

    /** pal_list_is_head: a cursor over list h is at the head exactly when it is at no entry. */
    function IsHead(x: int, h: int): (r: bool)
      requires Valid() && h in layout.lists
      reads this, next, prev
      ensures x == h || x in layout.lists[h] ==> (r <==> x !in layout.lists[h])
    {
      assert HeadShaped(layout, h);
      x == h
    }

    /** pal_list_is_first: x's prev link is h exactly when x is h's first entry (or h itself, if empty). */
    function IsFirst(x: int, h: int): (r: bool)
      requires Valid() && h in layout.lists && IsLinked(layout, x)
      reads this, next, prev
      ensures r <==> if layout.lists[h] == [] then x == h else x == layout.lists[h][0]
    {
      LinksToHead(next[..], prev[..], layout, x, h);
      prev[x] == h
    }

    /** pal_list_is_last: x's next link is h exactly when x is h's last entry (or h itself, if empty). */
    function IsLast(x: int, h: int): (r: bool)
      requires Valid() && h in layout.lists && IsLinked(layout, x)
      reads this, next, prev
      ensures r <==> if layout.lists[h] == [] then x == h else x == layout.lists[h][|layout.lists[h]| - 1]
    {
      LinksToHead(next[..], prev[..], layout, x, h);
      next[x] == h
    }

    /** pal_list_first_entry_or_null: the first entry of h, or NULL when h is empty. */
    function FirstEntryOrNull(h: int): (r: int)
      requires Valid() && h in layout.lists
      reads this, next, prev
      ensures r == if layout.lists[h] == [] then NULL else layout.lists[h][0]
    {
      HeadNeighbours(next[..], prev[..], layout, h);
      assert HeadShaped(layout, h);
      var pos := next[h];
      if pos != h then pos else NULL
    }

    /** pal_list_last_entry_or_null: the last entry of h, or NULL when h is empty. */
    function LastEntryOrNull(h: int): (r: int)
      requires Valid() && h in layout.lists
      reads this, next, prev
      ensures r == if layout.lists[h] == [] then NULL else layout.lists[h][|layout.lists[h]| - 1]
    {
      HeadNeighbours(next[..], prev[..], layout, h);
      assert HeadShaped(layout, h);
      var pos := prev[h];
      if pos != h then pos else NULL
    }

    // -------------------------------------------------------------------------------------
    // Walking a list
    // -------------------------------------------------------------------------------------

    /** Following next links from the k-th gap of h leads to the node after the next gap. */
    lemma NextStep(h: int, k: int)
      requires Valid() && h in layout.lists && 0 <= k < |layout.lists[h]|
      ensures 0 <= After(h, layout.lists[h], k) < next.Length
      ensures next[After(h, layout.lists[h], k)] == After(h, layout.lists[h], k + 1)
    {
      assert Linked(next[..], prev[..], h, layout.lists[h]);
      assert Before(h, layout.lists[h], k + 1) == After(h, layout.lists[h], k);
    }

    /** Following prev links from the k-th gap of h leads to the node before the previous gap. */
    lemma PrevStep(h: int, k: int)
      requires Valid() && h in layout.lists && 0 < k <= |layout.lists[h]|
      ensures 0 <= Before(h, layout.lists[h], k) < prev.Length
      ensures prev[Before(h, layout.lists[h], k)] == Before(h, layout.lists[h], k - 1)
    {
      assert Linked(next[..], prev[..], h, layout.lists[h]);
      assert After(h, layout.lists[h], k - 1) == Before(h, layout.lists[h], k);
    }

    /** Once the first i entries of h are deleted, the links still walk forward through the rest. */
    lemma FrontLinks(g: Layout, h: int, i: int)
      requires Valid() && WellShaped(g) && h in g.lists && 0 <= i <= |g.lists[h]| && layout == CutRun(g, h, 0, i)
      ensures 0 <= After(h, g.lists[h], i) < next.Length
      ensures i < |g.lists[h]| ==> next[After(h, g.lists[h], i)] == After(h, g.lists[h], i + 1)
    {
      var s, u := g.lists[h], layout.lists[h];
      assert u == s[i..];
      assert Linked(next[..], prev[..], h, u);
      assert After(h, u, 0) == After(h, s, i);
      if i < |s| {
        assert Before(h, u, 1) == After(h, u, 0);
        assert After(h, u, 1) == After(h, s, i + 1);
      }
    }

    /** Once the last |s| - i entries of h are deleted, the links still walk backward through the rest. */
    lemma BackLinks(g: Layout, h: int, i: int)
      requires Valid() && WellShaped(g) && h in g.lists && 0 <= i <= |g.lists[h]| && layout == CutRun(g, h, i, |g.lists[h]|)
      ensures 0 <= Before(h, g.lists[h], i) < prev.Length
      ensures 0 < i ==> prev[Before(h, g.lists[h], i)] == Before(h, g.lists[h], i - 1)
    {
      var s, u := g.lists[h], layout.lists[h];
      assert u == s[..i];
      assert Linked(next[..], prev[..], h, u);
      assert Before(h, u, i) == Before(h, s, i);
      if 0 < i {
        assert After(h, u, i - 1) == Before(h, u, i);
        assert Before(h, u, i - 1) == Before(h, s, i - 1);
      }
    }

    /**
     * The loop of pal_list_for_each and pal_list_for_each_continue: from the node after gap k of
     * h, the cursor follows next links until it is back at h, visiting the entries from k on.
     */
    method Walk(start: int, h: int, ghost k: int) returns (visited: seq<int>)
      requires Valid() && h in layout.lists && 0 <= k <= |layout.lists[h]| && start == After(h, layout.lists[h], k)
      ensures visited == layout.lists[h][k..]
    {
      ghost var s := layout.lists[h];
      assert HeadShaped(layout, h);
      visited := [];
      var pos := start;
      while pos != h
        invariant k + |visited| <= |s| && visited == s[k..k + |visited|]
        invariant pos == After(h, s, k + |visited|)
        decreases |s| - |visited|
      {
        NextStep(h, k + |visited|);
        visited := visited + [pos];
        pos := next[pos];
      }
    }

    /** pal_list_for_each: the cursor visits the entries of h, from first to last, and only those. */
    method ForEach(h: int) returns (visited: seq<int>)
      requires Valid() && h in layout.lists
      ensures visited == layout.lists[h]
    {
      HeadNeighbours(next[..], prev[..], layout, h);
      visited := Walk(next[h], h, 0);
      assert layout.lists[h][0..] == layout.lists[h];
    }

    /** The walk that continues from h or from an entry of h starts at gap k. */
    lemma ContinueStart(from: int, h: int) returns (k: int)
      requires Valid() && h in layout.lists && (from == h || from in layout.lists[h])
      ensures 0 <= k <= |layout.lists[h]| && 0 <= from < next.Length && next[from] == After(h, layout.lists[h], k)
      ensures from == h ==> k == 0
      ensures from != h ==> 0 < k && layout.lists[h][k - 1] == from
    {
      assert HeadShaped(layout, h);
      k := if from == h then 0 else IndexOf(layout.lists[h], from) + 1;
      if from == h {
        HeadNeighbours(next[..], prev[..], layout, h);
      } else {
        NextStep(h, k - 1);
      }
    }

    /**
     * pal_list_for_each_continue: from the cursor at h or at an entry of h, the entries after
     * it are visited (all of them when the cursor is at h).
     */
    method ForEachContinue(from: int, h: int) returns (visited: seq<int>)
      requires Valid() && h in layout.lists && (from == h || from in layout.lists[h])
      ensures from == h ==> visited == layout.lists[h]
      ensures from != h ==> |visited| < |layout.lists[h]| && from == layout.lists[h][|layout.lists[h]| - |visited| - 1]
      ensures visited == layout.lists[h][|layout.lists[h]| - |visited|..]
    {
      ghost var k := ContinueStart(from, h);
      visited := Walk(next[from], h, k);
      assert layout.lists[h][0..] == layout.lists[h];
    }

    /** pal_list_for_each_prev: the cursor visits the entries of h from last to first. */
    method ForEachPrev(h: int) returns (visited: seq<int>)
      requires Valid() && h in layout.lists
      ensures |visited| == |layout.lists[h]|
      ensures forall i | 0 <= i < |visited| :: visited[i] == layout.lists[h][|visited| - 1 - i]
    {
      ghost var s := layout.lists[h];
      assert HeadShaped(layout, h);
      HeadNeighbours(next[..], prev[..], layout, h);
      visited := [];
      var pos := prev[h];
      while pos != h
        invariant |visited| <= |s|
        invariant forall i | 0 <= i < |visited| :: visited[i] == s[|s| - 1 - i]
        invariant pos == Before(h, s, |s| - |visited|)
        decreases |s| - |visited|
      {
        PrevStep(h, |s| - |visited|);
        visited := visited + [pos];
        pos := prev[pos];
      }
    }

    /** pal_list_count_nodes: the number of entries of h. */
    method CountNodes(h: int) returns (count: nat)
      requires Valid() && h in layout.lists
      ensures count == |layout.lists[h]|
    {
      ghost var s := layout.lists[h];
      assert HeadShaped(layout, h);
      HeadNeighbours(next[..], prev[..], layout, h);
      count := 0;
      var pos := next[h];
      while pos != h
        invariant count <= |s| && pos == After(h, s, count)
        decreases |s| - count
      {
        NextStep(h, count);
        pos := next[pos];
        count := count + 1;
      }
    }

    /**
     * pal_list_for_each_safe with pal_list_del as its body: the cursor's successor is read
     * before the cursor is deleted, and the walk empties h, leaving every old entry free.
     */
    method DelEach(h: int)
      requires Valid() && h in layout.lists
      modifies this, next, prev
      ensures Valid() && layout == CutRun(old(layout), h, 0, |old(layout).lists[h]|)
      ensures layout.lists == old(layout).lists[h := []] && AllFree(layout, old(layout).lists[h])
    {
      ghost var g := layout;
      ghost var s := g.lists[h];
      assert HeadShaped(g, h);
      HeadNeighbours(next[..], prev[..], layout, h);
      var pos := next[h];
      ListSpec.CutNothing(g, h, 0);
      FrontLinks(g, h, 0);
      var n := next[pos];
      ghost var i := 0;
      while pos != h
        invariant 0 <= i <= |s| && Valid() && layout == CutRun(g, h, 0, i)
        invariant pos == After(h, s, i) && (i < |s| ==> n == After(h, s, i + 1))
        decreases |s| - i
      {
        pos, n := DelFrontStep(g, h, i, pos, n);
        i := i + 1;
      }
      ListSpec.CutAll(g, h);
    }

    /** One round of the forward safe iteration: delete the cursor, step to the saved successor. */
    method DelFrontStep(ghost g: Layout, h: int, ghost i: int, pos: int, n: int) returns (pos': int, n': int)
      requires Valid() && WellShaped(g) && h in g.lists && 0 <= i < |g.lists[h]| && layout == CutRun(g, h, 0, i)
      requires pos == After(h, g.lists[h], i) && n == After(h, g.lists[h], i + 1)
      modifies this, next, prev
      ensures Valid() && layout == CutRun(g, h, 0, i + 1) && pos' == After(h, g.lists[h], i + 1)
      ensures i + 1 < |g.lists[h]| ==> n' == After(h, g.lists[h], i + 2)
    {
      ListSpec.DelFront(g, h, i);
      Del(pos);
      pos' := n;
      FrontLinks(g, h, i + 1);
      n' := next[pos'];
    }

    /**
     * pal_list_for_each_prev_safe with pal_list_del as its body: the walk from the last entry
     * back to the first empties h, leaving every old entry free.
     */
    method DelEachPrev(h: int)
      requires Valid() && h in layout.lists
      modifies this, next, prev
      ensures Valid() && layout == CutRun(old(layout), h, 0, |old(layout).lists[h]|)
      ensures layout.lists == old(layout).lists[h := []] && AllFree(layout, old(layout).lists[h])
    {
      ghost var g := layout;
      ghost var s := g.lists[h];
      assert HeadShaped(g, h);
      HeadNeighbours(next[..], prev[..], layout, h);
      var pos := prev[h];
      ListSpec.CutNothing(g, h, |s|);
      BackLinks(g, h, |s|);
      var n := prev[pos];
      ghost var i := |s|;
      while pos != h
        invariant 0 <= i <= |s| && Valid() && layout == CutRun(g, h, i, |s|)
        invariant pos == Before(h, s, i) && (0 < i ==> n == Before(h, s, i - 1))
        decreases i
      {
        pos, n := DelBackStep(g, h, i, pos, n);
        i := i - 1;
      }
      ListSpec.CutAll(g, h);
    }

    /** One round of the backward safe iteration: delete the cursor, step to the saved predecessor. */
    method DelBackStep(ghost g: Layout, h: int, ghost i: int, pos: int, n: int) returns (pos': int, n': int)
      requires Valid() && WellShaped(g) && h in g.lists && 0 < i <= |g.lists[h]| && layout == CutRun(g, h, i, |g.lists[h]|)
      requires pos == Before(h, g.lists[h], i) && n == Before(h, g.lists[h], i - 1)
      modifies this, next, prev
      ensures Valid() && layout == CutRun(g, h, i - 1, |g.lists[h]|) && pos' == Before(h, g.lists[h], i - 1)
      ensures 1 < i ==> n' == Before(h, g.lists[h], i - 2)
    {
      ListSpec.DelBack(g, h, i);
      Del(pos);
      pos' := n;
      BackLinks(g, h, i - 1);
      n' := prev[pos'];
    }
  }

  /** A linked node's prev link is the head h exactly when it is h's first node, and its next link when it is h's last. */
  lemma LinksToHead(nx: seq<int>, pv: seq<int>, g: Layout, y: int, h: int)
    requires Realises(nx, pv, g) && h in g.lists && IsLinked(g, y)
    ensures 0 <= y < |nx|
    ensures pv[y] == h <==> y == After(h, g.lists[h], 0)
    ensures nx[y] == h <==> y == Before(h, g.lists[h], |g.lists[h]|)
  {
    var h', s, u := g.owner[y], g.lists[h], g.lists[g.owner[y]];
    assert h' in g.lists && (y == h' || y in u);
    assert HeadShaped(g, h) && HeadShaped(g, h');
    var k := if y == h' then |u| else IndexOf(u, y);
    var k' := if y == h' then 0 else k + 1;
    assert After(h', u, k) == y && Before(h', u, k') == y;
    assert Linked(nx, pv, h', u);
    assert pv[y] == Before(h', u, k) && nx[y] == After(h', u, k');
    GapsOwned(g, h);
    GapsOwned(g, h');
    if h' == h {
      if k != 0 {
        GapsDistinct(h, s, k, 0);
      }
      if k' != |s| {
        GapsDistinct(h, s, k', |s|);
      }
    }
  }

  /** Deleting an entry leaves every other node with the owner it had. */
  /**
   * The two writes of __pal_list_del realise Del: for an entry they join its neighbours, for
   * an empty list they write back the self-links.
   */
  lemma DelLinks(nx: seq<int>, pv: seq<int>, g: Layout, e: int)
    requires Realises(nx, pv, g) && Unlinkable(g, e)
    ensures 0 <= e < |nx| && 0 <= nx[e] < |nx| && 0 <= pv[e] < |nx|
    ensures (nx[e] == e && pv[e] == e) || (nx[e] != e && pv[e] != e)
    ensures Realises(nx[pv[e] := nx[e]], pv[nx[e] := pv[e]], ListSpec.Del(g, e))
  {
    if IsEntry(g, e) {
      var h, k := g.owner[e], ListSpec.Pos(g, e);
      assert ListSpec.Del(g, e) == CutRun(g, h, k, k + 1);
      EntryNeighbours(nx, pv, g, e, h, k);
      CutLinks(nx, pv, g, h, k, k + 1);
    } else {
      assert ListSpec.Del(g, e) == Detach(g, e);
      assert HeadShaped(g, e);
      HeadNeighbours(nx, pv, g, e);
      DetachLinks(nx, pv, g, e);
      assert nx[e := e] == nx && pv[e := e] == pv;
    }
  }

  /** The links of an entry e point to its neighbours in its list. */
  lemma EntryNeighbours(nx: seq<int>, pv: seq<int>, g: Layout, e: int, h: int, k: int)
    requires Realises(nx, pv, g) && IsEntry(g, e) && h == g.owner[e] && k == ListSpec.Pos(g, e)
    ensures 0 <= e < |nx| && pv[e] == Before(h, g.lists[h], k) && nx[e] == After(h, g.lists[h], k + 1)
    ensures Before(h, g.lists[h], k) != e && After(h, g.lists[h], k + 1) != e
  {
    var s := g.lists[h];
    assert Linked(nx, pv, h, s);
    assert HeadShaped(g, h);
    assert After(h, s, k) == e && Before(h, s, k + 1) == e;
  }

  /** The four writes of pal_list_replace on an entry x: y is linked between x's neighbours. */
  lemma ReplaceEntryLinks(nx: seq<int>, pv: seq<int>, g: Layout, x: int, y: int)
    requires Realises(nx, pv, g) && IsEntry(g, x) && Detached(g, y) && x != y
    ensures 0 <= y < |nx| && 0 <= nx[x] < |nx| && 0 <= pv[x] < |nx| && nx[x] != x
    ensures Realises(nx[y := nx[x]][pv[x] := y], pv[nx[x] := y][y := pv[x]], ListSpec.Replace(g, x, y))
  {
    var h := g.owner[x];
    var k := ListSpec.Pos(g, x);
    EntryNeighbours(nx, pv, g, x, h, k);
    var p, n := pv[x], nx[x];
    ReplaceEntryPaste(nx, pv, g, x, y, h, k, p, n);
    assert nx[p := n][p := y][y := n] == nx[y := n][p := y] by {
      Overwrite(nx, p, n, y);
      Commute(nx, p, y, y, n);
    }
    assert pv[n := p][y := p][n := y] == pv[n := y][y := p] by {
      Commute(pv[n := p], y, p, n, y);
      Overwrite(pv, n, p, y);
    }
  }

  /** Replacing entry x is cutting it out (two writes) and pasting y into the gap (four writes). */
  lemma ReplaceEntryPaste(nx: seq<int>, pv: seq<int>, g: Layout, x: int, y: int, h: int, k: int, p: int, n: int)
    requires Realises(nx, pv, g) && IsEntry(g, x) && Detached(g, y) && x != y
    requires h == g.owner[x] && k == ListSpec.Pos(g, x)
    requires p == Before(h, g.lists[h], k) && n == After(h, g.lists[h], k + 1)
    ensures 0 <= p < |nx| && 0 <= n < |nx| && 0 <= y < |nx| && p != y && n != y
    ensures Realises(nx[p := n][p := y][y := n], pv[n := p][y := p][n := y], ListSpec.Replace(g, x, y))
  {
    ListSpec.ReplaceEntryUnfold(g, x, y);
    ReplaceEntryWrites(nx, pv, g, x, y, h, k, p, n);
  }

  /** The writes of replace on an entry realise its steps: cut x out (two writes), paste y in (four). */
  lemma ReplaceEntryWrites(nx: seq<int>, pv: seq<int>, g: Layout, x: int, y: int, h: int, k: int, p: int, n: int)
    requires Realises(nx, pv, g) && IsEntry(g, x) && Detached(g, y) && x != y
    requires h == g.owner[x] && k == ListSpec.Pos(g, x)
    requires p == Before(h, g.lists[h], k) && n == After(h, g.lists[h], k + 1)
    ensures h in Detach(g, y).lists && k < |Detach(g, y).lists[h]|
    ensures 0 <= p < |nx| && 0 <= n < |nx| && 0 <= y < |nx| && p != y && n != y
    ensures Realises(nx[p := n][p := y][y := n], pv[n := p][y := p][n := y],
                     PasteRun(CutRun(Detach(g, y), h, k, k + 1), h, k, [y]))
  {
    ReplaceEntryCut(nx, pv, g, x, y, h, k, p, n);
    var c := CutRun(Detach(g, y), h, k, k + 1);
    PasteLinks(nx[p := n], pv[n := p], c, h, k, [y]);
  }

  /** The first two writes of replace on an entry take x out, leaving a gap between p and n. */
  lemma ReplaceEntryCut(nx: seq<int>, pv: seq<int>, g: Layout, x: int, y: int, h: int, k: int, p: int, n: int)
    requires Realises(nx, pv, g) && IsEntry(g, x) && Detached(g, y) && x != y
    requires h == g.owner[x] && k == ListSpec.Pos(g, x)
    requires p == Before(h, g.lists[h], k) && n == After(h, g.lists[h], k + 1)
    ensures h in Detach(g, y).lists && k < |Detach(g, y).lists[h]|
    ensures var c := CutRun(Detach(g, y), h, k, k + 1);
            && Realises(nx[p := n], pv[n := p], c) && IsFree(c, y) && |c.owner| == |nx|
            && h in c.lists && k <= |c.lists[h]|
            && Before(h, c.lists[h], k) == p && After(h, c.lists[h], k) == n
            && Chain(nx[p := n], pv[n := p], [y])
            && p != y && n != y
  {
    var s := g.lists[h];
    ReplaceEntryDetach(nx, pv, g, x, y, h, k, p, n);
    var d := Detach(g, y);
    CutLinks(nx, pv, d, h, k, k + 1);
    assert s[k..k + 1] == [x];
    var c := CutRun(d, h, k, k + 1);
    var u := c.lists[h];
    assert Before(h, u, k) == p && After(h, u, k) == n;
    assert IsFree(c, y);
  }

  /** ReplaceEntryCut before the cut: y, and the empty list it may head, are dropped. */
  lemma ReplaceEntryDetach(nx: seq<int>, pv: seq<int>, g: Layout, x: int, y: int, h: int, k: int, p: int, n: int)
    requires Realises(nx, pv, g) && IsEntry(g, x) && Detached(g, y) && x != y
    requires h == g.owner[x] && k == ListSpec.Pos(g, x)
    requires p == Before(h, g.lists[h], k) && n == After(h, g.lists[h], k + 1)
    ensures var d := Detach(g, y);
            && Realises(nx, pv, d) && IsFree(d, y) && 0 <= y < |nx|
            && h in d.lists && d.lists[h] == g.lists[h] && p != y && n != y
  {
    GapsOwned(g, h);
    DetachLinks(nx, pv, g, y);
    assert HeadShaped(g, h);
    assert y in g.lists ==> HeadShaped(g, y);
  }

  /**
   * The four writes of pal_list_replace on a head x: y heads x's entries. When x's list is
   * empty the third write reads back the second, so y ends pointing to itself.
   */
  lemma ReplaceHeadLinks(nx: seq<int>, pv: seq<int>, g: Layout, x: int, y: int, q: int)
    requires Realises(nx, pv, g) && IsLinked(g, x) && !IsEntry(g, x) && Detached(g, y) && x != y
    requires 0 <= x < |nx| && q == if nx[x] == x then y else pv[x]
    ensures 0 <= y < |nx| && 0 <= nx[x] < |nx| && 0 <= q < |nx|
    ensures Realises(nx[y := nx[x]][q := y], pv[nx[x] := y][y := q], ListSpec.Replace(g, x, y))
  {
    var s := g.lists[x];
    assert Linked(nx, pv, x, s);
    assert HeadShaped(g, x);
    DetachLinks(nx, pv, g, y);
    var d := Detach(g, y);
    assert d.lists[x] == s;
    DetachLinks(nx, pv, d, x);
    var e := Detach(d, x);
    forall i | 0 <= i < |s| ensures s[i] != y {
      assert g.owner[s[i]] == x;
    }
    MakeHeadLinks(nx, pv, e, y, s);
    if s == [] {
      assert Before(x, s, 0) == x && After(x, s, 0) == x;
      assert nx[x] == x && q == y;
      var r := MakeHead(e, y, s);
      FreeWriteLinks(nx[y := y], pv[y := y], r, x, nx[x], y);
      assert nx[y := x][y := y] == nx[y := y][x := nx[x]];
      assert pv[x := y][y := y] == pv[y := y][x := y];
    } else {
      assert nx[x] == s[0] && pv[x] == s[|s| - 1] by {
        assert After(x, s, 0) == s[0] && Before(x, s, |s|) == s[|s| - 1];
      }
    }
  }

  /** The links of a head point to its first and last entries (to itself when its list is empty). */
  lemma HeadNeighbours(nx: seq<int>, pv: seq<int>, g: Layout, h: int)
    requires Realises(nx, pv, g) && h in g.lists
    ensures 0 <= h < |nx| && nx[h] == After(h, g.lists[h], 0) && pv[h] == Before(h, g.lists[h], |g.lists[h]|)
  {
    assert Linked(nx, pv, h, g.lists[h]);
  }

  /** A linked node's next link is itself exactly when it is the head of an empty list. */
  lemma SelfLinked(nx: seq<int>, pv: seq<int>, g: Layout, n: int)
    requires Realises(nx, pv, g) && IsLinked(g, n)
    ensures 0 <= n < |nx| && (nx[n] == n <==> n in g.lists && g.lists[n] == [])
  {
    if IsEntry(g, n) {
      EntryNeighbours(nx, pv, g, n, g.owner[n], ListSpec.Pos(g, n));
      assert n !in g.lists by {
        forall m | m in g.lists ensures g.owner[m] == m {
          assert HeadShaped(g, m);
        }
      }
    } else {
      assert HeadShaped(g, n);
      HeadNeighbours(nx, pv, g, n);
    }
  }

  /** Around a linked node the links agree both ways: its successor points back to it and its predecessor forward to it. */
  lemma LinkedNeighbours(nx: seq<int>, pv: seq<int>, g: Layout, n: int)
    requires Realises(nx, pv, g) && IsLinked(g, n)
    ensures 0 <= n < |nx| && 0 <= nx[n] < |pv| && 0 <= pv[n] < |nx|
    ensures pv[nx[n]] == n && nx[pv[n]] == n
  {
    var h := g.owner[n];
    assert h in g.lists;
    var s := g.lists[h];
    assert Linked(nx, pv, h, s);
    if IsEntry(g, n) {
      var k := ListSpec.Pos(g, n);
      EntryNeighbours(nx, pv, g, n, h, k);
      assert After(h, s, k) == n && Before(h, s, k + 1) == n;
    } else {
      assert HeadShaped(g, n);
      HeadNeighbours(nx, pv, g, n);
      assert Before(h, s, 0) == n && After(h, s, |s|) == n;
    }
  }

  /**
   * Moving a run takes six writes: the run s[a..b] of list h, from x0 to xl, is cut out (its
   * outer neighbours p and n are linked) and pasted into gap j of list h2 of what is left,
   * between q and r.
   */
  lemma MoveRunLinks(nx: seq<int>, pv: seq<int>, g: Layout, h: int, a: int, b: int, h2: int, j: int,
                     p: int, n: int, q: int, r: int, t: seq<int>, x0: int, xl: int)
    requires Realises(nx, pv, g) && h in g.lists && 0 <= a < b <= |g.lists[h]|
    requires p == Before(h, g.lists[h], a) && n == After(h, g.lists[h], b)
    requires t == g.lists[h][a..b] && x0 == g.lists[h][a] && xl == g.lists[h][b - 1]
    requires h2 in CutRun(g, h, a, b).lists && 0 <= j <= |CutRun(g, h, a, b).lists[h2]|
    requires q == Before(h2, CutRun(g, h, a, b).lists[h2], j) && r == After(h2, CutRun(g, h, a, b).lists[h2], j)
    ensures 0 <= p < |nx| && 0 <= n < |nx| && 0 <= q < |nx| && 0 <= r < |nx|
    ensures Realises(nx[p := n][q := x0][xl := r], pv[n := p][x0 := q][r := xl],
                     PasteRun(CutRun(g, h, a, b), h2, j, t))
  {
    var s := g.lists[h];
    assert HeadShaped(g, h);
    CutLinks(nx, pv, g, h, a, b);
    var g1 := CutRun(g, h, a, b);
    GapsOwned(g, h);
    DistinctSlice(s, a, b);
    PasteLinks(nx[p := n], pv[n := p], g1, h2, j, s[a..b]);
  }

  /** Once the run s[a..b] of list h is cut out, the links still lead back across every gap of every list. */
  lemma CutGapLink(nx: seq<int>, pv: seq<int>, g: Layout, h: int, a: int, b: int, h2: int, j: int, p: int, n: int)
    requires Realises(nx, pv, g) && h in g.lists && 0 <= a < b <= |g.lists[h]|
    requires p == Before(h, g.lists[h], a) && n == After(h, g.lists[h], b)
    requires h2 in CutRun(g, h, a, b).lists && 0 <= j <= |CutRun(g, h, a, b).lists[h2]|
    ensures var u := CutRun(g, h, a, b).lists[h2];
            0 <= n < |pv| && pv[n := p][After(h2, u, j)] == Before(h2, u, j)
  {
    CutLinks(nx, pv, g, h, a, b);
    assert Linked(nx[p := n], pv[n := p], h2, CutRun(g, h, a, b).lists[h2]);
  }

  /**
   * The writes of pal_list_rotate_to_front. When e is already first they put every link back;
   * otherwise they realise cutting the entries before e and pasting them at the tail.
   */
  lemma RotateToFrontLinks(nx: seq<int>, pv: seq<int>, g: Layout, e: int, h: int, k: int, s: seq<int>)
    requires Realises(nx, pv, g) && IsEntry(g, e) && g.owner[e] == h && k == ListSpec.Pos(g, e)
    requires s == g.lists[h]
    ensures 0 <= h < |nx| && 0 <= e < |nx| && 0 <= k < |s| && s[k] == e && e != h
    ensures forall i | 0 <= i < |s| :: 0 <= s[i] < |nx| && s[i] != h
    ensures nx[h] == s[0] && pv[h] == s[|s| - 1]
    ensures k == 0 ==> nx[s[|s| - 1]] == h && pv[s[0]] == h && ListSpec.RotateToFront(g, e, h) == g
    ensures k > 0 ==> pv[e] == s[k - 1] && s[0] != e
    ensures k > 0 ==>
      Realises(nx[h := s[k]][s[|s| - 1] := s[0]][s[k - 1] := h], pv[s[k] := h][s[0] := s[|s| - 1]][h := s[k - 1]],
               ListSpec.RotateToFront(g, e, h))
  {
    assert HeadShaped(g, h);
    assert Linked(nx, pv, h, s);
    assert After(h, s, 0) == s[0] && Before(h, s, |s|) == s[|s| - 1];
    assert After(h, s, k) == e;
    if k > 0 {
      RotateToFrontMove(nx, pv, g, h, k, s);
      assert ListSpec.RotateToFront(g, e, h) == PasteRun(CutRun(g, h, 0, k), h, |s| - k, s[..k]);
    } else {
      assert Before(h, s, |s|) == s[|s| - 1] && After(h, s, |s|) == h;
    }
  }

  /** RotateToFrontLinks when entries precede e: the first k entries are moved to the tail. */
  lemma RotateToFrontMove(nx: seq<int>, pv: seq<int>, g: Layout, h: int, k: int, s: seq<int>)
    requires Realises(nx, pv, g) && h in g.lists && s == g.lists[h] && 0 < k < |s|
    ensures 0 <= h < |nx| && 0 <= s[0] < |nx| && 0 <= s[k] < |nx| && 0 <= s[k - 1] < |nx| && 0 <= s[|s| - 1] < |nx|
    ensures Realises(nx[h := s[k]][s[|s| - 1] := s[0]][s[k - 1] := h], pv[s[k] := h][s[0] := s[|s| - 1]][h := s[k - 1]],
                     PasteRun(CutRun(g, h, 0, k), h, |s| - k, s[..k]))
  {
    var u := CutRun(g, h, 0, k).lists[h];
    assert u == s[k..];
    assert Before(h, u, |s| - k) == s[|s| - 1] && After(h, u, |s| - k) == h;
    assert s[0..k] == s[..k];
    MoveRunLinks(nx, pv, g, h, 0, k, h, |s| - k, h, s[k], s[|s| - 1], h, s[..k], s[0], s[k - 1]);
  }

  /** The six writes of pal_list_bulk_move_tail cut the run first..last and paste it right before at. */
  lemma BulkMoveLinks(nx: seq<int>, pv: seq<int>, g: Layout, at: int, first: int, last: int, p: int, n: int, q: int)
    requires Realises(nx, pv, g) && ListSpec.BulkMovable(g, at, first, last)
    requires p == pv[first] && n == nx[last] && q == if at == n then p else pv[at]
    ensures 0 <= p < |nx| && 0 <= n < |nx| && 0 <= q < |nx| && p != last
    ensures Realises(nx[p := n][q := first][last := at], pv[n := p][first := q][at := last],
                     ListSpec.BulkMoveTail(g, at, first, last))
  {
    var h := g.owner[first];
    var a, b := ListSpec.Pos(g, first), ListSpec.Pos(g, last) + 1;
    EntryNeighbours(nx, pv, g, first, h, a);
    EntryNeighbours(nx, pv, g, last, h, b - 1);
    assert p != last by {
      assert HeadShaped(g, h);
    }
    BulkMoveRun(nx, pv, g, at, first, last, h, a, b, p, n, q);
  }

  /** BulkMoveLinks, once the run's outer neighbours p and n are known. */
  lemma BulkMoveRun(nx: seq<int>, pv: seq<int>, g: Layout, at: int, first: int, last: int,
                    h: int, a: int, b: int, p: int, n: int, q: int)
    requires Realises(nx, pv, g) && ListSpec.BulkMovable(g, at, first, last)
    requires h == g.owner[first] && a == ListSpec.Pos(g, first) && b == ListSpec.Pos(g, last) + 1
    requires p == Before(h, g.lists[h], a) && n == After(h, g.lists[h], b)
    requires 0 <= at < |pv| && q == if at == n then p else pv[at]
    ensures 0 <= q < |nx|
    ensures Realises(nx[p := n][q := first][last := at], pv[n := p][first := q][at := last],
                     ListSpec.BulkMoveTail(g, at, first, last))
  {
    var s := g.lists[h];
    ListSpec.BulkMoveTailSteps(g, at, first, last, h, a, b);
    var g1 := CutRun(g, h, a, b);
    var h2 := g1.owner[at];
    var j := ListSpec.GapBeforeNode(g1, at);
    var u := g1.lists[h2];
    CutGapLink(nx, pv, g, h, a, b, h2, j, p, n);
    assert q == Before(h2, u, j);
    MoveRunLinks(nx, pv, g, h, a, b, h2, j, p, n, q, at, s[a..b], first, last);
  }

  /**
   * Moving the first k entries of h into list takes six writes: h is linked to the node n after
   * them, and list to the first and the k-th entry.
   */
  lemma CutIntoLinks(nx: seq<int>, pv: seq<int>, g: Layout, list: int, h: int, k: int, n: int)
    requires Realises(nx, pv, g) && ListSpec.Receiver(g, list, h) && 0 < k <= |g.lists[h]|
    requires n == After(h, g.lists[h], k)
    ensures var s := g.lists[h];
            && 0 <= list < |nx| && 0 <= n < |nx| && 0 <= s[0] < |nx| && 0 <= s[k - 1] < |nx|
            && Realises(nx[h := n][list := s[0]][s[k - 1] := list], pv[n := h][s[0] := list][list := s[k - 1]],
                        MakeHead(CutRun(Detach(g, list), h, 0, k), list, s[..k]))
  {
    var s := g.lists[h];
    CutIntoDetached(nx, pv, g, list, h, k, n);
    var c := CutRun(Detach(g, list), h, 0, k);
    MakeHeadLinks(nx[h := n], pv[n := h], c, list, s[..k]);
    assert s[..k][0] == s[0] && s[..k][k - 1] == s[k - 1];
  }

  /** CutIntoLinks before list is made a head: list is detached and the first k entries of h are cut out. */
  lemma CutIntoDetached(nx: seq<int>, pv: seq<int>, g: Layout, list: int, h: int, k: int, n: int)
    requires Realises(nx, pv, g) && ListSpec.Receiver(g, list, h) && 0 < k <= |g.lists[h]|
    requires n == After(h, g.lists[h], k)
    ensures var s, c := g.lists[h], CutRun(Detach(g, list), h, 0, k);
            && 0 <= list < |nx| && 0 <= n < |nx|
            && Realises(nx[h := n], pv[n := h], c) && IsFree(c, list)
            && Distinct(s[..k]) && AllFree(c, s[..k]) && list !in s[..k] && Chain(nx[h := n], pv[n := h], s[..k])
  {
    var s := g.lists[h];
    assert HeadShaped(g, h);
    assert list !in s;
    DetachLinks(nx, pv, g, list);
    var d := Detach(g, list);
    assert d.lists[h] == s;
    CutLinks(nx, pv, d, h, 0, k);
    var c := CutRun(d, h, 0, k);
    assert IsFree(c, list);
    assert s[0..k] == s[..k];
    DistinctSlice(s, 0, k);
  }

  /** The six writes of __pal_list_cut_position move the entries of h up to e into list. */
  lemma CutPositionLinks(nx: seq<int>, pv: seq<int>, g: Layout, list: int, h: int, e: int)
    requires Realises(nx, pv, g) && ListSpec.Receiver(g, list, h) && e in g.lists[h]
    ensures 0 <= list < |nx| && 0 <= h < |nx| && 0 <= e < |nx| && 0 <= nx[h] < |nx| && 0 <= nx[e] < |nx|
    ensures Realises(nx[list := nx[h]][e := list][h := nx[e]], pv[nx[h] := list][list := e][nx[e] := h],
                     ListSpec.CutPosition(g, list, h, e))
  {
    var s := g.lists[h];
    var k := IndexOf(s, e);
    assert HeadShaped(g, h);
    assert ListSpec.Pos(g, e) == k;
    EntryNeighbours(nx, pv, g, e, h, k);
    HeadNeighbours(nx, pv, g, h);
    var s0, nf := s[0], After(h, s, k + 1);
    assert nf != s0 && nf != list && list !in s;
    CutIntoLinks(nx, pv, g, list, h, k + 1, nf);
    assert nx[h := nf][list := s0][e := list] == nx[list := s0][e := list][h := nf] by {
      Commute(nx, h, nf, list, s0);
      Commute(nx[list := s0], h, nf, e, list);
    }
    assert pv[nf := h][s0 := list][list := e] == pv[s0 := list][list := e][nf := h] by {
      Commute(pv, nf, h, s0, list);
      Commute(pv[s0 := list], nf, h, list, e);
    }
  }

  /** pal_list_cut_before finds e at head->next exactly when no entry precedes it. */
  lemma CutBeforeGap(nx: seq<int>, pv: seq<int>, g: Layout, h: int, e: int, k: int)
    requires Realises(nx, pv, g) && h in g.lists && (e == h || e in g.lists[h])
    requires k == if e == h then |g.lists[h]| else IndexOf(g.lists[h], e)
    ensures 0 <= h < |nx| && (nx[h] == e <==> k == 0)
  {
    assert HeadShaped(g, h);
    HeadNeighbours(nx, pv, g, h);
  }

  /** The six writes of pal_list_cut_before move the k entries of h before e into list. */
  lemma CutBeforeLinks(nx: seq<int>, pv: seq<int>, g: Layout, list: int, h: int, e: int, k: int)
    requires Realises(nx, pv, g) && ListSpec.Receiver(g, list, h) && (e == h || e in g.lists[h])
    requires k == if e == h then |g.lists[h]| else IndexOf(g.lists[h], e)
    requires k > 0
    ensures 0 <= list < |nx| && 0 <= h < |nx| && 0 <= e < |nx| && 0 <= nx[h] < |nx| && 0 <= pv[e] < |nx|
    ensures nx[h] != e
    ensures Realises(nx[list := nx[h]][pv[e] := list][h := e], pv[nx[h] := list][list := pv[e]][e := h],
                     ListSpec.CutBefore(g, list, h, e))
  {
    var s := g.lists[h];
    assert HeadShaped(g, h);
    assert Linked(nx, pv, h, s);
    HeadNeighbours(nx, pv, g, h);
    var s0, pe := s[0], s[k - 1];
    assert After(h, s, k) == e && Before(h, s, k) == pe;
    assert e != s0 && e != list && list !in s && pe != h && pe != list;
    CutIntoLinks(nx, pv, g, list, h, k, e);
    assert nx[h := e][list := s0][pe := list] == nx[list := s0][pe := list][h := e] by {
      Commute(nx, h, e, list, s0);
      Commute(nx[list := s0], h, e, pe, list);
    }
    assert pv[e := h][s0 := list][list := pe] == pv[s0 := list][list := pe][e := h] by {
      Commute(pv, e, h, s0, list);
      Commute(pv[s0 := list], e, h, list, pe);
    }
  }

  /** Writing two different cells in either order gives the same sequence. */
  lemma Commute(s: seq<int>, i: int, u: int, j: int, v: int)
    requires 0 <= i < |s| && 0 <= j < |s| && i != j
    ensures s[i := u][j := v] == s[j := v][i := u]
  {
  }

  /** A second write to a cell hides the first. */
  lemma Overwrite(s: seq<int>, i: int, u: int, v: int)
    requires 0 <= i < |s|
    ensures s[i := u][i := v] == s[i := v]
  {
  }
}
