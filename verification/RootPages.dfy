/**
 * destroyTable: the order in which the root pages of a dropped table and its indices are destroyed,
 * in a database where destroying one moves the highest root page into the gap.
 */
module RootPages {

  /** Strictly decreasing. */
  ghost predicate Falling(s: seq<nat>) {
    forall i, j :: 0 <= i < j < |s| ==> s[i] > s[j]
  }

  ghost function Elements(s: seq<nat>): set<nat> {
    set x | x in s
  }

  lemma NoneYet()
    ensures Falling([]) && Elements([]) == {}
  {
  }

  lemma Snoc(s: seq<nat>, x: nat)
    requires Falling(s) && (s != [] ==> s[|s| - 1] > x)
    ensures Falling(s + [x]) && Elements(s + [x]) == Elements(s) + {x}
  {
  }

  /** The pages after `page` was freed and `top`, the highest, moved there. */
  function Freed<T>(pages: map<nat, T>, page: nat, top: nat): map<nat, T>
    requires page in pages && top in pages
  {
    if page == top then pages - {page} else pages[page := pages[top]] - {top}
  }

  /** Destroying a page before a higher one takes the highest one away from its number. */
  lemma WrongOrder<T>(pages: map<nat, T>, page: nat, top: nat)
    requires page in pages && top in pages && page < top
    ensures var after := Freed(pages, page, top); top !in after && page in after && after[page] == pages[top]
  {
  }

  /** A row of sqlite_master is named by the object it describes. */
  type Name = nat

  /** The objects by their root pages, and the root pages as sqlite_master records them. */
  class Database {
    var pages: map<nat, Name>
    var master: map<Name, nat>

    /** Each recorded page holds its object, and every object but the doomed ones is recorded. */
    ghost predicate Consistent(doomed: set<nat>)
      reads this
    {
      && 0 !in pages && doomed <= pages.Keys
      && (forall n :: n in master ==> master[n] in pages && pages[master[n]] == n && master[n] !in doomed)
      && (forall p :: p in pages && p !in doomed ==> pages[p] in master && master[pages[p]] == p)
    }

    /** The highest root page. */
    method Highest() returns (top: nat)
      requires pages != map[]
      ensures top in pages && forall p :: p in pages ==> p <= top
    {
      var rest := pages.Keys;
      var first :| first in rest;
      top := first;
      while rest != {}
        invariant rest <= pages.Keys && top in pages
        invariant forall p :: p in pages && p !in rest ==> p <= top
        decreases |rest|
      {
        var p :| p in rest;
        if p > top { top := p; }
        rest := rest - {p};
      }
    }

    /** OP_Destroy: frees the page and moves the highest root page there; the result is the page moved, or 0. */
    method OpDestroy(page: nat) returns (moved: nat)
      requires page in pages && 0 !in pages
      modifies `pages
      ensures forall p :: p in old(pages) ==> p <= (if moved == 0 then page else moved)
      ensures moved != 0 ==> page < moved && moved in old(pages)
      ensures pages == Freed(old(pages), page, if moved == 0 then page else moved)
    {
      var top := Highest();
      if top == page {
        pages := pages - {page};
        moved := 0;
      } else {
        pages := pages[page := pages[top]] - {top};
        moved := top;
      }
    }

    /** UPDATE sqlite_master SET rootpage = page WHERE #0 AND rootpage = #0, where #0 is `moved`. */
    method UpdateMaster(page: nat, moved: nat)
      modifies `master
      ensures master == map n | n in old(master) :: if moved != 0 && old(master)[n] == moved then page else old(master)[n]
    {
      master := map n | n in master :: if moved != 0 && master[n] == moved then page else master[n];
    }

    /** destroyRootPage: destroys a page above all others still to be destroyed. */
    method DestroyRootPage(page: nat, ghost doomed: set<nat>)
      requires Consistent(doomed) && page in doomed && forall p :: p in doomed ==> p <= page
      modifies this
      ensures Consistent(doomed - {page}) && master.Keys == old(master.Keys)
      ensures forall p :: p in doomed && p != page ==> p in pages && pages[p] == old(pages)[p]
    {
      ghost var was, rows := pages, master;
      var moved := OpDestroy(page);
      UpdateMaster(page, moved);
      Kept(was, rows, page, moved, doomed);
    }

    lemma Kept(was: map<nat, Name>, rows: map<Name, nat>, page: nat, moved: nat, doomed: set<nat>)
      requires 0 !in was && doomed <= was.Keys && page in doomed && forall p :: p in doomed ==> p <= page
      requires forall n :: n in rows ==> rows[n] in was && was[rows[n]] == n && rows[n] !in doomed
      requires forall p :: p in was && p !in doomed ==> was[p] in rows && rows[was[p]] == p
      requires moved != 0 ==> page < moved && moved in was
      requires pages == Freed(was, page, if moved == 0 then page else moved)
      requires master == map n | n in rows :: if moved != 0 && rows[n] == moved then page else rows[n]
      ensures Consistent(doomed - {page})
    {
    }

    lemma Real(doomed: set<nat>)
      requires Consistent(doomed)
      ensures 0 !in doomed && doomed <= pages.Keys
    {
    }

    /**
     * destroyTable. Every page of the table and its indices is destroyed once, the highest first;
     * none of them moves before its turn, and at the end every object that is left stands at the
     * page recorded for it.
     */
    method DestroyTable(iTab: nat, indices: seq<nat>) returns (order: seq<nat>, ghost found: seq<Name>)
      requires Consistent(Elements([iTab] + indices))
      modifies this
      ensures Falling(order) && Elements(order) == Elements([iTab] + indices)
      ensures |found| == |order| && forall i :: 0 <= i < |order| ==> order[i] in old(pages) && found[i] == old(pages)[order[i]]
      ensures Consistent({}) && master.Keys == old(master.Keys)
    {
      ghost var all, start, left := Elements([iTab] + indices), pages, Elements([iTab] + indices);
      hide Consistent, Falling, Elements;
      order, found := [], [];
      NoneYet();
      Real(left);
      var iDestroyed := 0;
      while true
        invariant Falling(order) && (iDestroyed == 0 <==> order == []) && (order != [] ==> order[|order| - 1] == iDestroyed)
        invariant left + Elements(order) == all && forall p :: p in all ==> (p in left <==> iDestroyed == 0 || p < iDestroyed)
        invariant Consistent(left) && master.Keys == old(master.Keys)
        invariant forall p :: p in left ==> p in start && p in pages && pages[p] == start[p]
        invariant |found| == |order| && forall i :: 0 <= i < |order| ==> order[i] in start && found[i] == start[order[i]]
        decreases if iDestroyed == 0 then 1 else 0, iDestroyed
      {
        var iLargest := Largest(iTab, indices, iDestroyed);
        Real(left);
        if iLargest == 0 {
          assert left == {};
          return;
        }
        assert iLargest in left;
        found := found + [pages[iLargest]];
        DestroyRootPage(iLargest, left);
        Snoc(order, iLargest);
        order := order + [iLargest];
        left := left - {iLargest};
        iDestroyed := iLargest;
      }
    }

    /** The largest page below the one destroyed last; 0 if there is none. */
    method Largest(iTab: nat, indices: seq<nat>, iDestroyed: nat) returns (iLargest: nat)
      ensures forall p :: p in Elements([iTab] + indices) && (iDestroyed == 0 || p < iDestroyed) ==> p <= iLargest
      ensures iLargest != 0 ==> iLargest in Elements([iTab] + indices) && (iDestroyed == 0 || iLargest < iDestroyed)
    {
      iLargest := 0;
      if iDestroyed == 0 || iTab < iDestroyed { iLargest := iTab; }
      var i := 0;
      while i < |indices|
        invariant 0 <= i <= |indices|
        invariant (iDestroyed == 0 || iTab < iDestroyed) ==> iTab <= iLargest
        invariant forall k :: 0 <= k < i && (iDestroyed == 0 || indices[k] < iDestroyed) ==> indices[k] <= iLargest
        invariant iLargest != 0 ==> (iLargest == iTab || iLargest in indices) && (iDestroyed == 0 || iLargest < iDestroyed)
      {
        var iIdx := indices[i];
        if (iDestroyed == 0 || iIdx < iDestroyed) && iIdx > iLargest { iLargest := iIdx; }
        i := i + 1;
      }
    }
  }
}
