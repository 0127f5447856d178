/** opt.c: the hash table in memory, its linked lists, and the policy that reads them. */
module OptPolicy {
  import opened Machine
  import opened OptIndex
  import Belady

  class Node {
    var trace: nat
    var next: Node?
    ghost const owner: Entry

    constructor (trace: nat, ghost owner: Entry)
      ensures this.trace == trace && next == null && this.owner == owner
    {
      this.trace := trace;
      next := null;
      this.owner := owner;
    }
  }

  /** struct hash_tbl_entry */
  class Entry {
    var vaddr: nat
    var head: Node?
    var back: Node?
    /** The nodes of the list, front first, the positions in them, and the slot the entry is in. */
    ghost var nodes: seq<Node>
    ghost var positions: seq<nat>
    ghost const home: nat

    ghost predicate Valid()
      reads this, nodes
    {
      && |positions| == |nodes|
      && (forall i :: 0 <= i < |nodes| ==> nodes[i].owner == this && nodes[i].trace == positions[i])
      && (forall i {:trigger nodes[i].next} :: 0 <= i < |nodes| ==>
            nodes[i].next == if i + 1 < |nodes| then nodes[i + 1] else null)
      && (forall i, j :: 0 <= i < j < |nodes| ==> nodes[i] != nodes[j])
      && (if nodes == [] then head == null && back == null else head == nodes[0] && back == nodes[|nodes| - 1])
    }

    constructor (vaddr: nat, ghost home: nat)
      ensures Valid() && this.vaddr == vaddr && nodes == [] && positions == [] && this.home == home
    {
      this.vaddr := vaddr;
      head, back := null, null;
      nodes, positions := [], [];
      this.home := home;
    }

    /** append() on this entry. */
    method Append(position: nat)
      requires Valid()
      modifies this, nodes
      ensures Valid() && vaddr == old(vaddr) && positions == old(positions) + [position]
      ensures forall n :: n in nodes ==> n in old(nodes) || fresh(n)
    {
      var n := new Node(position, this);
      if head == null {
        head, back := n, n;
      } else {
        back.next := n;
        back := n;
      }
      nodes, positions := nodes + [n], positions + [position];
    }

    /** delete() on this entry, whose list must not be empty. */
    method Delete()
      requires Valid() && positions != []
      modifies this, nodes
      ensures Valid() && vaddr == old(vaddr) && positions == old(positions)[1..]
      ensures nodes == old(nodes)[1..]
    {
      var deleted := head;
      if head == back {
        back := null;
        assert nodes[|nodes| - 1] == nodes[0];
      }
      assert nodes[0].next == if 1 < |nodes| then nodes[1] else null;
      head := head.next;
      deleted.next := null;
      nodes, positions := nodes[1..], positions[1..];
    }
  }

  class Opt {
    const memsize: nat
    const physmem: array<SimPage>
    const slots: array<Entry?>
    var currentTrace: nat
    /** What the hash table holds, and the objects it is made of. */
    ghost var table: seq<Option<Slot>>
    ghost var Repr: set<object>

    ghost predicate Valid()
      reads `table, `Repr, Repr
    {
      && this !in Repr && physmem !in Repr && slots in Repr && memsize == physmem.Length
      && slots.Length == HSIZE == |table|
      && forall i :: 0 <= i < HSIZE ==> SlotValid(i)
    }

    ghost predicate SlotValid(i: int)
      requires slots in Repr && 0 <= i < slots.Length && i < |table|
      reads `table, `Repr, Repr
    {
      var e := slots[i];
      if e == null then table[i] == None
      else
        && e in Repr && e.home == i && (forall n :: n in e.nodes ==> n in Repr) && e.Valid()
        && table[i] == Some(Slot(e.vaddr, e.positions))
    }

    constructor (physmem: array<SimPage>)
      ensures Valid() && fresh(this) && fresh(Repr) && this.physmem == physmem && currentTrace == 0
      ensures forall i :: 0 <= i < HSIZE ==> table[i].None?
    {
      memsize := physmem.Length;
      this.physmem := physmem;
      slots := new Entry?[HSIZE](_ => null);
      currentTrace := 0;
      table := seq(HSIZE, _ => None);
      new;
      Repr := {slots};
    }

    /** search(), with its own tests and indices; the outcome NullDereference is a crash. */
    method Search(v: nat) returns (r: Found)
      requires Valid()
      ensures r == OptIndex.Search(table, v)
    {
      var h := Hash(v);
      assert SlotValid(h);
      if slots[h] != null && slots[h].vaddr == v {
        return At(h);
      }
      for i := 0 to HSIZE
        invariant OptIndex.Search(table, v) == SearchFrom(table, v, i)
      {
        var index := (h + i) % 4096 * 4096;
        assert SlotValid(index);
        if slots[h] != null {
          if slots[index] == null {
            return NullDereference;
          }
          if slots[index].vaddr == v {
            return At(index);
          }
        } else if slots[index] == null {
          return Absent;
        }
      }
      return Absent;
    }

    /** append(k) */
    method Append(k: nat)
      requires Valid() && k < HSIZE && slots[k] != null
      modifies Repr, `Repr, `table
      ensures Valid() && fresh(Repr - old(Repr)) && currentTrace == old(currentTrace)
      ensures old(table[k]).Some?
      ensures var was := old(table[k]).value;
              table == old(table)[k := Some(Slot(was.page, was.positions + [currentTrace]))]
    {
      assert SlotValid(k);
      var e := slots[k];
      label before:
      e.Append(currentTrace);
      table := table[k := Some(Slot(e.vaddr, e.positions))];
      Repr := Repr + set n | n in e.nodes;
      forall i | 0 <= i < HSIZE
        ensures SlotValid(i)
      {
        assert old(SlotValid(i));
        var o := slots[i];
        if i != k && o != null {
          assert o != e;
          assert forall n :: n in o.nodes ==> n.owner == o;
          assert unchanged@before(o);
        }
      }
    }

    /** delete(k), whose list must not be empty. */
    method Delete(k: nat)
      requires Valid() && k < HSIZE && table[k].Some? && table[k].value.positions != []
      modifies Repr, `table
      ensures Valid() && Repr == old(Repr) && currentTrace == old(currentTrace)
      ensures table == Popped(old(table), k)
    {
      assert SlotValid(k);
      var e := slots[k];
      label before:
      e.Delete();
      table := table[k := Some(Slot(e.vaddr, e.positions))];
      forall i | 0 <= i < HSIZE
        ensures SlotValid(i)
      {
        assert old(SlotValid(i));
        var o := slots[i];
        if i != k && o != null {
          assert o != e;
          assert forall n :: n in o.nodes ==> n.owner == o;
          assert unchanged@before(o);
        }
      }
    }

    /** A new entry for page `v` in the empty slot `k`, with the current position as its list. */
    method Occupy(k: nat, v: nat)
      requires Valid() && k < HSIZE && slots[k] == null
      modifies Repr, `Repr, `table
      ensures Valid() && fresh(Repr - old(Repr)) && currentTrace == old(currentTrace)
      ensures table == Appended(old(table), k, v, currentTrace)
    {
      assert SlotValid(k);
      var e := new Entry(v, k);
      slots[k] := e;
      Repr := Repr + {e};
      table := table[k := Some(Slot(v, []))];
      forall i | 0 <= i < HSIZE
        ensures SlotValid(i)
      {
        assert old(SlotValid(i));
      }
      Append(k);
      assert [] + [currentTrace] == [currentTrace];
    }

    /** insert(): appends the current position to the list of page `v`; false is the exit for a full table. */
    method Insert(v: nat) returns (ok: bool)
      requires Valid()
      modifies Repr, `Repr, `table
      ensures Valid() && fresh(Repr - old(Repr)) && currentTrace == old(currentTrace)
      ensures match InsertAt(old(table), v)
              case None => !ok && table == old(table)
              case Some(k) => ok && table == Appended(old(table), k, v, currentTrace)
    {
      var h := Hash(v);
      assert SlotValid(h);
      if slots[h] == null {
        Occupy(h, v);
      } else {
        for i := 0 to HSIZE
          invariant Valid() && table == old(table) && Repr == old(Repr) && currentTrace == old(currentTrace)
          invariant InsertAt(old(table), v) == InsertFrom(old(table), v, i)
        {
          var index := (h + i) % HSIZE;
          assert SlotValid(index);
          if slots[index] != null && slots[index].vaddr == v {
            Append(index);
            return true;
          } else if slots[index] == null {
            Occupy(index, v);
            return true;
          }
        }
        return false;
      }
      return true;
    }

    /** opt_init: reads the trace once and indexes it. */
    method Init(trace: seq<Ref>) returns (ok: bool)
      requires Valid() && currentTrace == 0
      requires forall i :: 0 <= i < HSIZE ==> table[i].None?
      requires forall i :: 0 <= i < |trace| ==> trace[i].vaddr < VADDRS
      modifies this, Repr
      ensures Valid() && fresh(Repr - old(Repr)) && ok && currentTrace == 0
      ensures Indexes(table, Pages(trace), 0, |trace|)
    {
      for i := 0 to |trace|
        invariant Valid() && fresh(Repr - old(Repr)) && currentTrace == i
        invariant Indexes(table, Pages(trace), 0, i)
      {
        InsertIndexes(table, Pages(trace), i);
        ok := Insert(trace[i].vaddr / PAGE_SIZE);
        currentTrace := currentTrace + 1;
      }
      currentTrace := 0;
      return true;
    }

    /** What opt_evict needs: the index is at the current position and covers every page in memory. */
    ghost predicate Ready(trace: seq<nat>)
      reads this, physmem
    {
      && currentTrace <= |trace| && |table| == HSIZE && Indexes(table, trace, currentTrace, |trace|)
      && 1 <= memsize == physmem.Length
      && forall i :: 0 <= i < physmem.Length ==>
           PageOf(physmem[i].vaddr) < HSIZE && PageOf(physmem[i].vaddr) in trace
    }

    /** The position at the head of the list of the page in frame `i`, if its list is not empty. */
    method NextUseOf(i: nat, ghost trace: seq<nat>) returns (next: Option<nat>)
      requires Valid() && Ready(trace) && i < memsize
      ensures var use := Belady.NextUse(trace, currentTrace, PageOf(physmem[i].vaddr));
              match next case None => use == |trace| case Some(position) => use == position < |trace|
    {
      var v := physmem[i].vaddr / PAGE_SIZE;
      LookupIsNextUse(table, trace, currentTrace, v);
      var found := Search(v);
      var index := found.index;
      assert SlotValid(index);
      if slots[index].head == null {
        next := None;
      } else {
        next := Some(slots[index].head.trace);
      }
    }

    /** opt_evict: the first frame whose page is never used again or, failing that, is used last. */
    method Evict(ghost trace: seq<nat>) returns (frame: int)
      requires Valid() && Ready(trace)
      ensures frame == OptVictim(trace, currentTrace, FramePages(physmem[..]), memsize)
    {
      ghost var pages := FramePages(physmem[..]);
      var maxTrace: int := -1;
      frame := -1;
      for i := 0 to memsize
        invariant if i == 0 then maxTrace == -1
                  else frame == OptVictim(trace, currentTrace, pages, i)
                       && maxTrace == Belady.NextUse(trace, currentTrace, pages[frame]) < |trace|
      {
        var next := NextUseOf(i, trace);
        if next.None? {
          NeverUsedWins(trace, currentTrace, pages, i, memsize);
          return i;
        } else if maxTrace < next.value {
          maxTrace := next.value;
          frame := i;
        }
      }
    }

    /** opt_ref on the page in frame `f`: takes the position being replayed off the page's list; false is the
        exit for a page that was not indexed. */
    method Ref(f: nat, ghost trace: seq<nat>) returns (ok: bool)
      requires Valid() && f < physmem.Length && currentTrace < |trace|
      requires Indexes(table, trace, currentTrace, |trace|)
      requires PageOf(physmem[f].vaddr) == trace[currentTrace] < HSIZE
      modifies Repr, `table, `currentTrace
      ensures Valid() && Repr == old(Repr)
      ensures ok && currentTrace == old(currentTrace) + 1 && Indexes(table, trace, currentTrace, |trace|)
    {
      DeleteIndexes(table, trace, currentTrace);
      var found := Search(physmem[f].vaddr / PAGE_SIZE);
      if found.At? {
        Delete(found.index);
      } else {
        return false;
      }
      currentTrace := currentTrace + 1;
      return true;
    }
  }

  /** A page that is never used again, after pages that all are, is the victim of the whole scan. */
  lemma {:induction false} NeverUsedWins(trace: seq<nat>, t: nat, pages: seq<nat>, i: nat, n: nat)
    requires t <= |trace| && i < n <= |pages| && Belady.NextUse(trace, t, pages[i]) == |trace|
    requires forall j :: 0 <= j < i ==> Belady.NextUse(trace, t, pages[j]) < |trace|
    ensures OptVictim(trace, t, pages, n) == i
  {
  }
}
