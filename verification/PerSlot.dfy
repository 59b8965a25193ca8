/** A value per player slot, kept as a vector of (slot, value) entries in
    strictly increasing slot order and searched by bisection. */
module PerSlot {
  import opened Packets

  datatype Entry<T> = Entry(slot: UInt8, value: T)

  predicate Sorted<T>(es: seq<Entry<T>>) {
    forall i, j :: 0 <= i < j < |es| ==> es[i].slot < es[j].slot
  }

  /** The entry's value, or the default when the slot has none. */
  function Get<T>(es: seq<Entry<T>>, slot: UInt8, default: T): T {
    if es == [] then default
    else if es[0].slot == slot then es[0].value
    else Get(es[1..], slot, default)
  }

  function Put<T>(es: seq<Entry<T>>, slot: UInt8, value: T): seq<Entry<T>> {
    if es == [] || slot < es[0].slot then [Entry(slot, value)] + es
    else if es[0].slot == slot then [Entry(slot, value)] + es[1..]
    else [es[0]] + Put(es[1..], slot, value)
  }

  /** The vector without the entries that hold the default value. */
  function NonDefault<T(==)>(es: seq<Entry<T>>, default: T): seq<Entry<T>> {
    if es == [] then []
    else (if es[0].value != default then [es[0]] else []) + NonDefault(es[1..], default)
  }

  /** Sorted vectors with the same entries are the same vector. */
  lemma {:induction false} SortedExtensional<T>(a: seq<Entry<T>>, b: seq<Entry<T>>)
    requires Sorted(a) && Sorted(b)
    requires forall e :: e in a <==> e in b
    ensures a == b
  {
    assert a != [] ==> a[0] in a;
    assert b != [] ==> b[0] in b;
    if a != [] && b != [] {
      assert a[0] in b && b[0] in a;
      assert a[0] == b[0];
      forall e ensures e in a[1..] <==> e in b[1..] {
        TailMembership(a, e);
        TailMembership(b, e);
      }
      SortedExtensional(a[1..], b[1..]);
      assert a == [a[0]] + a[1..] && b == [b[0]] + b[1..];
    }
  }

  lemma TailMembership<T>(a: seq<Entry<T>>, e: Entry<T>)
    requires a != [] && Sorted(a)
    ensures e in a[1..] <==> e in a && e != a[0]
  {
    if e in a && e != a[0] {
      var i :| 0 <= i < |a| && a[i] == e;
      assert a[1..][i - 1] == e;
    }
  }

  lemma {:induction false} GetIsMembership<T>(es: seq<Entry<T>>, slot: UInt8, default: T)
    requires Sorted(es)
    ensures forall e :: e in es && e.slot == slot ==> Get(es, slot, default) == e.value
    ensures (forall e :: e in es ==> e.slot != slot) ==> Get(es, slot, default) == default
    ensures Entry(slot, Get(es, slot, default)) in es || Get(es, slot, default) == default
  {
    if es != [] {
      GetIsMembership(es[1..], slot, default);
      forall e | e in es ensures e == es[0] || e in es[1..] {
        TailMembership(es, e);
      }
    }
  }

  /** A sorted vector taken apart, and put together. */
  lemma SortedUncons<T>(es: seq<Entry<T>>)
    requires es != [] && Sorted(es)
    ensures Sorted(es[1..])
    ensures forall e :: e in es[1..] ==> es[0].slot < e.slot
    ensures forall e :: e in es <==> e == es[0] || e in es[1..]
  {
    assert es == [es[0]] + es[1..];
  }

  lemma SortedCons<T>(x: Entry<T>, es: seq<Entry<T>>)
    requires Sorted(es)
    requires forall e :: e in es ==> x.slot < e.slot
    ensures Sorted([x] + es)
  {
    assert forall i :: 0 <= i < |es| ==> es[i] in es;
  }

  lemma {:induction false} PutMembership<T>(es: seq<Entry<T>>, slot: UInt8, value: T)
    requires Sorted(es)
    ensures Sorted(Put(es, slot, value))
    ensures forall e :: e in Put(es, slot, value) ==> e == Entry(slot, value) || (e in es && e.slot != slot)
    ensures forall e :: e == Entry(slot, value) || (e in es && e.slot != slot) ==> e in Put(es, slot, value)
  {
    if es == [] {
    } else {
      SortedUncons(es);
      if slot < es[0].slot {
        SortedCons(Entry(slot, value), es);
      } else if es[0].slot == slot {
        SortedCons(Entry(slot, value), es[1..]);
      } else {
        PutMembership(es[1..], slot, value);
        SortedCons(es[0], Put(es[1..], slot, value));
      }
    }
  }

  lemma {:induction false} NonDefaultMembership<T>(es: seq<Entry<T>>, default: T)
    requires Sorted(es)
    ensures Sorted(NonDefault(es, default))
    ensures forall e :: e in NonDefault(es, default) ==> e in es && e.value != default
    ensures forall e :: e in es && e.value != default ==> e in NonDefault(es, default)
  {
    if es != [] {
      SortedUncons(es);
      NonDefaultMembership(es[1..], default);
      if es[0].value != default {
        SortedCons(es[0], NonDefault(es[1..], default));
      }
    }
  }

  // ---- Rebuilding a vector from a list of slots --------------------------------

  /** Copies the non-default values of the listed slots from `src` into `acc`. */
  function PutAll<T(==)>(acc: seq<Entry<T>>, src: seq<Entry<T>>, default: T, slots: seq<UInt8>): seq<Entry<T>>
    decreases slots
  {
    if slots == [] then acc
    else
      var v := Get(src, slots[0], default);
      PutAll(if v != default then Put(acc, slots[0], v) else acc, src, default, slots[1..])
  }

  lemma {:induction false} PutAllMembership<T>(acc: seq<Entry<T>>, src: seq<Entry<T>>, default: T, slots: seq<UInt8>)
    requires Sorted(acc)
    requires forall e :: e in acc ==> e.value == Get(src, e.slot, default) && e.value != default
    ensures Sorted(PutAll(acc, src, default, slots))
    ensures forall e :: e in PutAll(acc, src, default, slots) ==>
              e in acc || (e.slot in slots && e.value == Get(src, e.slot, default) && e.value != default)
    ensures forall e :: e in acc || (e.slot in slots && e.value == Get(src, e.slot, default) && e.value != default) ==>
              e in PutAll(acc, src, default, slots)
    decreases slots
  {
    if slots != [] {
      var v := Get(src, slots[0], default);
      if v != default {
        PutMembership(acc, slots[0], v);
        PutAllMembership(Put(acc, slots[0], v), src, default, slots[1..]);
      } else {
        PutAllMembership(acc, src, default, slots[1..]);
      }
    }
  }

  /** Inserting slot by slot, in any order, rebuilds the sorted vector without
      its default entries, as long as every slot that holds data is listed. */
  lemma PutAllRebuilds<T>(src: seq<Entry<T>>, default: T, slots: seq<UInt8>)
    requires Sorted(src)
    requires forall e :: e in src && e.value != default ==> e.slot in slots
    ensures PutAll([], src, default, slots) == NonDefault(src, default)
  {
    var a, b := PutAll([], src, default, slots), NonDefault(src, default);
    PutAllMembership([], src, default, slots);
    NonDefaultMembership(src, default);
    forall e ensures e in a <==> e in b {
      GetIsMembership(src, e.slot, default);
    }
    SortedExtensional(a, b);
  }

  // ---- The mutable vector ----------------------------------------------------

  class PerSlotValue<T> {
    var entries: seq<Entry<T>>

    ghost predicate Valid()
      reads this
    {
      Sorted(entries)
    }

    constructor ()
      ensures Valid() && entries == []
    {
      entries := [];
    }

    /** Bisection for the first entry whose slot is not below `slot`. */
    method LowerBound(slot: UInt8) returns (at: nat)
      requires Valid()
      ensures at <= |entries|
      ensures forall i :: 0 <= i < at ==> entries[i].slot < slot
      ensures forall i :: at <= i < |entries| ==> slot <= entries[i].slot
    {
      var lo, hi := 0, |entries|;
      while lo < hi
        invariant 0 <= lo <= hi <= |entries|
        invariant forall i :: 0 <= i < lo ==> entries[i].slot < slot
        invariant forall i :: hi <= i < |entries| ==> slot <= entries[i].slot
      {
        var mid := (lo + hi) / 2;
        if entries[mid].slot < slot {
          lo := mid + 1;
        } else {
          hi := mid;
        }
      }
      at := lo;
    }

    /** Assignment through the mutable subscript. */
    method Set(slot: UInt8, value: T)
      requires Valid()
      modifies this
      ensures Valid() && entries == Put(old(entries), slot, value)
    {
      var at := LowerBound(slot);
      PutSplices(entries, at, slot, value);
      PutMembership(entries, slot, value);
      if at < |entries| && entries[at].slot == slot {
        entries := entries[at := Entry(slot, value)];
      } else {
        entries := entries[..at] + [Entry(slot, value)] + entries[at..];
      }
    }

    method Lookup(slot: UInt8, default: T) returns (v: T)
      requires Valid()
      ensures v == Get(entries, slot, default)
    {
      var at := LowerBound(slot);
      GetIsMembership(entries, slot, default);
      if at < |entries| && entries[at].slot == slot {
        v := entries[at].value;
        assert entries[at] in entries;
      } else {
        v := default;
      }
    }

    method Erase(slot: UInt8)
      requires Valid()
      modifies this
      ensures Valid()
      ensures forall e :: e in entries <==> e in old(entries) && e.slot != slot
    {
      var at := LowerBound(slot);
      if at < |entries| && entries[at].slot == slot {
        assert entries == entries[..at] + [entries[at]] + entries[at + 1..];
        entries := entries[..at] + entries[at + 1..];
      }
    }
  }

  lemma {:induction false} PutSplices<T>(es: seq<Entry<T>>, at: nat, slot: UInt8, value: T)
    requires Sorted(es) && at <= |es|
    requires forall i :: 0 <= i < at ==> es[i].slot < slot
    requires forall i :: at <= i < |es| ==> slot <= es[i].slot
    ensures Put(es, slot, value) ==
            if at < |es| && es[at].slot == slot then es[at := Entry(slot, value)]
            else es[..at] + [Entry(slot, value)] + es[at..]
  {
    var e := Entry(slot, value);
    if at == 0 {
      assert es[..0] + [e] + es[0..] == [e] + es;
    } else {
      assert es[0].slot < slot;
      PutSplices(es[1..], at - 1, slot, value);
      ConsSplices(es[0], es[1..], at - 1, e);
      assert es == [es[0]] + es[1..];
    }
  }

  lemma ConsSplices<T>(x: T, es: seq<T>, at: nat, e: T)
    requires at <= |es|
    ensures var all := [x] + es;
            && (at < |es| ==> all[at + 1 := e] == [x] + es[at := e])
            && all[..at + 1] + [e] + all[at + 1..] == [x] + (es[..at] + [e] + es[at..])
  {}
}
