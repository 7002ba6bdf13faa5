/*
 * The NSDictionary wrapper: a collection handle paired with the key
 * enumerator captured when the wrapper was built.  Iterating it is a
 * two-state machine: while the enumerator has keys left (Ready) each `next`
 * yields one (key, value) pair; once it answers null (Exhausted) every
 * `next` answers None.  The collection itself never changes; only the
 * enumerator's cursor moves.
 */
module Dictionary {
  import opened Native
  import opened Fmt
  import opened Error

  class NSDictionary {
    /** The keys, in the order the enumerator captured at wrap time yields them. */
    const keys: seq<string>
    /** `objectForKey:` of the wrapped collection. */
    const m: map<string, Value>
    /** `count` of the wrapped collection. */
    const count: nat
    /** How many keys the enumerator has handed out. */
    var pos: nat

    ghost predicate Valid()
      reads this
    {
      pos <= |keys| && WellFormedHandle(Handle())
    }

    /** The native collection this wrapper holds. */
    function Handle(): DictHandle
    {
      DictHandle(keys, m, count)
    }

    /** The pairs the iteration has still to yield. */
    ghost function Remaining(): seq<(string, Value)>
      reads this
      requires Valid()
    {
      Entries(Handle())[pos..]
    }

    /** The enumerator has answered null, or will on its next call. */
    ghost predicate Exhausted()
      reads this
    {
      pos == |keys|
    }

    /** `NSDictionary::new`: an empty collection together with its key enumerator. */
    constructor ()
      ensures Valid()
      ensures Handle() == DictHandle([], map[], 0)
      ensures pos == 0 && Remaining() == [] && IsEmpty()
    {
      keys, m, count := [], map[], 0;
      pos := 0;
    }

    /**
     * `From<id>` and `From<bindings::NSDictionary>`: wraps the collection and
     * asks it for a new key enumerator, which starts at the first key whatever
     * any other wrapper of the same collection has consumed.
     */
    constructor FromHandle(h: DictHandle)
      requires WellFormedHandle(h)
      ensures Valid()
      ensures Handle() == h
      ensures pos == 0 && Remaining() == Entries(h) && |Remaining()| == |h.order|
    {
      keys, m, count := h.order, h.entries, h.count;
      pos := 0;
    }

    /**
     * `len()`: the native count; it reads no mutable field, so no cursor move
     * can change it.  On a faithful collection it is the number of pairs a
     * full iteration yields.
     */
    function Len(): (n: nat)
      ensures Faithful(Handle()) ==> n == |Entries(Handle())|
    {
      assert Faithful(Handle()) ==> count == |Entries(Handle())| by {
        if Faithful(Handle()) {
          FaithfulEntriesCount(Handle());
        }
      }
      count
    }

    /** `is_empty()`: on a faithful collection, exactly when iterating it yields nothing. */
    function IsEmpty(): (b: bool)
      ensures b <==> Len() == 0
      ensures Faithful(Handle()) ==> (b <==> Entries(Handle()) == [])
    {
      Len() == 0
    }

    /** The enumerator's `nextObject`: the next key, or None (null) once all were handed out. */
    method NextObject() returns (key: Option<string>)
      requires Valid()
      modifies this
      ensures Valid()
      ensures old(pos) < |keys| ==> key == Some(keys[old(pos)]) && pos == old(pos) + 1
      ensures old(pos) == |keys| ==> key == None && pos == old(pos)
    {
      if pos < |keys| {
        key := Some(keys[pos]);
        pos := pos + 1;
      } else {
        key := None;
      }
    }

    /**
     * `Iterator::next`: a key from the enumerator is looked up and yielded
     * with its value, the cursor moving by one; a null key yields None and
     * leaves the wrapper exhausted, so every later call yields None too.
     * The collection and its count never change.
     */
    method Next() returns (item: Option<(string, Value)>)
      requires Valid()
      modifies this
      ensures Valid()
      ensures old(Remaining()) == [] ==> item == None && pos == old(pos)
      ensures old(Remaining()) != [] ==> item == Some(old(Remaining())[0]) && pos == old(pos) + 1
      ensures Remaining() == if item.None? then old(Remaining()) else old(Remaining())[1..]
      ensures item.Some? ==> item.value.0 in m && item.value == (item.value.0, m[item.value.0])
      ensures item.None? <==> old(Exhausted())
      ensures item.None? ==> Exhausted()
    {
      var keyPtr := NextObject();
      if keyPtr.Some? {
        var value := m[keyPtr.value];
        item := Some((keyPtr.value, value));
      } else {
        item := None;
      }
    }

    /**
     * The `Debug` text: walks a new wrapper of the same collection, so the
     * text lists every entry whatever this wrapper has consumed, and this
     * wrapper's cursor is left where it was (the method modifies nothing).
     * Each value is classified by its runtime class (see `DebugValue`).
     */
    method Debug() returns (s: string)
      requires Valid()
      requires forall k :: k in m ==> RuntimeValue(m[k])
      ensures s == DebugMap(Entries(Handle()))
    {
      var all := Entries(Handle());
      var copy := new NSDictionary.FromHandle(Handle());
      s := "{";
      var hasFields := false;
      while true
        invariant copy.Valid() && copy.Handle() == Handle()
        invariant copy.Remaining() == all[copy.pos..]
        invariant hasFields <==> copy.pos > 0
        invariant s == "{" + DebugEntries(all[..copy.pos])
        decreases |keys| - copy.pos
      {
        ghost var done := copy.pos;
        var item := copy.Next();
        if item.None? {
          break;
        }
        var (k, v) := item.value;
        assert item.value == all[done];
        var sep := if hasFields then ", " else "";
        var entry := MapEntryOf(k, DebugValue(v));
        DebugEntriesAppend(all, done, s, sep, entry);
        s := s + sep + entry;
        hasFields := true;
        assert copy.pos == done + 1;
        assert s == "{" + DebugEntries(all[..done + 1]);
      }
      assert all[..copy.pos] == all;
      s := s + "}";
    }
  }
}
