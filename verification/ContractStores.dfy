/** The ring of recent roots and the set of spent nullifiers, both keyed by wire bytes. */
module ContractStores {
  import opened Arithmetic
  import opened Residues

  type u32 = x: int | 0 <= x < 0x1_0000_0000

  // ----- roots.rs -----

  /** The last `capacity` entries of a history, or all of it while it is shorter. */
  function Recent(pushed: seq<Fe>, capacity: nat): seq<Fe> {
    if |pushed| <= capacity then pushed else pushed[|pushed| - capacity..]
  }

  /**
   * A root pushed once stays acceptable through the next `capacity - 1` pushes and is
   * rejected afterwards, unless one of the last `capacity` pushes repeated it.
   */
  lemma RecentLifetime(pushed: seq<Fe>, root: Fe, more: seq<Fe>, capacity: nat)
    requires capacity > 0
    ensures root in Recent(pushed + [root] + more, capacity) <==> |more| < capacity || root in Recent(more, capacity)
  {
    var all := pushed + [root] + more;
    var recent := Recent(all, capacity);
    var skipped := |all| - |recent|;
    assert recent == all[skipped..];
    if |more| < capacity {
      assert recent[|pushed| - skipped] == root;
    } else {
      assert recent == Recent(more, capacity);
    }
  }

  class RootsWindow {
    const capacity: u32
    var head: u32
    var len: u32
    var roots: seq<Bytes32>
    /** Every root pushed so far. */
    ghost var pushed: seq<Fe>

    /** Slot `j % capacity` holds push `j`, for the pushes that have not been overwritten. */
    ghost predicate Valid()
      reads this
    {
      && capacity > 0
      && len == |roots| == |Recent(pushed, capacity)|
      && head == |pushed| % capacity
      && Holds(roots, pushed, capacity)
    }

    constructor (capacity: u32)
      requires capacity > 0
      ensures Valid() && pushed == [] && this.capacity == capacity
    {
      this.capacity := capacity;
      head, len, roots, pushed := 0, 0, [], [];
    }

    method Push(root: Fe)
      requires Valid()
      modifies this
      ensures Valid() && pushed == old(pushed) + [root]
    {
      var bytes := ToBytesBe(root);
      SlotOfPush(|pushed|, capacity);
      if len < capacity {
        HoldsWhileFilling(roots, pushed, capacity, root);
        roots := roots + [bytes];
        len := len + 1;
        head := (head + 1) % capacity;
      } else {
        HoldsAfterOverwrite(roots, pushed, capacity, root);
        roots := roots[head := bytes];
        head := (head + 1) % capacity;
      }
      pushed := pushed + [root];
    }

    /** `contains`: exactly the last `capacity` pushes are accepted. */
    method Contains(root: Fe) returns (r: bool)
      requires Valid()
      ensures r <==> root in Recent(pushed, capacity)
    {
      var bytes := ToBytesBe(root);
      r := bytes in roots;
      HeldExactly(roots, pushed, capacity, root);
    }
  }

  ghost predicate Holds(slots: seq<Bytes32>, pushed: seq<Fe>, capacity: int)
    requires capacity > 0
  {
    && |slots| == |Recent(pushed, capacity)|
    && forall j {:trigger pushed[j]} :: |pushed| - |slots| <= j < |pushed| ==>
         j % capacity < |slots| && slots[j % capacity] == ToBytesBe(pushed[j])
  }

  /** The next push lands in slot `n % capacity`, which no other live push uses. */
  lemma SlotOfPush(n: nat, capacity: nat)
    requires capacity > 0
    ensures (n % capacity + 1) % capacity == (n + 1) % capacity
    ensures n < capacity ==> n % capacity == n
    ensures forall j :: n - capacity < j < n ==> j % capacity != n % capacity
  {
    ModAdd(n, 1, capacity);
    if n < capacity {
      ModSmall(n, capacity);
    }
    forall j | n - capacity < j < n
      ensures j % capacity != n % capacity
    {
      if j % capacity == n % capacity {
        ModDiff(n, j, capacity);
        MulStrictlyBetween(n / capacity - j / capacity, capacity);
      }
    }
  }

  lemma HoldsWhileFilling(slots: seq<Bytes32>, pushed: seq<Fe>, capacity: nat, root: Fe)
    requires capacity > 0 && Holds(slots, pushed, capacity) && |slots| < capacity
    ensures Holds(slots + [ToBytesBe(root)], pushed + [root], capacity)
  {
    assert |slots| == |pushed|;
    forall j | 0 <= j <= |pushed|
      ensures j % capacity == j
    {
      ModSmall(j, capacity);
    }
    var after := slots + [ToBytesBe(root)];
    forall j | 0 <= j < |pushed + [root]|
      ensures after[j % capacity] == ToBytesBe((pushed + [root])[j])
    {
      if j < |pushed| {
        assert slots[j % capacity] == ToBytesBe(pushed[j]);
      }
    }
  }

  lemma HoldsAfterOverwrite(slots: seq<Bytes32>, pushed: seq<Fe>, capacity: nat, root: Fe)
    requires capacity > 0 && Holds(slots, pushed, capacity) && |slots| == capacity
    ensures Holds(slots[|pushed| % capacity := ToBytesBe(root)], pushed + [root], capacity)
  {
    var n := |pushed|;
    SlotOfPush(n, capacity);
    var after := slots[n % capacity := ToBytesBe(root)];
    forall j | n + 1 - capacity <= j < n + 1
      ensures j % capacity < |after| && after[j % capacity] == ToBytesBe((pushed + [root])[j])
    {
      if j < n {
        assert slots[j % capacity] == ToBytesBe(pushed[j]);
      }
    }
  }

  /** Every slot is in use, so a match is a recent root. */
  lemma HeldExactly(slots: seq<Bytes32>, pushed: seq<Fe>, capacity: nat, root: Fe)
    requires capacity > 0 && Holds(slots, pushed, capacity)
    ensures ToBytesBe(root) in slots <==> root in Recent(pushed, capacity)
  {
    var n, recent := |pushed|, Recent(pushed, capacity);
    var skipped := n - |slots|;
    if root in recent {
      var i :| 0 <= i < |recent| && recent[i] == root;
      assert pushed[skipped + i] == root;
      assert slots[(skipped + i) % capacity] == ToBytesBe(root);
    }
    if ToBytesBe(root) in slots {
      var slot :| 0 <= slot < |slots| && slots[slot] == ToBytesBe(root);
      var j := PushInSlot(n, |slots|, capacity, slot);
      assert slots[j % capacity] == ToBytesBe(pushed[j]);
      WireInjective(root, pushed[j]);
      assert recent[j - skipped] == root;
    }
  }

  lemma PushInSlot(n: nat, live: nat, capacity: nat, slot: nat) returns (j: nat)
    requires capacity > 0 && slot < live && live == if n <= capacity then n else capacity
    ensures n - live <= j < n && j % capacity == slot
  {
    if n <= capacity {
      j := slot;
      ModSmall(slot, capacity);
    } else {
      var base := n - capacity;
      var r := base % capacity;
      j := if slot >= r then base + (slot - r) else base + (slot - r) + capacity;
      var q := base / capacity;
      assert base == capacity * q + r;
      if slot >= r {
        DivModUnique(j, q, slot, capacity);
      } else {
        assert capacity * (q + 1) == capacity * q + capacity;
        DivModUnique(j, q + 1, slot, capacity);
      }
    }
  }

  // ----- nullifiers.rs -----

  class NullifierSet {
    var keys: set<Bytes32>
    /** The elements whose canonical bytes are in the set. */
    ghost var elements: set<Fe>

    ghost predicate Valid()
      reads this
    {
      keys == set n | n in elements :: ToBytesBe(n)
    }

    constructor ()
      ensures Valid() && elements == {}
    {
      keys, elements := {}, {};
    }

    method Contains(n: Fe) returns (r: bool)
      requires Valid()
      ensures r <==> n in elements
    {
      r := ToBytesBe(n) in keys;
      KeyOf(keys, elements, n);
    }

    /** `insert`: true exactly when the nullifier was not there. */
    method Insert(n: Fe) returns (isNew: bool)
      requires Valid()
      modifies this
      ensures Valid() && elements == old(elements) + {n}
      ensures isNew <==> n !in old(elements)
    {
      isNew := ToBytesBe(n) !in keys;
      KeyOf(keys, elements, n);
      keys, elements := keys + {ToBytesBe(n)}, elements + {n};
    }
  }

  lemma KeyOf(keys: set<Bytes32>, elements: set<Fe>, n: Fe)
    requires keys == set m | m in elements :: ToBytesBe(m)
    ensures ToBytesBe(n) in keys <==> n in elements
  {
    if ToBytesBe(n) in keys {
      var m :| m in elements && ToBytesBe(m) == ToBytesBe(n);
      WireInjective(m, n);
    }
  }
}
