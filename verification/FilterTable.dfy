/** windows/minifilter/paguro_flt.c: the table of protected files, and the two loops over it. */
module FilterTable {

  const MAX_PROTECTED := 32

  /** A file: its volume's GUID and its 128-bit id. */
  datatype Key = Key(volume: int, fileId: int)

  datatype Entry = Unused | Used(key: Key, deny: nat)

  predicate Holds(e: Entry, k: Key) {
    e.Used? && e.key == k
  }

  /** The first entry for the key, or the length. */
  function Find(t: seq<Entry>, k: Key): (i: nat)
    ensures i <= |t|
    ensures i < |t| ==> Holds(t[i], k)
    ensures forall j :: 0 <= j < i ==> !Holds(t[j], k)
  {
    if t == [] then 0 else if Holds(t[0], k) then 0 else 1 + Find(t[1..], k)
  }

  function FindUnused(t: seq<Entry>): (i: nat)
    ensures i <= |t|
    ensures i < |t| ==> t[i].Unused?
    ensures forall j :: 0 <= j < i ==> t[j].Used?
  {
    if t == [] then 0 else if t[0].Unused? then 0 else 1 + FindUnused(t[1..])
  }

  /** The deny flags of a file: 0 when it is not protected. */
  function Deny(t: seq<Entry>, k: Key): nat {
    if Find(t, k) < |t| then t[Find(t, k)].deny else 0
  }

  /** The number of entries in use. */
  function InUse(t: seq<Entry>): nat {
    if t == [] then 0 else (if t[0].Used? then 1 else 0) + InUse(t[1..])
  }

  /** No file twice, and every entry denies something. */
  ghost predicate Proper(t: seq<Entry>) {
    && (forall i, j :: 0 <= i < j < |t| && t[i].Used? && t[j].Used? ==> t[i].key != t[j].key)
    && (forall i :: 0 <= i < |t| && t[i].Used? ==> t[i].deny != 0)
  }

  /** The change goes through: the file is there, or it is new and there is room. */
  predicate Accepts(t: seq<Entry>, k: Key, deny: nat) {
    Find(t, k) < |t| || (deny != 0 && FindUnused(t) < |t|)
  }

  /** The table after PgUpdate: deny flags set, or the entry removed when they are 0. */
  function Updated(t: seq<Entry>, k: Key, deny: nat): (r: seq<Entry>)
    ensures |r| == |t|
  {
    if Find(t, k) < |t| then t[Find(t, k) := if deny != 0 then Used(k, deny) else Unused]
    else if deny != 0 && FindUnused(t) < |t| then t[FindUnused(t) := Used(k, deny)]
    else t
  }

  // ---- the table as a map --------------------------------------------------

  lemma {:induction false} FindAt(t: seq<Entry>, k: Key, i: nat)
    requires Proper(t) && i < |t| && Holds(t[i], k)
    ensures Find(t, k) == i && Deny(t, k) == t[i].deny
  {
  }

  /** Every file's flags after an update: the new ones for its file, the old ones for all others. */
  lemma {:induction false} UpdatedDeny(t: seq<Entry>, k: Key, deny: nat, x: Key)
    requires Proper(t)
    ensures Proper(Updated(t, k, deny))
    ensures Deny(Updated(t, k, deny), x) == if x == k && Accepts(t, k, deny) then deny else Deny(t, x)
  {
    var u := Updated(t, k, deny);
    var i := if Find(t, k) < |t| then Find(t, k) else FindUnused(t);
    if Find(t, x) < |t| && x != k {
      FindAt(t, x, Find(t, x));
      FindAt(u, x, Find(t, x));
    }
    if Accepts(t, k, deny) && deny != 0 {
      FindAt(u, k, i);
    }
  }

  /** A change goes through exactly for a file that is protected, or to protect one while a slot is free. */
  lemma {:induction false} AcceptsExact(t: seq<Entry>, k: Key, deny: nat)
    requires Proper(t)
    ensures Accepts(t, k, deny) <==> Deny(t, k) != 0 || (deny != 0 && InUse(t) < |t|)
  {
    RoomLeft(t);
    if Find(t, k) < |t| {
      assert t[Find(t, k)].Used?;
    }
  }

  lemma {:induction false} RoomLeft(t: seq<Entry>)
    ensures InUse(t) <= |t| && (InUse(t) < |t| <==> FindUnused(t) < |t|)
  {
    if t != [] {
      RoomLeft(t[1..]);
    }
  }

  /** One entry more, one fewer, or as many as before. */
  lemma {:induction false} InUseAt(t: seq<Entry>, i: nat, e: Entry)
    requires i < |t|
    ensures InUse(t[i := e]) == InUse(t) - (if t[i].Used? then 1 else 0) + (if e.Used? then 1 else 0)
  {
    if i > 0 {
      InUseAt(t[1..], i - 1, e);
      assert t[i := e][1..] == t[1..][i - 1 := e];
    } else {
      assert t[0 := e][1..] == t[1..];
    }
  }

  /** What PgUpdate adds to g_Count: one for a new entry, one less for a removed one. */
  function Gained(t: seq<Entry>, k: Key, deny: nat): int {
    if Find(t, k) < |t| then if deny != 0 then 0 else -1
    else if deny != 0 && FindUnused(t) < |t| then 1
    else 0
  }

  /** So the count stays that of the entries in use. */
  lemma {:induction false} InUseUpdated(t: seq<Entry>, k: Key, deny: nat)
    ensures InUse(Updated(t, k, deny)) == InUse(t) + Gained(t, k, deny)
  {
    if Find(t, k) < |t| {
      InUseAt(t, Find(t, k), if deny != 0 then Used(k, deny) else Unused);
    } else if deny != 0 && FindUnused(t) < |t| {
      InUseAt(t, FindUnused(t), Used(k, deny));
    }
  }

  lemma {:induction false} NoneInUse(t: seq<Entry>, k: Key)
    requires InUse(t) == 0
    ensures Deny(t, k) == 0
  {
    if t != [] {
      NoneInUse(t[1..], k);
    }
  }

  // ---- the driver's state and its two loops --------------------------------

  const TWO32: int := 0x1_0000_0000

  /** InterlockedIncrement on a 32-bit counter. */
  function Increment(g: nat): nat {
    (g + 1) % TWO32
  }

  class Table {
    var entries: array<Entry>
    var count: int
    var generation: nat

    /** g_Count counts the entries in use, and the table is proper. */
    ghost predicate Valid()
      reads this, entries
    {
      entries.Length == MAX_PROTECTED && Proper(entries[..]) && count == InUse(entries[..])
    }

    constructor ()
      ensures Valid() && fresh(entries) && generation == 1 && forall k :: Deny(entries[..], k) == 0
    {
      entries := new Entry[MAX_PROTECTED](_ => Unused);
      count, generation := 0, 1;
      new;
      AllUnused(entries[..]);
    }

    static lemma {:induction false} AllUnused(t: seq<Entry>)
      requires forall i :: 0 <= i < |t| ==> t[i].Unused?
      ensures InUse(t) == 0 && forall k :: Deny(t, k) == 0
    {
      if t != [] {
        AllUnused(t[1..]);
      }
    }

    /** PgLookup: the flags of a file, and the generation they belong to. */
    method Lookup(k: Key) returns (deny: nat, gen: nat)
      requires Valid()
      ensures deny == Deny(entries[..], k) && gen == generation
    {
      gen := generation;
      for i := 0 to MAX_PROTECTED
        invariant forall j :: 0 <= j < i ==> !Holds(entries[j], k)
      {
        if entries[i].Used? && entries[i].key == k {
          FindAt(entries[..], k, i);
          return entries[i].deny, gen;
        }
      }
      deny := 0;
      assert Find(entries[..], k) == |entries[..]|;
    }

    /** The loop of PgUpdate: the file's entry, and the first unused one before it. */
    method Scan(k: Key) returns (at: nat, unused: nat)
      requires Valid()
      ensures at == Find(entries[..], k)
      ensures at == MAX_PROTECTED ==> unused == FindUnused(entries[..])
    {
      unused := MAX_PROTECTED;
      for i := 0 to MAX_PROTECTED
        invariant forall j :: 0 <= j < i ==> !Holds(entries[j], k)
        invariant if unused < MAX_PROTECTED then unused < i && entries[unused].Unused? && forall j :: 0 <= j < unused ==> entries[j].Used?
                  else unused == MAX_PROTECTED && forall j :: 0 <= j < i ==> entries[j].Used?
      {
        if entries[i].Unused? {
          if unused == MAX_PROTECTED {
            unused := i;
          }
        } else if entries[i].key == k {
          FindAt(entries[..], k, i);
          return i, unused;
        }
      }
      at := MAX_PROTECTED;
      assert Find(entries[..], k) == |entries[..]|;
    }

    /** PgUpdate: add, change or remove one entry, and bump the generation when it did. */
    method Update(k: Key, deny: nat) returns (ok: bool)
      requires Valid()
      modifies this, entries
      ensures Valid() && entries == old(entries)
      ensures ok <==> Accepts(old(entries[..]), k, deny)
      ensures entries[..] == Updated(old(entries[..]), k, deny)
      ensures count == old(count) + Gained(old(entries[..]), k, deny)
      ensures generation == if ok then Increment(old(generation)) else old(generation)
      ensures forall x :: Deny(entries[..], x) == if x == k && ok then deny else old(Deny(entries[..], x))
    {
      ghost var t := entries[..];
      var at, unused := Scan(k);
      ok := true;
      InUseUpdated(t, k, deny);
      if at < MAX_PROTECTED {
        entries[at] := if deny != 0 then Used(k, deny) else Unused;
        count := if deny != 0 then count else count - 1;
      } else if deny != 0 && unused < MAX_PROTECTED {
        entries[unused] := Used(k, deny);
        count := count + 1;
      } else {
        ok := false;
      }
      assert entries[..] == Updated(t, k, deny);
      forall x ensures Deny(entries[..], x) == if x == k && ok then deny else Deny(t, x) {
        UpdatedDeny(t, k, deny, x);
      }
      if ok {
        generation := Increment(generation);
      }
    }
  }
}
