/** Replicated match tables: every update goes to each replica on each socket, and a lookup on any
    replica answers from the last write. */
module Replicas {
  import opened Basics

  type Bytes = seq<bv8>

  /** lookup_table_t for exact matches: entries by the first keySize bytes of their key. */
  datatype Table = Table(keySize: nat, entries: map<Bytes, Bytes>, default_: Option<Bytes>)

  datatype Update = SetDefault(value: Bytes) | Add(key: Bytes, value: Bytes)

  predicate Fits(u: Update, keySize: nat) {
    u.Add? ==> |u.key| >= keySize
  }

  /** table_setdefault and exact_add; a keyless table takes no entries. */
  function Apply(t: Table, u: Update): Table
    requires Fits(u, t.keySize)
  {
    match u
    case SetDefault(v) => t.(default_ := Some(v))
    case Add(k, v) => if t.keySize == 0 then t else t.(entries := t.entries[k[..t.keySize] := v])
  }

  /** exact_lookup; None is the null pointer of a table without a default. */
  function Lookup(t: Table, key: Bytes): Option<Bytes>
    requires |key| >= t.keySize
  {
    if t.keySize == 0 then t.default_
    else if key[..t.keySize] in t.entries then Some(t.entries[key[..t.keySize]])
    else t.default_
  }

  function ApplyAll(t: Table, us: seq<Update>): (r: Table)
    requires forall u :: u in us ==> Fits(u, t.keySize)
    ensures r.keySize == t.keySize
  {
    if us == [] then t else Apply(ApplyAll(t, us[..|us| - 1]), us[|us| - 1])
  }

  function Empty(keySize: nat): Table {
    Table(keySize, map[], None)
  }

  // ----- the last write, without tables -----

  /** The value of the last matching entry in us, searching backwards. */
  function LastAdd(us: seq<Update>, keySize: nat, key: Bytes): Option<Bytes>
    requires |key| >= keySize && forall u :: u in us ==> Fits(u, keySize)
  {
    if us == [] then None else
      var u := us[|us| - 1];
      assert Fits(u, keySize);
      if u.Add? && u.key[..keySize] == key[..keySize] then Some(u.value) else LastAdd(us[..|us| - 1], keySize, key)
  }

  function LastDefault(us: seq<Update>): Option<Bytes> {
    if us == [] then None else
      var u := us[|us| - 1];
      if u.SetDefault? then Some(u.value) else LastDefault(us[..|us| - 1])
  }

  function LastWrite(us: seq<Update>, keySize: nat, key: Bytes): Option<Bytes>
    requires |key| >= keySize && forall u :: u in us ==> Fits(u, keySize)
  {
    if keySize > 0 && LastAdd(us, keySize, key).Some? then LastAdd(us, keySize, key) else LastDefault(us)
  }

  lemma {:induction false} LookupIsLastWrite(us: seq<Update>, keySize: nat, key: Bytes)
    requires |key| >= keySize && forall u :: u in us ==> Fits(u, keySize)
    ensures Lookup(ApplyAll(Empty(keySize), us), key) == LastWrite(us, keySize, key)
    ensures var t := ApplyAll(Empty(keySize), us);
            t.default_ == LastDefault(us)
            && (keySize > 0 ==> (key[..keySize] in t.entries <==> LastAdd(us, keySize, key).Some?)
                                && (key[..keySize] in t.entries ==>
                                  LastAdd(us, keySize, key) == Some(t.entries[key[..keySize]])))
  {
    if us != [] {
      LookupIsLastWrite(us[..|us| - 1], keySize, key);
    }
  }

  // ----- promotion -----

  /** The replicas of a socket in the middle of CHANGE_TABLE: `next` and those below `current` have
      had the call, the others not. */
  function Mid<T>(row: seq<T>, f: T -> T, next: nat, current: nat): (r: seq<T>)
    ensures |r| == |row|
  {
    seq(|row|, i requires 0 <= i < |row| => if i == next || i < current then f(row[i]) else row[i])
  }

  /** Row s of the replica tables. */
  ghost function Row<T>(tables: array2<T>, s: nat): (row: seq<T>)
    requires s < tables.Length0
    reads tables
    ensures |row| == tables.Length1 && forall r :: 0 <= r < |row| ==> row[r] == tables[s, r]
  {
    seq(tables.Length1, r requires 0 <= r < tables.Length1 reads tables => tables[s, r])
  }

  /** CHANGE_TABLE on one socket, for any table function: first the replica after the active one,
      then the others. After each call the row is a Mid, in the end every replica has had exactly
      one call. */
  method ChangeTable<T>(tables: array2<T>, s: nat, active: nat, f: T -> T)
    requires s < tables.Length0 && active < tables.Length1
    modifies tables
    ensures forall r :: 0 <= r < tables.Length1 ==> tables[s, r] == f(old(tables[s, r]))
    ensures forall p, r :: 0 <= p < tables.Length0 && p != s && 0 <= r < tables.Length1 ==>
      tables[p, r] == old(tables[p, r])
  {
    var n := tables.Length1;
    var next_replica := (active + 1) % n;
    ghost var row := Row(tables, s);
    tables[s, next_replica] := f(tables[s, next_replica]);
    for current_replica := 0 to n
      invariant Row(tables, s) == Mid(row, f, next_replica, current_replica)
      invariant forall p, r :: 0 <= p < tables.Length0 && p != s && 0 <= r < n ==> tables[p, r] == old(tables[p, r])
    {
      if current_replica != next_replica {
        tables[s, current_replica] := f(tables[s, current_replica]);
      }
    }
  }

  /** The promote functions: every socket whose tables exist. */
  method Promote<T>(tables: array2<T>, live: seq<bool>, active: seq<nat>, f: T -> T)
    requires |live| == |active| == tables.Length0 && forall s :: 0 <= s < |active| ==> active[s] < tables.Length1
    modifies tables
    ensures forall s, r :: 0 <= s < tables.Length0 && 0 <= r < tables.Length1 ==>
              tables[s, r] == if live[s] then f(old(tables[s, r])) else old(tables[s, r])
  {
    for socketid := 0 to tables.Length0
      invariant forall s, r :: 0 <= s < tables.Length0 && 0 <= r < tables.Length1 ==>
                  tables[s, r] == if s < socketid && live[s] then f(old(tables[s, r])) else old(tables[s, r])
    {
      if live[socketid] {
        ChangeTable(tables, socketid, active[socketid], f);
      }
    }
  }

  ghost predicate Usable(us: seq<Update>, keySize: nat) {
    forall u :: u in us ==> Fits(u, keySize)
  }

  /** A table after a sequence of table functions. */
  function RunAll<T>(t: T, fs: seq<T -> T>): T {
    if fs == [] then t else fs[|fs| - 1](RunAll(t, fs[..|fs| - 1]))
  }

  /** Whatever the table functions are, lpm_add and ternary_add among them: a run of promotions
      leaves every replica of every live socket with all of them, each once and in order. */
  method PromoteRun<T>(tables: array2<T>, live: seq<bool>, active: seq<nat>, fs: seq<T -> T>)
    requires |live| == |active| == tables.Length0 && forall s :: 0 <= s < |active| ==> active[s] < tables.Length1
    modifies tables
    ensures forall s, r :: 0 <= s < tables.Length0 && 0 <= r < tables.Length1 ==>
              tables[s, r] == if live[s] then RunAll(old(tables[s, r]), fs) else old(tables[s, r])
  {
    for k := 0 to |fs|
      invariant forall s, r :: 0 <= s < tables.Length0 && 0 <= r < tables.Length1 ==>
                  tables[s, r] == if live[s] then RunAll(old(tables[s, r]), fs[..k]) else old(tables[s, r])
    {
      assert fs[..k + 1][..k] == fs[..k];
      Promote(tables, live, active, fs[k]);
    }
    assert fs[..|fs|] == fs;
  }

  /** The table function of an update; it leaves tables of another key size alone. */
  function Updater(u: Update): Table -> Table {
    (t: Table) => if Fits(u, t.keySize) then Apply(t, u) else t
  }

  function Updaters(us: seq<Update>): (fs: seq<Table -> Table>)
    ensures |fs| == |us|
  {
    seq(|us|, k requires 0 <= k < |us| => Updater(us[k]))
  }

  lemma {:induction false} RunOfUpdaters(keySize: nat, us: seq<Update>)
    requires Usable(us, keySize)
    ensures RunAll(Empty(keySize), Updaters(us)) == ApplyAll(Empty(keySize), us)
  {
    if us != [] {
      var n := |us| - 1;
      assert Updaters(us)[..n] == Updaters(us[..n]);
      RunOfUpdaters(keySize, us[..n]);
      assert us[n] in us;
    }
  }

  /** A run of promoted updates leaves every replica of every live socket with all of them, each
      once and in order. */
  method PromoteAll(tables: array2<Table>, live: seq<bool>, active: seq<nat>, keySize: nat, us: seq<Update>)
    requires |live| == |active| == tables.Length0 && forall s :: 0 <= s < |active| ==> active[s] < tables.Length1
    requires Usable(us, keySize)
    requires forall s, r :: 0 <= s < tables.Length0 && 0 <= r < tables.Length1 ==> tables[s, r] == Empty(keySize)
    modifies tables
    ensures forall s, r :: 0 <= s < tables.Length0 && 0 <= r < tables.Length1 ==>
              tables[s, r] == if live[s] then ApplyAll(Empty(keySize), us) else Empty(keySize)
  {
    RunOfUpdaters(keySize, us);
    PromoteRun(tables, live, active, Updaters(us));
  }

  /** In the middle of promoting u after us, a lookup on any replica answers from the last write
      with or without u. */
  lemma MidLookup(row: seq<Table>, keySize: nat, us: seq<Update>, u: Update, next: nat, current: nat, r: nat,
          key: Bytes)
    requires Usable(us, keySize) && Fits(u, keySize) && |key| >= keySize && r < |row|
    requires forall i :: 0 <= i < |row| ==> row[i] == ApplyAll(Empty(keySize), us)
    ensures var t := Mid(row, Updater(u), next, current)[r];
            && t.keySize == keySize
            && Lookup(t, key) == LastWrite(if r == next || r < current then us + [u] else us, keySize, key)
  {
    LookupIsLastWrite(us, keySize, key);
    LookupIsLastWrite(us + [u], keySize, key);
    assert (us + [u])[..|us|] == us;
  }
}
