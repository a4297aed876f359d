/**
 The table of scan candidates of the speaker pairing (apps/btspeaker/btspeaker_main.cpp): three
 entries, the weakest of which may be replaced.
 */
module ScanTable {
  import opened Ring

  const TABLE_SIZE: nat := 3
  const CONFIRM_COUNT: nat := 5

  type Addr = a: seq<byte> | |a| == 6 witness [0, 0, 0, 0, 0, 0]

  const NO_ADDR: Addr := [0, 0, 0, 0, 0, 0]

  /** What a device advertises about its links: the fields the role decision looks at. */
  datatype Status = Status(mobile: nat, profile: nat, time: nat)

  datatype Entry = Entry(used: bool, rssi: int, addr: Addr, status: Status, count: nat)

  const EMPTY: Entry := Entry(false, 0, NO_ADDR, Status(0, 0, 0), 0)

  /** One valid discovery advertisement. */
  datatype Reception = Reception(rssi: int, addr: Addr, status: Status)

  type Table = t: seq<Entry> | |t| == TABLE_SIZE witness [EMPTY, EMPTY, EMPTY]

  const CLEARED: Table := [EMPTY, EMPTY, EMPTY]

  /** The first entry from `i` on that is free or belongs to `addr`. */
  function Find(t: Table, addr: Addr, i: nat): (k: nat)
    requires i <= TABLE_SIZE
    ensures i <= k <= TABLE_SIZE
    ensures k < TABLE_SIZE ==> !t[k].used || t[k].addr == addr
    ensures forall j :: i <= j < k ==> t[j].used && t[j].addr != addr
    decreases TABLE_SIZE - i
  {
    if i == TABLE_SIZE || !t[i].used || t[i].addr == addr then i else Find(t, addr, i + 1)
  }

  /** The first entry of least RSSI among the first `n`. */
  function Weakest(t: Table, n: nat): (k: nat)
    requires n <= TABLE_SIZE
    ensures k < TABLE_SIZE
    ensures forall j :: 0 <= j < n ==> t[k].rssi <= t[j].rssi
  {
    if n <= 1 then 0
    else
      var k := Weakest(t, n - 1);
      if t[n - 1].rssi < t[k].rssi then n - 1 else k
  }

  function Enter(r: Reception): Entry { Entry(true, r.rssi, r.addr, r.status, 1) }

  /** The count is a 16-bit field. */
  function Again(e: Entry, r: Reception): Entry
  {
    e.(rssi := r.rssi, status := r.status, count := (e.count + 1) % 0x1_0000)
  }

  /** The entry a reception writes, if any. */
  function Target(t: Table, r: Reception): (k: nat)
    ensures k <= TABLE_SIZE
  {
    var k := Find(t, r.addr, 0);
    if k < TABLE_SIZE then k
    else if r.rssi >= t[Weakest(t, TABLE_SIZE)].rssi then Weakest(t, TABLE_SIZE)
    else TABLE_SIZE
  }

  function Receive(t: Table, r: Reception): Table
  {
    var k := Target(t, r);
    if k == TABLE_SIZE then t
    else t[k := if t[k].used && t[k].addr == r.addr then Again(t[k], r) else Enter(r)]
  }

  /** The candidate is confirmed once its count has reached the threshold. */
  predicate Confirms(t: Table, r: Reception)
  {
    var k := Target(t, r);
    k < TABLE_SIZE && Receive(t, r)[k].count >= CONFIRM_COUNT
  }

  class Candidates {
    const table: array<Entry>

    ghost predicate Valid() { table.Length == TABLE_SIZE }

    constructor ()
      ensures Valid() && fresh(table) && table[..] == CLEARED
    {
      table := new Entry[TABLE_SIZE](_ => EMPTY);
    }

    /** app_speaker_ble_scan_data_handle_tws_discovery_ind, after the CRC check and the product check. */
    method Handle(r: Reception) returns (confirm: bool)
      requires Valid()
      modifies table
      ensures table[..] == Receive(old(table[..]), r)
      ensures confirm == Confirms(old(table[..]), r)
    {
      ghost var was := table[..];
      var minRssi := table[0].rssi;
      var found, index := 0, 0;
      confirm := false;
      while index < TABLE_SIZE
        invariant index <= TABLE_SIZE && table[..] == was && !confirm
        invariant Find(was, r.addr, 0) == Find(was, r.addr, index)
        invariant found == Weakest(was, index) && minRssi == was[found].rssi
      {
        if !table[index].used {
          table[index] := Enter(r);
          confirm := table[index].count >= CONFIRM_COUNT;
          return;
        } else if table[index].addr == r.addr {
          table[index] := Again(table[index], r);
          confirm := table[index].count >= CONFIRM_COUNT;
          return;
        } else if table[index].rssi < minRssi {
          minRssi := table[index].rssi;
          found := index;
        }
        index := index + 1;
      }
      if r.rssi >= minRssi {
        table[found] := Enter(r);
        confirm := table[found].count >= CONFIRM_COUNT;
      }
    }

    /** app_speaker_scan_cache_table_max_recv_cnt_index_get */
    method MaxCount() returns (k: nat)
      requires Valid()
      ensures k == Best(table[..])
    {
      var best := table[0].count;
      k := 0;
      for i := 1 to TABLE_SIZE
        invariant k < TABLE_SIZE && best == table[k].count && k == BestOf(table[..], i)
      {
        if table[i].count > best {
          k, best := i, table[i].count;
        }
      }
    }
  }

  function BestOf(t: Table, n: nat): (k: nat)
    requires 1 <= n <= TABLE_SIZE
    ensures k < n && forall j :: 0 <= j < n ==> t[j].count <= t[k].count
    ensures forall j :: 0 <= j < k ==> t[j].count < t[k].count
  {
    if n == 1 then 0 else var k := BestOf(t, n - 1); if t[n - 1].count > t[k].count then n - 1 else k
  }

  /** The candidate heard most often, the first of them on a tie. */
  function Best(t: Table): (k: nat)
    ensures k < TABLE_SIZE && forall j :: 0 <= j < TABLE_SIZE ==> t[j].count <= t[k].count
    ensures forall j :: 0 <= j < k ==> t[j].count < t[k].count
  {
    BestOf(t, TABLE_SIZE)
  }

  // ---------- the table over a history ----------

  predicate Listed(t: Table, addr: Addr)
  {
    exists k :: 0 <= k < TABLE_SIZE && t[k].used && t[k].addr == addr
  }

  /** Used entries form a prefix, their addresses differ, and free entries are blank. */
  predicate Tidy(t: Table)
  {
    && (forall j, k :: 0 <= j < k < TABLE_SIZE && t[k].used ==> t[j].used && t[j].addr != t[k].addr)
    && (forall k :: 0 <= k < TABLE_SIZE && !t[k].used ==> t[k] == EMPTY)
  }

  lemma ReceiveKeepsTidy(t: Table, r: Reception)
    requires Tidy(t)
    ensures Tidy(Receive(t, r))
  {
    var k := Find(t, r.addr, 0);
    var u := Receive(t, r);
    assert forall j :: 0 <= j < TABLE_SIZE && j != Target(t, r) ==> u[j] == t[j];
  }

  /** A full table gives up an entry only for a reading at least as strong as its weakest, and only that one. */
  lemma OnlyWeakestReplaced(t: Table, r: Reception, k: nat)
    requires Tidy(t) && k < TABLE_SIZE && t[k].used && !Listed(t, r.addr)
    ensures Receive(t, r)[k] != t[k] <==>
      && (forall j :: 0 <= j < TABLE_SIZE ==> t[j].used && t[k].rssi <= t[j].rssi)
      && (forall j :: 0 <= j < k ==> t[k].rssi < t[j].rssi)
      && r.rssi >= t[k].rssi
  {
    var w := Weakest(t, TABLE_SIZE);
    WeakestIsFirst(t, TABLE_SIZE);
    if Find(t, r.addr, 0) == TABLE_SIZE {
      assert t[w].used;
    }
  }

  /** Who is listed after a reception: a device not listed yet is, exactly when there is a free entry or its reading is
      at least as strong as the weakest. */
  lemma ListedAfter(t: Table, r: Reception)
    requires Tidy(t)
    ensures Listed(Receive(t, r), r.addr) <==>
      || Listed(t, r.addr)
      || exists k :: 0 <= k < TABLE_SIZE && (!t[k].used || t[k].rssi <= r.rssi)
  {
    var f := Find(t, r.addr, 0);
    var e := Receive(t, r);
    if f < TABLE_SIZE {
      assert e[f].used && e[f].addr == r.addr;
      if t[f].used { assert Listed(t, r.addr); }
    } else {
      var w := Weakest(t, TABLE_SIZE);
      if r.rssi >= t[w].rssi { assert e[w].used && e[w].addr == r.addr; }
      assert forall k :: 0 <= k < TABLE_SIZE ==> t[w].rssi <= t[k].rssi;
    }
  }

  /** A candidate is confirmed by its fifth reception and every later one, in 16 bits. */
  lemma ConfirmsIff(t: Table, r: Reception)
    requires Tidy(t)
    ensures Confirms(t, r) <==>
      exists k :: 0 <= k < TABLE_SIZE && t[k].used && t[k].addr == r.addr && (t[k].count + 1) % 0x1_0000 >= 5
  {
    var f := Find(t, r.addr, 0);
    if f < TABLE_SIZE && t[f].used {
      assert Receive(t, r)[f].count == (t[f].count + 1) % 0x1_0000;
    }
  }

  lemma {:induction false} WeakestIsFirst(t: Table, n: nat)
    requires n <= TABLE_SIZE
    ensures forall j :: 0 <= j < Weakest(t, n) ==> t[Weakest(t, n)].rssi < t[j].rssi
  {
    if n > 1 { WeakestIsFirst(t, n - 1); }
  }

  /** The table from its clearing on, reception by reception. */
  ghost predicate Trace(history: seq<Reception>, tables: seq<Table>)
  {
    && |tables| == |history| + 1 && tables[0] == CLEARED
    && forall i :: 0 <= i < |history| ==> tables[i + 1] == Receive(tables[i], history[i])
  }

  lemma {:induction false} AlwaysTidy(history: seq<Reception>, tables: seq<Table>, n: nat)
    requires Trace(history, tables) && n <= |history|
    ensures Tidy(tables[n])
  {
    if n > 0 {
      AlwaysTidy(history, tables, n - 1);
      ReceiveKeepsTidy(tables[n - 1], history[n - 1]);
    }
  }

  /** The receptions from `addr` in history[from..to]. */
  function Heard(history: seq<Reception>, from: nat, to: nat, addr: Addr): nat
    requires from <= to <= |history|
  {
    if from == to then 0
    else Heard(history, from, to - 1, addr) + if history[to - 1].addr == addr then 1 else 0
  }

  /** `addr` was not listed at `start`, and has been ever since. */
  ghost predicate ListedSince(tables: seq<Table>, addr: Addr, start: nat, n: nat)
    requires n < |tables|
  {
    start < n && !Listed(tables[start], addr) && forall j :: start < j <= n ==> Listed(tables[j], addr)
  }

  lemma ListedStep(t: Table, r: Reception, k: nat)
    requires Tidy(t) && k < TABLE_SIZE && Receive(t, r)[k].used
    ensures var e := Receive(t, r)[k];
      if e.addr == r.addr then
        (if Listed(t, e.addr) then t[k].used && t[k].addr == e.addr && e == Again(t[k], r) else e == Enter(r))
      else e == t[k]
  {
    var f := Find(t, r.addr, 0);
    if f < TABLE_SIZE && t[f].used {
      assert Listed(t, r.addr);
    } else {
      assert !Listed(t, r.addr);
    }
  }

  /** What entry `e` of table `n` says about the history. */
  ghost predicate Accounts(history: seq<Reception>, tables: seq<Table>, n: nat, e: Entry, start: nat, last: nat)
    requires n <= |history| && n < |tables|
  {
    && ListedSince(tables, e.addr, start, n) && start <= last < n
    && e.count == Heard(history, start, n, e.addr) % 0x1_0000
    && history[last] == Reception(e.rssi, e.addr, e.status)
    && Heard(history, last + 1, n, e.addr) == 0
  }

  lemma AccountsEnter(history: seq<Reception>, tables: seq<Table>, n: nat, e: Entry)
    requires 0 < n <= |history| && n < |tables|
    requires e == Enter(history[n - 1]) && !Listed(tables[n - 1], e.addr) && Listed(tables[n], e.addr)
    ensures Accounts(history, tables, n, e, n - 1, n - 1)
  {
    assert Heard(history, n - 1, n - 1, e.addr) == 0;
  }

  lemma AccountsAgain(history: seq<Reception>, tables: seq<Table>, n: nat, d: Entry, start: nat, last: nat)
    requires 0 < n <= |history| && n < |tables| && Accounts(history, tables, n - 1, d, start, last)
    requires history[n - 1].addr == d.addr && Listed(tables[n], d.addr)
    ensures Accounts(history, tables, n, Again(d, history[n - 1]), start, n - 1)
  {
  }

  lemma AccountsKept(history: seq<Reception>, tables: seq<Table>, n: nat, e: Entry, start: nat, last: nat)
    requires 0 < n <= |history| && n < |tables| && Accounts(history, tables, n - 1, e, start, last)
    requires history[n - 1].addr != e.addr && Listed(tables[n], e.addr)
    ensures Accounts(history, tables, n, e, start, last)
  {
  }

  lemma TraceStep(history: seq<Reception>, tables: seq<Table>, n: nat, k: nat)
    requires Trace(history, tables) && n <= |history| && k < TABLE_SIZE && tables[n][k].used
    ensures n > 0
    ensures var e, d, r := tables[n][k], tables[n - 1][k], history[n - 1];
      && Listed(tables[n], e.addr)
      && if e.addr == r.addr then
           (if Listed(tables[n - 1], e.addr) then d.used && d.addr == e.addr && e == Again(d, r) else e == Enter(r))
         else e == d
  {
    if n > 0 {
      AlwaysTidy(history, tables, n - 1);
      assert tables[n - 1 + 1] == Receive(tables[n - 1], history[n - 1]);
      ListedStep(tables[n - 1], history[n - 1], k);
    }
  }

  /** Every count is the number of receptions from that address since it last entered the table, modulo the
      16 bits of the field, and the entry shows the last of them. */
  lemma {:induction false} CountsReceptions(history: seq<Reception>, tables: seq<Table>, n: nat, k: nat)
    returns (start: nat, last: nat)
    requires Trace(history, tables) && n <= |history| && k < TABLE_SIZE && tables[n][k].used
    ensures Accounts(history, tables, n, tables[n][k], start, last)
    decreases n
  {
    hide Accounts, Listed, Again, Enter, Find, Receive;
    TraceStep(history, tables, n, k);
    var e, d, r := tables[n][k], tables[n - 1][k], history[n - 1];
    if e.addr == r.addr && !Listed(tables[n - 1], e.addr) {
      start, last := n - 1, n - 1;
      AccountsEnter(history, tables, n, e);
    } else {
      start, last := CountsReceptions(history, tables, n - 1, k);
      if e.addr == r.addr {
        AccountsAgain(history, tables, n, d, start, last);
        last := n - 1;
      } else {
        AccountsKept(history, tables, n, e, start, last);
      }
    }
  }
}
