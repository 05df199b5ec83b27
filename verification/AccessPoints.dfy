/** The table of scanned access points (access_point.c): what every run of additions, ticks and clearings
    keeps, and which entry an addition may take. */
module AccessPoints {

  const MAX_AP := 32
  const AP_TIMEOUT := 27

  /** A BSSID is its three 16-bit halves. */
  type Mac = (nat, nat, nat)
  const NO_MAC: Mac := (0, 0, 0)

  datatype Entry = Entry(bssid: Mac, active: bool, timectr: nat)

  type Table = t: seq<Entry> | |t| == MAX_AP witness seq(MAX_AP, _ => Entry(NO_MAC, false, 0))

  function Timeout(dsi: bool): nat { if dsi then AP_TIMEOUT * 10 else AP_TIMEOUT }

  // ---------------------------------------------------------------- what the operations do

  ghost predicate Holds(t: Table, x: Mac) { exists i :: 0 <= i < MAX_AP && t[i].bssid == x }
  ghost predicate Full(t: Table) { forall i :: 0 <= i < MAX_AP ==> t[i].active }

  /** The slot an addition goes to: the first that holds the BSSID, active or not; if there is none, the
      first inactive one; if there is none, the first of those not updated for longest. */
  ghost predicate Chosen(t: Table, x: Mac, c: nat) {
    && c < MAX_AP
    && if Holds(t, x) then
         t[c].bssid == x && forall i :: 0 <= i < c ==> t[i].bssid != x
       else if !Full(t) then
         !t[c].active && forall i :: 0 <= i < c ==> t[i].active
       else
         && (forall i :: 0 <= i < MAX_AP ==> t[i].timectr <= t[c].timectr)
         && (forall i :: 0 <= i < c ==> t[i].timectr < t[c].timectr)
  }

  ghost predicate Added(t: Table, x: Mac, t': Table, c: nat) {
    Chosen(t, x, c) && t' == t[c := Entry(x, true, 0)]
  }

  function Ticked(e: Entry, timeout: nat): Entry {
    if !e.active then e else Entry(e.bssid, e.timectr + 1 <= timeout, e.timectr + 1)
  }

  datatype Op = Add(bssid: Mac, locked: bool) | Tick(dsi: bool) | ClearAll

  ghost predicate AllTicked(t: Table, t': Table, timeout: nat) {
    forall i :: 0 <= i < MAX_AP ==> t'[i] == Ticked(t[i], timeout)
  }

  ghost predicate AllCleared(t: Table, t': Table) {
    forall i :: 0 <= i < MAX_AP ==> t'[i] == Entry(NO_MAC, false, t[i].timectr)
  }

  ghost predicate AddedSomewhere(t: Table, x: Mac, t': Table) { exists c :: Added(t, x, t', c) }

  ghost predicate Step(t: Table, op: Op, t': Table) {
    match op
    case Add(x, locked) => if locked then AddedSomewhere(t, x, t') else t' == t
    case Tick(dsi) => AllTicked(t, t', Timeout(dsi))
    case ClearAll => AllCleared(t, t')
  }

  // ---------------------------------------------------------------- what every run keeps

  /** No active entry repeats a BSSID found before it, which makes the first match the only active one. */
  ghost predicate Distinct(t: Table) {
    forall i, j :: 0 <= i < j < MAX_AP && t[j].active ==> t[i].bssid != t[j].bssid
  }

  ghost predicate Fresh(t: Table, limit: nat) {
    forall i :: 0 <= i < MAX_AP && t[i].active ==> t[i].timectr <= limit
  }

  lemma AddKeepsDistinct(t: Table, x: Mac, t': Table, c: nat)
    requires Distinct(t) && Added(t, x, t', c)
    ensures Distinct(t')
  {
    forall i, j | 0 <= i < j < MAX_AP && t'[j].active ensures t'[i].bssid != t'[j].bssid {
      if t[c].bssid == x { assert t'[i].bssid == t[i].bssid && t'[j].bssid == t[j].bssid; }
    }
  }

  lemma StepKeepsDistinct(t: Table, op: Op, t': Table)
    requires Distinct(t) && Step(t, op, t')
    ensures Distinct(t')
  {
    match op {
      case Add(x, locked) =>
        if locked {
          var c :| Added(t, x, t', c);
          AddKeepsDistinct(t, x, t', c);
        }
      case Tick(_) =>
      case ClearAll =>
    }
  }

  /** A tick leaves no active entry over its timeout; nothing else raises a counter. */
  lemma StepKeepsFresh(t: Table, op: Op, t': Table, limit: nat)
    requires Fresh(t, limit) && Step(t, op, t')
    ensures Fresh(t', if op.Tick? then Timeout(op.dsi) else limit)
  {}

  /** An active entry gives way to another BSSID only when all are active and none has waited longer. */
  lemma ReplacedOnlyWhenFull(t: Table, op: Op, t': Table, i: nat)
    requires Step(t, op, t') && i < MAX_AP && t[i].active && t'[i].active && t'[i].bssid != t[i].bssid
    ensures op.Add? && op.locked && t'[i].bssid == op.bssid
    ensures forall j :: 0 <= j < MAX_AP ==> t[j].active && t[j].timectr <= t[i].timectr && t[j].bssid != op.bssid
  {
    if op.Add? && op.locked {
      var c :| Added(t, op.bssid, t', c);
      assert c == i;
    }
  }

  ghost predicate OnlyAt(t: Table, x: Mac, c: nat) {
    forall j :: 0 <= j < MAX_AP && j != c && t[j].active ==> t[j].bssid != x
  }

  /** An addition that gets the lock leaves the access point in the table, once and just updated, and
      touches no other entry. */
  lemma AddedOnce(t: Table, x: Mac, t': Table)
    requires Distinct(t) && Step(t, Add(x, true), t')
    ensures exists c :: Added(t, x, t', c) && OnlyAt(t', x, c)
  {
    var c :| Added(t, x, t', c);
    forall j | 0 <= j < MAX_AP && j != c && t'[j].active ensures t'[j].bssid != x {
      assert t'[j] == t[j];
    }
  }

  ghost predicate Blank(t: Table) { forall i :: 0 <= i < MAX_AP ==> t[i] == Entry(NO_MAC, false, 0) }

  ghost predicate IsRun(ts: seq<Table>, ops: seq<Op>) {
    |ts| == |ops| + 1 && Blank(ts[0]) && forall k :: 0 <= k < |ops| ==> StepAt(ts, ops, k)
  }

  ghost predicate StepAt(ts: seq<Table>, ops: seq<Op>, k: nat)
    requires k < |ops| && |ts| == |ops| + 1
  {
    Step(ts[k], ops[k], ts[k + 1])
  }

  /** The timeout of the last tick among the first n operations; before any tick counters are zero. */
  function Limit(ops: seq<Op>, n: nat): nat
    requires n <= |ops|
  {
    if n == 0 then 0 else if ops[n - 1].Tick? then Timeout(ops[n - 1].dsi) else Limit(ops, n - 1)
  }

  lemma {:induction false} RunBound(ts: seq<Table>, ops: seq<Op>, n: nat)
    requires IsRun(ts, ops) && n <= |ops|
    ensures Distinct(ts[n]) && Fresh(ts[n], Limit(ops, n))
    decreases n
  {
    if n > 0 {
      RunBound(ts, ops, n - 1);
      assert StepAt(ts, ops, n - 1);
      StepKeepsDistinct(ts[n - 1], ops[n - 1], ts[n]);
      StepKeepsFresh(ts[n - 1], ops[n - 1], ts[n], Limit(ops, n - 1));
    }
  }

  /** The mode is set once, right after the shared struct that holds the table is cleared, and stays: all
      ticks of a run are of one mode. */
  ghost predicate OneMode(ops: seq<Op>, dsi: bool) {
    forall k :: 0 <= k < |ops| && ops[k].Tick? ==> ops[k].dsi == dsi
  }

  lemma {:induction false} LimitOfMode(ops: seq<Op>, dsi: bool, n: nat)
    requires OneMode(ops, dsi) && n <= |ops|
    ensures Limit(ops, n) <= Timeout(dsi)
    decreases n
  {
    if n > 0 { LimitOfMode(ops, dsi, n - 1); }
  }

  /** In every run active entries have different BSSIDs and counters no larger than the timeout. */
  lemma RunKeeps(ts: seq<Table>, ops: seq<Op>, dsi: bool, n: nat)
    requires IsRun(ts, ops) && OneMode(ops, dsi) && n <= |ops|
    ensures forall i, j :: 0 <= i < MAX_AP && 0 <= j < MAX_AP && i != j && ts[n][i].active && ts[n][j].active ==>
      ts[n][i].bssid != ts[n][j].bssid
    ensures forall i :: 0 <= i < MAX_AP && ts[n][i].active ==> ts[n][i].timectr <= Timeout(dsi)
  {
    RunBound(ts, ops, n);
    LimitOfMode(ops, dsi, n);
  }

  // ---------------------------------------------------------------- how long an entry stays

  /** The ticks among operations k .. n - 1. */
  function Ticks(ops: seq<Op>, k: nat, n: nat): nat
    requires k <= n <= |ops|
    decreases n
  {
    if k == n then 0 else Ticks(ops, k, n - 1) + if ops[n - 1].Tick? then 1 else 0
  }

  /** Operation j leaves the access point in slot c alone: it does not clear the table, report the access point
      again, or give its slot to another. */
  ghost predicate Left(ts: seq<Table>, ops: seq<Op>, x: Mac, c: nat, j: nat)
    requires j < |ops| && |ts| == |ops| + 1 && c < MAX_AP
  {
    !ops[j].ClearAll? && ops[j] != Add(x, true) && ts[j + 1][c].bssid == x
  }

  lemma LeftStep(t: Table, op: Op, t': Table, x: Mac, c: nat)
    requires Step(t, op, t') && c < MAX_AP && t[c].bssid == x == t'[c].bssid && !op.ClearAll? && op != Add(x, true)
    ensures t'[c] == if op.Tick? then Ticked(t[c], Timeout(op.dsi)) else t[c]
  {
    if op.Add? && op.locked {
      var d :| Added(t, op.bssid, t', d);
      assert d != c;
    }
  }

  /** An access point that is reported once stays in its slot, active, for Timeout ticks, and is inactive from
      the tick after that, for as long as nothing else touches the slot. */
  lemma {:induction false} EntryAges(ts: seq<Table>, ops: seq<Op>, dsi: bool, k: nat, n: nat, x: Mac, c: nat)
    requires IsRun(ts, ops) && OneMode(ops, dsi) && k < n <= |ops| && Added(ts[k], x, ts[k + 1], c)
    requires forall j :: k < j < n ==> Left(ts, ops, x, c, j)
    ensures ts[n][c].bssid == x && (ts[n][c].active <==> Ticks(ops, k + 1, n) <= Timeout(dsi))
    ensures ts[n][c].active ==> ts[n][c].timectr == Ticks(ops, k + 1, n)
    decreases n
  {
    if n > k + 1 {
      EntryAges(ts, ops, dsi, k, n - 1, x, c);
      assert Left(ts, ops, x, c, n - 1) && StepAt(ts, ops, n - 1);
      LeftStep(ts[n - 1], ops[n - 1], ts[n], x, c);
    }
  }

  /** Operation k put `x` into slot c, and as many ticks as its counter says have passed up to n. */
  ghost predicate AddedAt(ts: seq<Table>, ops: seq<Op>, n: nat, x: Mac, c: nat, k: nat)
    requires n <= |ops| && |ts| == |ops| + 1 && c < MAX_AP
  {
    k < n && ops[k] == Add(x, true) && Added(ts[k], x, ts[k + 1], c) && Ticks(ops, k + 1, n) == ts[n][c].timectr
  }

  lemma ActiveStep(t: Table, op: Op, t': Table, c: nat)
    requires Step(t, op, t') && c < MAX_AP && t'[c].active
    ensures || (op == Add(t'[c].bssid, true) && Added(t, t'[c].bssid, t', c) && t'[c].timectr == 0)
            || (t[c].active && t[c].bssid == t'[c].bssid
                && t'[c].timectr == t[c].timectr + if op.Tick? then 1 else 0)
  {
    if op.Add? && op.locked {
      var d :| Added(t, op.bssid, t', d);
    }
  }

  /** In every run an active entry was reported, and its counter is the number of ticks since then; so the table
      lists nothing that was not reported within the timeout. */
  lemma {:induction false} ActiveWasReported(ts: seq<Table>, ops: seq<Op>, n: nat, c: nat) returns (k: nat)
    requires IsRun(ts, ops) && n <= |ops| && c < MAX_AP && ts[n][c].active
    ensures AddedAt(ts, ops, n, ts[n][c].bssid, c, k)
    decreases n
  {
    if n == 0 {
      assert false;
    } else {
      assert StepAt(ts, ops, n - 1);
      ActiveStep(ts[n - 1], ops[n - 1], ts[n], c);
      if ops[n - 1] == Add(ts[n][c].bssid, true) && Added(ts[n - 1], ts[n][c].bssid, ts[n], c) {
        k := n - 1;
      } else {
        k := ActiveWasReported(ts, ops, n - 1, c);
      }
    }
  }

  // ---------------------------------------------------------------- the code

  class ApList {
    const aplist: array<Entry>

    ghost predicate Valid()
      reads this
    {
      aplist.Length == MAX_AP
    }

    ghost function Contents(): Table
      requires Valid()
      reads this, aplist
    {
      aplist[..]
    }

    constructor ()
      ensures Valid() && Blank(Contents()) && fresh(aplist)
    {
      aplist := new Entry[MAX_AP](_ => Entry(NO_MAC, false, 0));
    }

    /** Wifi_AccessPointClearAll */
    method ClearAll()
      requires Valid()
      modifies aplist
      ensures Step(old(Contents()), Op.ClearAll, Contents())
    {
      for i := 0 to MAX_AP
        invariant forall j :: 0 <= j < i ==> aplist[j] == Entry(NO_MAC, false, old(aplist[j]).timectr)
        invariant forall j :: i <= j < MAX_AP ==> aplist[j] == old(aplist[j])
      {
        aplist[i] := Entry(NO_MAC, false, aplist[i].timectr);
      }
    }

    /** The scan of Wifi_AccessPointAdd; -1 when there is neither a match nor a free slot. */
    method Scan(x: Mac) returns (slot: int, inList: bool)
      requires Valid()
      ensures -1 <= slot < MAX_AP
      ensures inList <==> exists i :: 0 <= i < MAX_AP && aplist[i].bssid == x
      ensures inList ==> slot >= 0 && aplist[slot].bssid == x && forall i :: 0 <= i < slot ==> aplist[i].bssid != x
      ensures !inList && slot >= 0 ==> !aplist[slot].active && forall i :: 0 <= i < slot ==> aplist[i].active
      ensures !inList && slot == -1 ==> forall i :: 0 <= i < MAX_AP ==> aplist[i].active
    {
      slot, inList := -1, false;
      for i := 0 to MAX_AP
        invariant -1 <= slot < i && !inList
        invariant forall j :: 0 <= j < i ==> aplist[j].bssid != x
        invariant forall j :: 0 <= j < (if slot == -1 then i else slot) ==> aplist[j].active
        invariant slot >= 0 ==> !aplist[slot].active
      {
        if aplist[i].bssid != x {
          if !aplist[i].active && slot == -1 { slot := i; }
          continue;
        }
        slot, inList := i, true;
        break;
      }
    }

    /** The entry that has waited longest. */
    method Oldest() returns (slot: nat)
      requires Valid()
      ensures slot < MAX_AP
      ensures forall i :: 0 <= i < MAX_AP ==> aplist[i].timectr <= aplist[slot].timectr
      ensures forall i :: 0 <= i < slot ==> aplist[i].timectr < aplist[slot].timectr
    {
      var max := 0;
      slot := 0;
      for i := 0 to MAX_AP
        invariant slot < MAX_AP && (slot < i || slot == 0)
        invariant max <= aplist[slot].timectr && (i > slot ==> max == aplist[slot].timectr)
        invariant forall j :: 0 <= j < i ==> aplist[j].timectr <= max
        invariant forall j :: 0 <= j < slot ==> aplist[j].timectr < max
      {
        if aplist[i].timectr > max {
          max, slot := aplist[i].timectr, i;
        }
      }
    }

    /** Wifi_AccessPointAdd; `locked` says whether the spinlock of the chosen slot was acquired. */
    method Add(x: Mac, locked: bool)
      requires Valid()
      modifies aplist
      ensures Step(old(Contents()), Op.Add(x, locked), Contents())
    {
      var slot, inList := Scan(x);
      if !inList && slot == -1 { slot := Oldest(); }
      ghost var before := Contents();
      assert Chosen(before, x, slot);
      if locked {
        aplist[slot] := Entry(if inList then aplist[slot].bssid else x, true, 0);
        assert Added(before, x, Contents(), slot);
      }
    }

    /** Wifi_AccessPointTick */
    method Tick(dsi: bool)
      requires Valid()
      modifies aplist
      ensures Step(old(Contents()), Op.Tick(dsi), Contents())
    {
      var timeout := AP_TIMEOUT;
      if dsi { timeout := AP_TIMEOUT * 10; }
      for i := 0 to MAX_AP
        invariant forall j :: 0 <= j < i ==> aplist[j] == Ticked(old(aplist[j]), timeout)
        invariant forall j :: i <= j < MAX_AP ==> aplist[j] == old(aplist[j])
      {
        var e := aplist[i];
        if e.active {
          e := e.(timectr := e.timectr + 1);
          if e.timectr > timeout { e := e.(active := false); }
          aplist[i] := e;
        }
      }
    }
  }
}
